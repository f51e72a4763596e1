// The database as one mutable object, and the consistency transactions as
// methods on it. Each method performs the steps of one executeSQL,
// executeMongo or older execute body, and, as PrimaryTransaction.run does
// around every body, puts the store back as it found it when the body
// fails. Each is proved to leave exactly the state the matching function of
// module Transactions describes.

module Store {
  import opened Model
  import opened PolicyKey
  import opened Rows
  import opened Transactions

  /** Saving records one after the other, each replacing the record of its
      subject. */
  function SaveAll(perms: map<string, UserPermissions>, recs: seq<(string, UserPermissions)>): map<string, UserPermissions>
    decreases |recs|
  {
    if recs == [] then perms else SaveAll(perms[recs[0].0 := recs[0].1], recs[1..])
  }

  lemma SaveAllAppend(perms: map<string, UserPermissions>, a: seq<(string, UserPermissions)>, b: seq<(string, UserPermissions)>)
    ensures SaveAll(perms, a + b) == SaveAll(SaveAll(perms, a), b)
    decreases |a|
  {
    if a == [] {
      assert a + b == b;
    } else {
      assert (a + b)[1..] == a[1..] + b;
      SaveAllAppend(perms[a[0].0 := a[0].1], a[1..], b);
    }
  }

  /** The records the Mongo removeRole body saves: each holder's record
      without the role. */
  function StrippedRecords(perms: map<string, UserPermissions>, found: seq<string>, rid: nat): (r: seq<(string, UserPermissions)>)
    requires forall s :: s in found ==> s in perms
  {
    seq(|found|, i requires 0 <= i < |found| => (found[i], perms[found[i]].(roles := WithoutId(perms[found[i]].roles, rid))))
  }

  lemma {:induction false} WithoutIdAbsent(ids: seq<nat>, id: nat)
    requires id !in ids
    ensures WithoutId(ids, id) == ids
  {
    if ids != [] {
      WithoutIdAbsent(ids[1..], id);
      assert ids == [ids[0]] + ids[1..];
    }
  }

  lemma {:induction false} SaveStrippedValues(m: map<string, UserPermissions>, perms: map<string, UserPermissions>, found: seq<string>, rid: nat)
    requires forall s :: s in found ==> s in perms
    ensures var r := SaveAll(m, StrippedRecords(perms, found, rid));
      r.Keys == m.Keys + (set s | s in found) &&
      forall k :: k in r ==> r[k] == if k in found then perms[k].(roles := WithoutId(perms[k].roles, rid)) else m[k]
    decreases |found|
  {
    if found != [] {
      var recs := StrippedRecords(perms, found, rid);
      assert recs[1..] == StrippedRecords(perms, found[1..], rid);
      var s := found[0];
      SaveStrippedValues(m[s := perms[s].(roles := WithoutId(perms[s].roles, rid))], perms, found[1..], rid);
      assert forall k :: k in found <==> k == s || k in found[1..];
    }
  }

  /** Saving the stripped record of every holder strips the role from every
      record. */
  lemma SaveStripped(perms: map<string, UserPermissions>, found: seq<string>, rid: nat)
    requires forall s :: s in found <==> s in perms && rid in perms[s].roles
    ensures SaveAll(perms, StrippedRecords(perms, found, rid)) == StripRole(perms, rid)
  {
    SaveStrippedValues(perms, perms, found, rid);
    forall k | k in perms && k !in found
      ensures WithoutId(perms[k].roles, rid) == perms[k].roles
    {
      WithoutIdAbsent(perms[k].roles, rid);
    }
  }

  class Store {
    var policies: map<nat, Policy>
    var roles: map<nat, Role>
    var perms: map<string, UserPermissions>
    var users: map<nat, User>
    var denorm: seq<Row>
    var nextId: nat

    function State(): State
      reads this
    {
      Model.State(policies, roles, perms, users, denorm, nextId)
    }

    constructor (s: State)
      ensures State() == s
    {
      policies, roles, perms, users, denorm, nextId := s.policies, s.roles, s.perms, s.users, s.denorm, s.nextId;
    }

    /** Rollback: every collection as it was in `s`. */
    method Restore(s: State)
      modifies this
      ensures State() == s
    {
      policies, roles, perms, users, denorm, nextId := s.policies, s.roles, s.perms, s.users, s.denorm, s.nextId;
    }

    method CreatePolicy(resource: string, action: string) returns (p: Policy)
      modifies this
      ensures (State(), p) == NewPolicy(old(State()), resource, action)
    {
      p := Policy(nextId, resource, action);
      policies := policies[nextId := p];
      nextId := nextId + 1;
    }

    method CreateRole(name: string) returns (role: Role)
      modifies this
      ensures role == Role(old(nextId), name, [])
      ensures State() == old(State()).(roles := old(roles)[old(nextId) := role], nextId := old(nextId) + 1)
    {
      role := Role(nextId, name, []);
      roles := roles[nextId := role];
      nextId := nextId + 1;
    }

    /** Inserts `rows` chunk by chunk, as the Mongo bodies do. */
    method InsertInChunks(rows: seq<Row>, size: nat)
      requires size > 0
      modifies this
      ensures State() == old(State()).(denorm := old(denorm) + rows)
    {
      var chunks := Chunk(rows, size);
      ghost var s0 := State();
      var c := 0;
      while c < |chunks|
        invariant 0 <= c <= |chunks|
        invariant State() == s0.(denorm := s0.denorm + Flatten(chunks[..c]))
      {
        denorm := denorm + chunks[c];
        FlattenAppend(chunks[..c], chunks[c]);
        assert chunks[..c + 1] == chunks[..c] + [chunks[c]];
        c := c + 1;
      }
      ChunkSpec(rows, size);
      assert chunks[..c] == chunks;
    }

    /** Saves the records chunk by chunk, each chunk one record at a time. */
    method SaveInChunks(recs: seq<(string, UserPermissions)>, size: nat)
      requires size > 0
      modifies this
      ensures State() == old(State()).(perms := SaveAll(old(perms), recs))
    {
      var chunks := Chunk(recs, size);
      ghost var s0 := State();
      var c := 0;
      while c < |chunks|
        invariant 0 <= c <= |chunks|
        invariant State() == s0.(perms := SaveAll(s0.perms, Flatten(chunks[..c])))
      {
        SaveBatch(chunks[c]);
        SaveAllAppend(s0.perms, Flatten(chunks[..c]), chunks[c]);
        FlattenAppend(chunks[..c], chunks[c]);
        assert chunks[..c + 1] == chunks[..c] + [chunks[c]];
        c := c + 1;
      }
      ChunkSpec(recs, size);
      assert chunks[..c] == chunks;
    }

    /** Saves one chunk of records, one after the other. */
    method SaveBatch(batch: seq<(string, UserPermissions)>)
      modifies this
      ensures State() == old(State()).(perms := SaveAll(old(perms), batch))
    {
      ghost var s0 := State();
      var k := 0;
      while k < |batch|
        invariant 0 <= k <= |batch|
        invariant State() == s0.(perms := SaveAll(s0.perms, batch[..k]))
      {
        SaveAllAppend(s0.perms, batch[..k], [batch[k]]);
        assert batch[..k + 1] == batch[..k] + [batch[k]];
        perms := perms[batch[k].0 := batch[k].1];
        k := k + 1;
      }
      assert batch[..k] == batch;
    }

    // ----------------------------------------------------------- SQL bodies

    /** executeSQL of addRoleToUser. */
    method SqlAddRoleToUser(subject: string, role: Role, fetchOk: bool) returns (r: Result<bool>)
      modifies this
      ensures var t := Transactions.SqlAddRoleToUser(old(State()), subject, role, fetchOk);
        State() == Commit(old(State()), if t.Ok? then Ok((t.value, true)) else Err(t.error)) &&
        (if t.Ok? then r == Ok(true) else r == Err(t.error))
    {
      var s0 := State();  // snapshot for rollback
      var found: Option<UserPermissions> := None;
      var forRole: Option<Role> := None;
      if fetchOk {
        found := if subject in perms then Some(perms[subject]) else None;
        forRole := if role.id in roles then Some(roles[role.id]) else None;
      }
      var up: UserPermissions;
      if found.None? {
        up := UserPermissions(subject, [], []);
        perms := perms[subject := up];
      } else {
        up := found.value;
      }
      var i := 0;
      while i < |up.roles|
        invariant 0 <= i <= |up.roles|
        invariant role.id !in up.roles[..i]
      {
        if up.roles[i] == role.id {
          Restore(s0);
          return Err(RoleAlreadyExistsOnUser);
        }
        assert up.roles[..i + 1] == up.roles[..i] + [up.roles[i]];
        i := i + 1;
      }
      assert up.roles[..i] == up.roles;
      up := up.(roles := up.roles + [role.id]);
      perms := perms[subject := up];
      var toInsert: seq<Row> := [];
      if forRole.Some? {
        var ps := forRole.value.policies;
        var j := 0;
        while j < |ps|
          invariant 0 <= j <= |ps|
          invariant toInsert == RoleRows(subject, ps[..j], role.name)
        {
          toInsert := toInsert + [Row(subject, PolicyMapKey(ps[j]), Some(role.name))];
          j := j + 1;
        }
        assert ps[..j] == ps;
      }
      if |toInsert| > 0 {
        denorm := denorm + toInsert;
      } else {
        assert denorm + toInsert == denorm;
      }
      return Ok(true);
    }

    /** The reduction of the holders' subjects to distinct ones. */
    method DistinctSubjects(subjects: seq<string>) returns (d: seq<string>)
      ensures d == Dedup(subjects)
    {
      d := [];
      var seen: set<string> := {};
      var k := 0;
      while k < |subjects|
        invariant 0 <= k <= |subjects|
        invariant d == Dedup(subjects[..k])
        invariant forall x :: x in seen <==> x in d
      {
        assert subjects[..k + 1][..k] == subjects[..k];
        if subjects[k] !in seen {
          seen := seen + {subjects[k]};
          d := d + [subjects[k]];
        }
        k := k + 1;
      }
      assert subjects[..k] == subjects;
    }

    /** The rows giving one policy through a role to each subject. */
    method FanOut(subjects: seq<string>, key: string, roleName: string) returns (rows: seq<Row>)
      ensures rows == FanOutRows(subjects, key, roleName)
    {
      rows := [];
      var m := 0;
      while m < |subjects|
        invariant 0 <= m <= |subjects|
        invariant rows == FanOutRows(subjects[..m], key, roleName)
      {
        rows := rows + [Row(subjects[m], key, Some(roleName))];
        m := m + 1;
      }
      assert subjects[..m] == subjects;
    }

    /** executeSQL of addPolicyToRole. */
    method SqlAddPolicyToRole(resource: Option<string>, action: Option<string>, policy: Option<Policy>, role: Role)
      returns (r: Result<(Role, Policy)>)
      modifies this
      ensures var t := Transactions.SqlAddPolicyToRole(old(State()), resource, action, policy, role);
        State() == Commit(old(State()), t) &&
        (if t.Ok? then r == Ok(t.value.1) else r == Err(t.error))
    {
      var s0 := State();  // snapshot for rollback
      var p: Policy;
      if policy.None? {
        if resource.None? || action.None? {
          return Err(StoreFailure);
        }
        p := CreatePolicy(resource.value, action.value);
      } else {
        p := policy.value;
      }
      ghost var s1 := State();
      var i := 0;
      while i < |role.policies|
        invariant 0 <= i <= |role.policies|
        invariant forall j :: 0 <= j < i ==> role.policies[j].id != p.id
        invariant State() == s1
      {
        if p.id == role.policies[i].id {
          assert Ids(role.policies)[i] == p.id;
          Restore(s0);
          return Err(PolicyAlreadyAttachedOnRole);
        }
        i := i + 1;
      }
      assert forall k :: 0 <= k < |Ids(role.policies)| ==> Ids(role.policies)[k] != p.id;
      var role' := SqlAttachToRole(p, role);
      return Ok((role', p));
    }

    /** The tail of executeSQL of addPolicyToRole: append, save, fan out. */
    method SqlAttachToRole(p: Policy, role: Role) returns (role': Role)
      modifies this
      ensures (State(), (role', p)) == AttachToRole(old(State()), p, role)
    {
      role' := if |role.policies| == 0 then role.(policies := [p]) else role.(policies := role.policies + [p]);
      assert role'.policies == role.policies + [p];
      roles := roles[role.id := role'];
      var subjects := SubjectsWithRole(denorm, role.name);
      var holders := DistinctSubjects(subjects);
      var toInsert := FanOut(holders, PolicyMapKey(p), role.name);
      if |toInsert| > 0 {
        denorm := denorm + toInsert;
      } else {
        assert denorm + toInsert == denorm;
      }
    }

    /** executeSQL of addPolicyToUser. */
    method SqlAddPolicyToUser(subject: string, policy: Option<Policy>, resource: Option<string>, action: Option<string>,
                              existing: Option<UserPermissions>, policiesLoaded: bool)
      returns (r: Result<UserPermissions>)
      modifies this
      ensures var t := Transactions.SqlAddPolicyToUser(old(State()), subject, policy, resource, action, existing, policiesLoaded);
        State() == Commit(old(State()), t) &&
        (if t.Ok? then r == Ok(t.value.1) else r == Err(t.error))
    {
      var s0 := State();  // snapshot for rollback
      var up: UserPermissions;
      var loaded := policiesLoaded;
      if existing.None? {
        up := UserPermissions(subject, [], []);
        perms := perms[subject := up];
        loaded := true;
      } else {
        up := existing.value;
      }
      var p: Policy;
      if policy.None? {
        if resource.None? || action.None? {
          Restore(s0);
          return Err(StoreFailure);
        }
        p := CreatePolicy(resource.value, action.value);
      } else {
        p := policy.value;
      }
      if !loaded || |up.policies| == 0 {
        up := up.(policies := [p]);
      }
      perms := perms[subject := up];
      denorm := denorm + [Row(subject, PolicyMapKey(p), None)];
      return Ok(up);
    }

    /** executeSQL of removeRole. */
    method SqlRemoveRole(role: Role) returns (r: Result<bool>)
      modifies this
      ensures State() == Transactions.SqlRemoveRole(old(State()), role) && r == Ok(true)
    {
      perms := StripRole(perms, role.id);
      denorm := DeleteWhere(denorm, Where(None, None, RoleNamed(role.name)));
      roles := roles - {role.id};
      return Ok(true);
    }

    /** executeSQL of removePolicyFromRole. */
    method SqlRemovePolicyFromRole(role: Role, policy: Policy) returns (r: Result<bool>)
      modifies this
      ensures State() == Transactions.SqlRemovePolicyFromRole(old(State()), role, policy) && r == Ok(true)
    {
      if role.id in roles {
        roles := roles[role.id := roles[role.id].(policies := WithoutPolicy(roles[role.id].policies, policy.id))];
      }
      denorm := DeleteWhere(denorm, Where(None, Some(PolicyMapKey(policy)), RoleNamed(role.name)));
      return Ok(true);
    }

    /** executeSQL of removePolicyFromUser: the join entry, then the rows. */
    method SqlRemovePolicyFromUser(subject: string, policy: Policy) returns (r: Result<bool>)
      modifies this
      ensures var t := Transactions.RemovePolicyFromUser(old(State()), subject, policy);
        State() == Commit(old(State()), if t.Ok? then Ok((t.value, true)) else Err(t.error)) &&
        (if t.Ok? then r == Ok(true) else r == Err(t.error))
    {
      if subject !in perms {
        return Err(NullReference);
      }
      perms := perms[subject := perms[subject].(policies := WithoutPolicy(perms[subject].policies, policy.id))];
      denorm := DeleteWhere(denorm, Where(Some(subject), Some(PolicyMapKey(policy)), AnyRole));
      return Ok(true);
    }

    /** executeSQL of removeRoleFromUser: the join entry, then the rows. */
    method SqlRemoveRoleFromUser(subject: string, role: Role) returns (r: Result<bool>)
      modifies this
      ensures var t := Transactions.RemoveRoleFromUser(old(State()), subject, role);
        State() == Commit(old(State()), if t.Ok? then Ok((t.value, true)) else Err(t.error)) &&
        (if t.Ok? then r == Ok(true) else r == Err(t.error))
    {
      if subject !in perms {
        return Err(NullReference);
      }
      perms := perms[subject := perms[subject].(roles := WithoutId(perms[subject].roles, role.id))];
      denorm := DeleteWhere(denorm, Where(Some(subject), None, RoleNamed(role.name)));
      return Ok(true);
    }

    /** executeSQL of removeUser; `deleteUser` defaults to false. */
    method SqlRemoveUser(subject: string, user: User, deleteUser: bool := false) returns (r: Result<bool>)
      modifies this
      ensures State() == Transactions.RemoveUser(old(State()), subject, user, deleteUser) && r == Ok(true)
    {
      perms := perms - {subject};
      denorm := DeleteWhere(denorm, Where(Some(subject), None, AnyRole));
      if deleteUser {
        users := users - {user.id};
      }
      return Ok(true);
    }

    // --------------------------------------------------------- Mongo bodies

    /** executeMongo of addRoleToUser: rows saved in chunks of 1000. */
    method MongoAddRoleToUser(subject: string, role: Role, policies: seq<Policy>) returns (r: Result<bool>)
      modifies this
      ensures State() == Transactions.MongoAddRoleToUser(old(State()), subject, role, policies) && r == Ok(true)
    {
      var up := if subject in perms then perms[subject] else UserPermissions(subject, [], []);
      up := up.(roles := up.roles + [role.id]);
      perms := perms[subject := up];
      var rows: seq<Row> := [];
      var j := 0;
      while j < |policies|
        invariant 0 <= j <= |policies|
        invariant rows == RoleRows(subject, policies[..j], role.name)
      {
        rows := rows + [Row(subject, PolicyMapKey(policies[j]), Some(role.name))];
        j := j + 1;
      }
      assert policies[..j] == policies;
      InsertInChunks(rows, 1000);
      return Ok(true);
    }

    /** executeMongo of addPolicyToRole: a repeated policy is only logged;
        the role's holders are made distinct with a Set and their rows are
        inserted in chunks of 1000. */
    method MongoAddPolicyToRole(resource: Option<string>, action: Option<string>, policy: Option<Policy>, role: Role)
      returns (r: Result<(Role, Policy)>)
      modifies this
      ensures var t := Transactions.MongoAddPolicyToRole(old(State()), resource, action, policy, role);
        State() == t.0 && r == Ok(t.1)
    {
      var p: Policy;
      if policy.None? {
        p := CreatePolicy(JsText(resource), JsText(action));
      } else {
        p := policy.value;
      }
      var role' := role.(policies := role.policies + [p]);
      roles := roles[role.id := role'];
      var subjects := SubjectsWithRole(denorm, role.name);
      var holders := DistinctSubjects(subjects);
      var toInsert := FanOut(holders, PolicyMapKey(p), role.name);
      InsertInChunks(toInsert, 1000);
      return Ok((role', p));
    }

    /** executeMongo of addPolicyToUser. */
    method MongoAddPolicyToUser(subject: string, policy: Option<Policy>, resource: Option<string>, action: Option<string>,
                                existing: Option<UserPermissions>)
      returns (r: Result<UserPermissions>)
      modifies this
      ensures var t := Transactions.MongoAddPolicyToUser(old(State()), subject, policy, existing);
        State() == Commit(old(State()), t) &&
        (if t.Ok? then r == Ok(t.value.1) else r == Err(t.error))
    {
      var s0 := State();  // snapshot for rollback
      if policy.None? {
        // the policy is saved but never assigned, so its key is taken of
        // an absent value and the body fails
        var created := CreatePolicy(JsText(resource), JsText(action));
        Restore(s0);
        return Err(InternalServerError);
      }
      var up: UserPermissions;
      if existing.None? {
        up := UserPermissions(subject, [], []);
        perms := perms[subject := up];
      } else {
        up := existing.value;
      }
      denorm := denorm + [Row(subject, PolicyMapKey(policy.value), None)];
      return Ok(up);
    }

    /** executeMongo of removeRole: the holders' records are stripped and
        saved in chunks of 10000, then the role's rows are deleted; the role
        record itself is kept. */
    method MongoRemoveRole(role: Role) returns (r: Result<bool>)
      modifies this
      ensures State() == Transactions.MongoRemoveRole(old(State()), role) && r == Ok(true)
    {
      ghost var s0 := State();
      // the aggregate query: every record holding the role, in no set order
      var pending := set s | s in perms && role.id in perms[s].roles;
      var found: seq<string> := [];
      while pending != {}
        invariant forall s :: s in found || s in pending <==> s in perms && role.id in perms[s].roles
        invariant State() == s0
        decreases |pending|
      {
        var s :| s in pending;
        found := found + [s];
        pending := pending - {s};
      }
      var recs := StrippedRecords(perms, found, role.id);
      SaveInChunks(recs, 10000);
      SaveStripped(s0.perms, found, role.id);
      denorm := DeleteWhere(denorm, Where(None, None, RoleNamed(role.name)));
      return Ok(true);
    }

    /** executeMongo of removePolicyFromRole as written, with ids compared by value. */
    method MongoRemovePolicyFromRole(role: Role, policy: Policy) returns (r: Result<bool>)
      modifies this
      ensures State() == Transactions.MongoRemovePolicyFromRole(old(State()), role, policy) && r == Ok(true)
    {
      var role' := role.(policies := WithoutPolicy(role.policies, policy.id));
      roles := roles[role.id := role'];
      denorm := DeleteWhere(denorm, Where(None, None, RoleNamed(role.name)));
      return Ok(true);
    }

    /** executeMongo of removePolicyFromUser: filter, save, delete rows. */
    method MongoRemovePolicyFromUser(subject: string, policy: Policy) returns (r: Result<bool>)
      modifies this
      ensures var t := Transactions.RemovePolicyFromUser(old(State()), subject, policy);
        State() == Commit(old(State()), if t.Ok? then Ok((t.value, true)) else Err(t.error)) &&
        (if t.Ok? then r == Ok(true) else r == Err(t.error))
    {
      if subject !in perms {
        return Err(NullReference);
      }
      var up := perms[subject];
      up := up.(policies := WithoutPolicy(up.policies, policy.id));
      perms := perms[subject := up];
      denorm := DeleteWhere(denorm, Where(Some(subject), Some(PolicyMapKey(policy)), AnyRole));
      return Ok(true);
    }

    /** executeMongo of removeRoleFromUser: filter, save, delete rows. */
    method MongoRemoveRoleFromUser(subject: string, role: Role) returns (r: Result<bool>)
      modifies this
      ensures var t := Transactions.RemoveRoleFromUser(old(State()), subject, role);
        State() == Commit(old(State()), if t.Ok? then Ok((t.value, true)) else Err(t.error)) &&
        (if t.Ok? then r == Ok(true) else r == Err(t.error))
    {
      if subject !in perms {
        return Err(NullReference);
      }
      var up := perms[subject];
      up := up.(roles := WithoutId(up.roles, role.id));
      perms := perms[subject := up];
      denorm := DeleteWhere(denorm, Where(Some(subject), None, RoleNamed(role.name)));
      return Ok(true);
    }

    /** executeMongo of removeUser. */
    method MongoRemoveUser(subject: string, user: User, deleteUser: bool := false) returns (r: Result<bool>)
      modifies this
      ensures State() == Transactions.RemoveUser(old(State()), subject, user, deleteUser) && r == Ok(true)
    {
      perms := perms - {subject};
      denorm := DeleteWhere(denorm, Where(Some(subject), None, AnyRole));
      if deleteUser {
        users := users - {user.id};
      }
      return Ok(true);
    }

    // ------------------------------------------------ older `execute` bodies

    /** The older addPolicyToRole execute takes the SQL steps. */
    method LegacyAddPolicyToRole(resource: Option<string>, action: Option<string>, policy: Option<Policy>, role: Role)
      returns (r: Result<(Role, Policy)>)
      modifies this
      ensures var t := Transactions.SqlAddPolicyToRole(old(State()), resource, action, policy, role);
        State() == Commit(old(State()), t) &&
        (if t.Ok? then r == Ok(t.value.1) else r == Err(t.error))
    {
      r := SqlAddPolicyToRole(resource, action, policy, role);
    }

    /** The older removePolicyFromUser execute takes the SQL steps. */
    method LegacyRemovePolicyFromUser(subject: string, policy: Policy) returns (r: Result<bool>)
      modifies this
      ensures var t := Transactions.RemovePolicyFromUser(old(State()), subject, policy);
        State() == Commit(old(State()), if t.Ok? then Ok((t.value, true)) else Err(t.error)) &&
        (if t.Ok? then r == Ok(true) else r == Err(t.error))
    {
      r := SqlRemovePolicyFromUser(subject, policy);
    }

    /** The older removeRoleFromUser execute takes the SQL steps. */
    method LegacyRemoveRoleFromUser(subject: string, role: Role) returns (r: Result<bool>)
      modifies this
      ensures var t := Transactions.RemoveRoleFromUser(old(State()), subject, role);
        State() == Commit(old(State()), if t.Ok? then Ok((t.value, true)) else Err(t.error)) &&
        (if t.Ok? then r == Ok(true) else r == Err(t.error))
    {
      r := SqlRemoveRoleFromUser(subject, role);
    }

    /** The older removeUser execute takes the SQL steps. */
    method LegacyRemoveUser(subject: string, user: User, deleteUser: bool := false) returns (r: Result<bool>)
      modifies this
      ensures State() == Transactions.RemoveUser(old(State()), subject, user, deleteUser) && r == Ok(true)
    {
      r := SqlRemoveUser(subject, user, deleteUser);
    }
  }
}
