// What each consistency transaction does to the store, one function per
// transaction body. Bodies that act alike on SQL and Mongo share one
// function; the others come in a Sql and a Mongo version. A body that fails
// returns Err; the caller then keeps the state it started from (Commit).

module Transactions {
  import opened Model
  import opened PolicyKey
  import opened Rows

  /** The text a JavaScript template literal gives for an optional value. */
  function JsText(o: Option<string>): string
  {
    if o.Some? then o.value else "undefined"
  }

  /** Every UserPermissions record with `rid` taken out of its roles. */
  function StripRole(perms: map<string, UserPermissions>, rid: nat): (r: map<string, UserPermissions>)
    ensures r.Keys == perms.Keys
    ensures forall s :: s in perms ==> r[s] == perms[s].(roles := WithoutId(perms[s].roles, rid))
  {
    map s | s in perms :: perms[s].(roles := WithoutId(perms[s].roles, rid))
  }

  // ---------------------------------------------------------------- removeUser

  /** removeUser (SQL, Mongo and the older copy alike): delete the subject's
      UserPermissions record and every index row of the subject, and the
      user record too when `deleteUser` is set. */
  function RemoveUser(st: State, subject: string, user: User, deleteUser: bool): State
  {
    st.(perms := st.perms - {subject},
        denorm := DeleteWhere(st.denorm, Where(Some(subject), None, AnyRole)),
        users := if deleteUser then st.users - {user.id} else st.users)
  }

  lemma RemoveUserEffect(st: State, subject: string, user: User, deleteUser: bool)
    ensures var r := RemoveUser(st, subject, user, deleteUser);
      subject !in r.perms &&
      (forall s :: s != subject ==> (s in r.perms <==> s in st.perms)) &&
      (forall x :: multiset(r.denorm)[x] == if x.subject == subject then 0 else multiset(st.denorm)[x]) &&
      (deleteUser ==> user.id !in r.users) && (!deleteUser ==> r.users == st.users) &&
      r.roles == st.roles && r.policies == st.policies
  {
    DeleteWhereCounts(st.denorm, Where(Some(subject), None, AnyRole));
  }

  // ------------------------------------------------------- removeRoleFromUser

  /** removeRoleFromUser (all three bodies): drop the role from the subject's
      record and delete the subject's rows granted through that role. */
  function RemoveRoleFromUser(st: State, subject: string, role: Role): Result<State>
  {
    if subject !in st.perms then Err(NullReference)
    else
      var up := st.perms[subject];
      Ok(st.(perms := st.perms[subject := up.(roles := WithoutId(up.roles, role.id))],
             denorm := DeleteWhere(st.denorm, Where(Some(subject), None, RoleNamed(role.name)))))
  }

  lemma RemoveRoleFromUserEffect(st: State, subject: string, role: Role)
    requires subject in st.perms
    ensures var r := RemoveRoleFromUser(st, subject, role);
      r.Ok? &&
      (forall id :: id in r.value.perms[subject].roles <==> id in st.perms[subject].roles && id != role.id) &&
      r.value.perms[subject].policies == st.perms[subject].policies &&
      (forall s :: s != subject && s in st.perms ==> s in r.value.perms && r.value.perms[s] == st.perms[s]) &&
      (forall x :: multiset(r.value.denorm)[x] ==
         if x.subject == subject && x.roleKey == Some(role.name) then 0 else multiset(st.denorm)[x])
  {
    DeleteWhereCounts(st.denorm, Where(Some(subject), None, RoleNamed(role.name)));
  }

  // ----------------------------------------------------- removePolicyFromUser

  /** removePolicyFromUser (all three bodies): drop the policy from the
      subject's direct list, then delete every row of the subject with the
      policy's key, whatever role granted it. */
  function RemovePolicyFromUser(st: State, subject: string, policy: Policy): Result<State>
  {
    if subject !in st.perms then Err(NullReference)
    else
      var up := st.perms[subject];
      Ok(st.(perms := st.perms[subject := up.(policies := WithoutPolicy(up.policies, policy.id))],
             denorm := DeleteWhere(st.denorm, Where(Some(subject), Some(PolicyMapKey(policy)), AnyRole))))
  }

  /** The same removal restricted to the rows of the direct attachment. */
  function RemoveDirectPolicyFromUser(st: State, subject: string, policy: Policy): Result<State>
  {
    if subject !in st.perms then Err(NullReference)
    else
      var up := st.perms[subject];
      Ok(st.(perms := st.perms[subject := up.(policies := WithoutPolicy(up.policies, policy.id))],
             denorm := DeleteWhere(st.denorm, Where(Some(subject), Some(PolicyMapKey(policy)), NoRole))))
  }

  /** The bodies as written delete the role-granted copies of the key too. */
  lemma RemovePolicyFromUserDropsRoleRows(st: State, subject: string, policy: Policy, roleName: string)
    requires subject in st.perms
    requires Row(subject, PolicyMapKey(policy), Some(roleName)) in st.denorm
    ensures Row(subject, PolicyMapKey(policy), Some(roleName)) !in RemovePolicyFromUser(st, subject, policy).value.denorm
    ensures Row(subject, PolicyMapKey(policy), Some(roleName)) in RemoveDirectPolicyFromUser(st, subject, policy).value.denorm
  {
    DeleteWhereMembers(st.denorm, Where(Some(subject), Some(PolicyMapKey(policy)), AnyRole));
    DeleteWhereMembers(st.denorm, Where(Some(subject), Some(PolicyMapKey(policy)), NoRole));
  }

  // ------------------------------------------------------------ addRoleToUser

  /** SQL addRoleToUser. `fetchOk` is false when the initial parallel fetch
      failed: that error is only logged, the record and the role's policies
      are then treated as absent, and a fresh record is saved. */
  function SqlAddRoleToUser(st: State, subject: string, role: Role, fetchOk: bool): Result<State>
  {
    var up := if fetchOk && subject in st.perms then st.perms[subject] else UserPermissions(subject, [], []);
    if role.id in up.roles then Err(RoleAlreadyExistsOnUser)
    else
      var rows := if fetchOk && role.id in st.roles then RoleRows(subject, st.roles[role.id].policies, role.name) else [];
      Ok(st.(perms := st.perms[subject := up.(roles := up.roles + [role.id])],
             denorm := st.denorm + rows))
  }

  /** Mongo addRoleToUser: no duplicate check; the rows come from the
      policies the caller passes. */
  function MongoAddRoleToUser(st: State, subject: string, role: Role, policies: seq<Policy>): State
  {
    var up := if subject in st.perms then st.perms[subject] else UserPermissions(subject, [], []);
    st.(perms := st.perms[subject := up.(roles := up.roles + [role.id])],
        denorm := st.denorm + RoleRows(subject, policies, role.name))
  }

  /** With a successful fetch the SQL body fails exactly when the subject
      already holds the role, and otherwise adds one row per policy of the
      stored role and removes nothing. */
  lemma SqlAddRoleToUserEffect(st: State, subject: string, role: Role)
    requires role.id in st.roles
    ensures var r := SqlAddRoleToUser(st, subject, role, true);
      (r.Err? <==> subject in st.perms && role.id in st.perms[subject].roles) &&
      (r.Ok? ==>
         role.id in r.value.perms[subject].roles &&
         multiset(r.value.denorm) == multiset(st.denorm) + multiset(RoleRows(subject, st.roles[role.id].policies, role.name)) &&
         forall p :: p in st.roles[role.id].policies ==> Row(subject, PolicyMapKey(p), Some(role.name)) in r.value.denorm)
  {
    var r := SqlAddRoleToUser(st, subject, role, true);
    if r.Ok? {
      var rows := RoleRows(subject, st.roles[role.id].policies, role.name);
      forall p | p in st.roles[role.id].policies
        ensures Row(subject, PolicyMapKey(p), Some(role.name)) in r.value.denorm
      {
        var i :| 0 <= i < |st.roles[role.id].policies| && st.roles[role.id].policies[i] == p;
        assert rows[i] == Row(subject, PolicyMapKey(p), Some(role.name));
        assert r.value.denorm[|st.denorm| + i] == rows[i];
      }
    }
  }

  /** When the fetch fails the SQL body still records the role but inserts
      no row for it. */
  lemma SqlAddRoleToUserFetchFailure(st: State, subject: string, role: Role)
    ensures var r := SqlAddRoleToUser(st, subject, role, false);
      r.Ok? && r.value.perms[subject].roles == [role.id] && r.value.denorm == st.denorm
  {
  }

  /** Mongo adds the role id again when the subject already holds it. */
  lemma MongoAddRoleToUserRepeats(st: State, subject: string, role: Role, policies: seq<Policy>)
    requires subject in st.perms && role.id in st.perms[subject].roles
    ensures var r := MongoAddRoleToUser(st, subject, role, policies);
      r.perms[subject].roles == st.perms[subject].roles + [role.id] &&
      |r.denorm| == |st.denorm| + |policies|
  {
  }

  // ---------------------------------------------------------- addPolicyToRole

  /** SQL addPolicyToRole (and the older copy): create the policy when none
      is given, refuse a policy the role already has, append it, and give it
      to every distinct subject that already has a row of the role. */
  function SqlAddPolicyToRole(st: State, resource: Option<string>, action: Option<string>,
                              policy: Option<Policy>, role: Role): Result<(State, (Role, Policy))>
  {
    if policy.None? && (resource.None? || action.None?) then Err(StoreFailure)
    else
      var (st1, p) := if policy.Some? then (st, policy.value) else NewPolicy(st, resource.value, action.value);
      if p.id in Ids(role.policies) then Err(PolicyAlreadyAttachedOnRole)
      else Ok(AttachToRole(st1, p, role))
  }

  /** The part both addPolicyToRole bodies share: append the policy to the
      role, save it, and give the policy to every distinct subject that has
      a row of the role. */
  function AttachToRole(st: State, p: Policy, role: Role): (State, (Role, Policy))
  {
    var role' := role.(policies := role.policies + [p]);
    var holders := Dedup(SubjectsWithRole(st.denorm, role.name));
    (st.(roles := st.roles[role.id := role'],
         denorm := st.denorm + FanOutRows(holders, PolicyMapKey(p), role.name)),
     (role', p))
  }

  /** Mongo addPolicyToRole: a policy the role already has is only logged
      and appended again; a created policy takes whatever fields were given. */
  function MongoAddPolicyToRole(st: State, resource: Option<string>, action: Option<string>,
                                policy: Option<Policy>, role: Role): (State, (Role, Policy))
  {
    var (st1, p) := if policy.Some? then (st, policy.value) else NewPolicy(st, JsText(resource), JsText(action));
    AttachToRole(st1, p, role)
  }

  /** The SQL fan-out adds exactly one row per distinct subject that had a
      row of the role, each with the new policy's key and the role's name. */
  lemma SqlAddPolicyToRoleFanOut(st: State, p: Policy, role: Role)
    requires p.id !in Ids(role.policies)
    ensures var r := SqlAddPolicyToRole(st, None, None, Some(p), role);
      r.Ok? &&
      var added := r.value.0.denorm[|st.denorm|..];
      r.value.0.denorm[..|st.denorm|] == st.denorm &&
      (forall x :: x in added ==> x.policyMapKey == PolicyMapKey(p) && x.roleKey == Some(role.name)) &&
      (forall s :: Row(s, PolicyMapKey(p), Some(role.name)) in added <==>
         exists i :: 0 <= i < |st.denorm| && st.denorm[i].subject == s && st.denorm[i].roleKey == Some(role.name)) &&
      Distinct(added) &&
      r.value.0.roles[role.id].policies == role.policies + [p]
  {
    var r := SqlAddPolicyToRole(st, None, None, Some(p), role);
    var subjects := SubjectsWithRole(st.denorm, role.name);
    var holders := Dedup(subjects);
    DedupSpec(subjects);
    var added := r.value.0.denorm[|st.denorm|..];
    assert added == FanOutRows(holders, PolicyMapKey(p), role.name);
    forall s | Row(s, PolicyMapKey(p), Some(role.name)) in added
      ensures s in holders
    {
      var i :| 0 <= i < |added| && added[i] == Row(s, PolicyMapKey(p), Some(role.name));
      assert holders[i] == s;
    }
    forall s | s in holders
      ensures Row(s, PolicyMapKey(p), Some(role.name)) in added
    {
      var i :| 0 <= i < |holders| && holders[i] == s;
      assert added[i] == Row(s, PolicyMapKey(p), Some(role.name));
    }
  }

  /** A policy the role already has is refused by the SQL body and appended
      a second time by the Mongo body. */
  lemma AddPolicyToRoleDuplicate(st: State, p: Policy, role: Role)
    requires p in role.policies
    ensures SqlAddPolicyToRole(st, None, None, Some(p), role) == Err(PolicyAlreadyAttachedOnRole)
    ensures multiset(MongoAddPolicyToRole(st, None, None, Some(p), role).1.0.policies)[p] ==
            multiset(role.policies)[p] + 1
  {
    var i :| 0 <= i < |role.policies| && role.policies[i] == p;
    assert Ids(role.policies)[i] == p.id;
  }

  // ---------------------------------------------------------- addPolicyToUser

  /** SQL addPolicyToUser. `existing` is the record the caller looked up and
      `policiesLoaded` says whether its policy list was loaded with it; an
      unloaded or empty list is replaced by [policy], a loaded non-empty one
      is saved unchanged. The direct row is inserted in every case. */
  function SqlAddPolicyToUser(st: State, subject: string, policy: Option<Policy>,
                              resource: Option<string>, action: Option<string>,
                              existing: Option<UserPermissions>, policiesLoaded: bool): Result<(State, UserPermissions)>
  {
    var up := if existing.Some? then existing.value else UserPermissions(subject, [], []);
    var loaded := existing.None? || policiesLoaded;
    if policy.None? && (resource.None? || action.None?) then Err(StoreFailure)
    else
      var (st1, p) := if policy.Some? then (st, policy.value) else NewPolicy(st, resource.value, action.value);
      var up' := up.(policies := if !loaded || |up.policies| == 0 then [p] else up.policies);
      Ok((st1.(perms := st1.perms[subject := up'],
               denorm := st1.denorm + [Row(subject, PolicyMapKey(p), None)]),
          up'))
  }

  /** addPolicyToUser as intended: the policy is appended to the subject's
      direct list. */
  function AddDirectPolicyToUser(st: State, subject: string, policy: Option<Policy>,
                                 resource: Option<string>, action: Option<string>,
                                 existing: Option<UserPermissions>): Result<(State, UserPermissions)>
  {
    var up := if existing.Some? then existing.value else UserPermissions(subject, [], []);
    if policy.None? && (resource.None? || action.None?) then Err(StoreFailure)
    else
      var (st1, p) := if policy.Some? then (st, policy.value) else NewPolicy(st, resource.value, action.value);
      var up' := up.(policies := up.policies + [p]);
      Ok((st1.(perms := st1.perms[subject := up'],
               denorm := st1.denorm + [Row(subject, PolicyMapKey(p), None)]),
          up'))
  }

  /** Mongo addPolicyToUser: inserts the direct row but never records the
      policy on the subject's record. A policy it has to create is saved and
      then dereferenced as absent, which fails. */
  function MongoAddPolicyToUser(st: State, subject: string, policy: Option<Policy>,
                                existing: Option<UserPermissions>): Result<(State, UserPermissions)>
  {
    if policy.None? then Err(InternalServerError)
    else
      var up := if existing.Some? then existing.value else UserPermissions(subject, [], []);
      var perms := if existing.Some? then st.perms else st.perms[subject := up];
      Ok((st.(perms := perms, denorm := st.denorm + [Row(subject, PolicyMapKey(policy.value), None)]), up))
  }

  /** The Mongo body leaves an existing record exactly as it was. */
  lemma MongoAddPolicyToUserKeepsRecord(st: State, subject: string, p: Policy)
    requires subject in st.perms
    ensures var r := MongoAddPolicyToUser(st, subject, Some(p), Some(st.perms[subject]));
      r.Ok? && r.value.0.perms == st.perms &&
      r.value.0.denorm == st.denorm + [Row(subject, PolicyMapKey(p), None)]
  {
  }

  // --------------------------------------------------------------- removeRole

  /** SQL removeRole: drop the role from every record, delete every row of
      the role and delete the role record. */
  function SqlRemoveRole(st: State, role: Role): State
  {
    st.(perms := StripRole(st.perms, role.id),
        denorm := DeleteWhere(st.denorm, Where(None, None, RoleNamed(role.name))),
        roles := st.roles - {role.id})
  }

  /** Mongo removeRole: the same, except that the role record stays. */
  function MongoRemoveRole(st: State, role: Role): State
  {
    st.(perms := StripRole(st.perms, role.id),
        denorm := DeleteWhere(st.denorm, Where(None, None, RoleNamed(role.name))))
  }

  lemma RemoveRoleEffect(st: State, role: Role)
    ensures var r := SqlRemoveRole(st, role);
      (forall s :: s in r.perms ==> role.id !in r.perms[s].roles) &&
      (forall x :: multiset(r.denorm)[x] == if x.roleKey == Some(role.name) then 0 else multiset(st.denorm)[x]) &&
      role.id !in r.roles &&
      MongoRemoveRole(st, role) == r.(roles := st.roles)
  {
    DeleteWhereCounts(st.denorm, Where(None, None, RoleNamed(role.name)));
  }

  // ----------------------------------------------------- removePolicyFromRole

  /** SQL removePolicyFromRole: drop the policy from the stored role and
      delete the rows of that role with that policy's key. */
  function SqlRemovePolicyFromRole(st: State, role: Role, policy: Policy): State
  {
    st.(roles := if role.id in st.roles
                 then st.roles[role.id := st.roles[role.id].(policies := WithoutPolicy(st.roles[role.id].policies, policy.id))]
                 else st.roles,
        denorm := DeleteWhere(st.denorm, Where(None, Some(PolicyMapKey(policy)), RoleNamed(role.name))))
  }

  /** Mongo removePolicyFromRole as written, with ids compared by value:
      saves the role without the policy and deletes every row of the role,
      whatever its key. */
  function MongoRemovePolicyFromRole(st: State, role: Role, policy: Policy): State
  {
    st.(roles := st.roles[role.id := role.(policies := WithoutPolicy(role.policies, policy.id))],
        denorm := DeleteWhere(st.denorm, Where(None, None, RoleNamed(role.name))))
  }

  /** Mongo removePolicyFromRole as intended: only the rows with the
      policy's key go. */
  function MongoRemovePolicyFromRoleByKey(st: State, role: Role, policy: Policy): State
  {
    st.(roles := st.roles[role.id := role.(policies := WithoutPolicy(role.policies, policy.id))],
        denorm := DeleteWhere(st.denorm, Where(None, Some(PolicyMapKey(policy)), RoleNamed(role.name))))
  }

  lemma RemovePolicyFromRoleEffect(st: State, role: Role, policy: Policy)
    requires role.id in st.roles && st.roles[role.id] == role
    ensures var r := SqlRemovePolicyFromRole(st, role, policy);
      (forall p :: p in r.roles[role.id].policies <==> p in role.policies && p.id != policy.id) &&
      (forall x :: multiset(r.denorm)[x] ==
         if x.policyMapKey == PolicyMapKey(policy) && x.roleKey == Some(role.name) then 0 else multiset(st.denorm)[x]) &&
      MongoRemovePolicyFromRoleByKey(st, role, policy) == r
  {
    DeleteWhereCounts(st.denorm, Where(None, Some(PolicyMapKey(policy)), RoleNamed(role.name)));
  }

  /** The Mongo body as written also deletes rows of the role's other
      policies. */
  lemma MongoRemovePolicyFromRoleOverDeletes(st: State, role: Role, policy: Policy, x: Row)
    requires x in st.denorm && x.roleKey == Some(role.name) && x.policyMapKey != PolicyMapKey(policy)
    ensures x !in MongoRemovePolicyFromRole(st, role, policy).denorm
    ensures x in MongoRemovePolicyFromRoleByKey(st, role, policy).denorm
  {
    DeleteWhereMembers(st.denorm, Where(None, None, RoleNamed(role.name)));
    DeleteWhereMembers(st.denorm, Where(None, Some(PolicyMapKey(policy)), RoleNamed(role.name)));
  }

  // ---------------------------------------------------------------- round trip

  lemma DeleteWhereAppend(a: seq<Row>, b: seq<Row>, w: Where)
    ensures DeleteWhere(a + b, w) == DeleteWhere(a, w) + DeleteWhere(b, w)
  {
    if a == [] {
      assert a + b == b;
    } else {
      assert (a + b)[1..] == a[1..] + b;
      DeleteWhereAppend(a[1..], b, w);
    }
  }

  lemma {:induction false} DeleteWhereNone(rows: seq<Row>, w: Where)
    requires forall x :: x in rows ==> !Matches(x, w)
    ensures DeleteWhere(rows, w) == rows
  {
    if rows != [] {
      DeleteWhereNone(rows[1..], w);
    }
  }

  lemma {:induction false} DeleteWhereAll(rows: seq<Row>, w: Where)
    requires forall x :: x in rows ==> Matches(x, w)
    ensures DeleteWhere(rows, w) == []
  {
    if rows != [] {
      DeleteWhereAll(rows[1..], w);
    }
  }

  lemma {:induction false} WithoutPolicyAppend(ps: seq<Policy>, p: Policy)
    requires p.id !in Ids(ps)
    ensures WithoutPolicy(ps + [p], p.id) == ps
  {
    if ps == [] {
      assert WithoutPolicy([p], p.id) == [] + WithoutPolicy([], p.id);
    } else {
      assert p.id != Ids(ps)[0];
      assert (ps + [p])[1..] == ps[1..] + [p];
      assert forall i :: 0 <= i < |ps[1..]| ==> Ids(ps[1..])[i] == Ids(ps)[i + 1];
      WithoutPolicyAppend(ps[1..], p);
    }
  }

  /** Attaching a new policy to a stored role with SQL and detaching it again
      gives the role back its policy list and removes exactly the rows the
      attachment added, provided the index had no row of that role and key. */
  lemma AttachDetachPolicyRoundTrip(st: State, p: Policy, role: Role)
    requires role.id in st.roles && st.roles[role.id] == role
    requires p.id !in Ids(role.policies)
    requires forall x :: x in st.denorm ==> !(x.policyMapKey == PolicyMapKey(p) && x.roleKey == Some(role.name))
    ensures var a := SqlAddPolicyToRole(st, None, None, Some(p), role);
      a.Ok? &&
      var d := SqlRemovePolicyFromRole(a.value.0, a.value.1.0, p);
      d.denorm == st.denorm && d.roles == st.roles
  {
    var a := SqlAddPolicyToRole(st, None, None, Some(p), role);
    var w := Where(None, Some(PolicyMapKey(p)), RoleNamed(role.name));
    var holders := Dedup(SubjectsWithRole(st.denorm, role.name));
    var added := FanOutRows(holders, PolicyMapKey(p), role.name);
    var role' := role.(policies := role.policies + [p]);
    assert a == Ok(AttachToRole(st, p, role));
    var t := a.value.0;
    assert t.denorm == st.denorm + added && t.roles == st.roles[role.id := role'] && a.value.1.0 == role';
    // the index: the old rows have none of the key's role rows, the added all
    DeleteWhereAppend(st.denorm, added, w);
    DeleteWhereNone(st.denorm, w);
    DeleteWhereAll(added, w);
    assert DeleteWhere(t.denorm, w) == st.denorm;
    // the role: removing the appended policy restores its list
    WithoutPolicyAppend(role.policies, p);
    assert t.roles[role.id := t.roles[role.id].(policies := WithoutPolicy(role'.policies, p.id))] == st.roles;
  }
}
