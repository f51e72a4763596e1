// The permission index is meant to be derivable from the grant graph: a row
// (subject, key, None) for each policy the subject holds directly, and a row
// (subject, key, role name) for each policy of each role it holds. This
// module states that relation, shows that under it the access check
// answers from the graph, proves which transactions keep it, and exhibits
// how the ones that diverge break it.

module Consistency {
  import opened Model
  import opened PolicyKey
  import opened Rows
  import opened Queries
  import Transactions
  import AbacRules
  import MongoRules

  /** Some policy of `ps` encodes to `key`. */
  ghost predicate HasKey(ps: seq<Policy>, key: string)
  {
    exists p :: p in ps && PolicyMapKey(p) == key
  }

  /** The subject holds a role with this name that has a policy with `key`. */
  ghost predicate ViaRole(st: State, subject: string, name: string, key: string)
  {
    subject in st.perms &&
    exists rid :: rid in st.perms[subject].roles && rid in st.roles && st.roles[rid].name == name &&
                  HasKey(st.roles[rid].policies, key)
  }

  /** The graph accounts for the row. */
  ghost predicate Derivable(st: State, x: Row)
  {
    match x.roleKey
    case None => x.subject in st.perms && HasKey(st.perms[x.subject].policies, x.policyMapKey)
    case Some(name) => ViaRole(st, x.subject, name, x.policyMapKey)
  }

  /** Every row of the index is accounted for by the graph. */
  ghost predicate Sound(st: State)
  {
    forall x :: x in st.denorm ==> Derivable(st, x)
  }

  /** Every row the graph accounts for is in the index. */
  ghost predicate Complete(st: State)
  {
    forall x :: Derivable(st, x) ==> x in st.denorm
  }

  ghost predicate Consistent(st: State)
  {
    Sound(st) && Complete(st)
  }

  /** Role names identify roles, as createRole's duplicate check intends. */
  ghost predicate UniqueRoleNames(st: State)
  {
    forall a, b :: a in st.roles && b in st.roles && st.roles[a].name == st.roles[b].name ==> a == b
  }

  /** The graph grants `key` to `subject`, directly or through a role. */
  ghost predicate Grants(st: State, subject: string, key: string)
  {
    subject in st.perms &&
    (HasKey(st.perms[subject].policies, key) ||
     exists rid :: rid in st.perms[subject].roles && rid in st.roles && HasKey(st.roles[rid].policies, key))
  }

  // ------------------------------------------------------------ access check

  /** In a consistent state the index has a row of the subject with a key
      exactly when the graph grants the key. */
  lemma HasRowIffGrants(st: State, subject: string, key: string)
    requires Consistent(st)
    ensures HasRow(st.denorm, subject, key) <==> Grants(st, subject, key)
  {
    if HasRow(st.denorm, subject, key) {
      var x :| x in st.denorm && x.subject == subject && x.policyMapKey == key;
      assert Derivable(st, x);
    }
    if Grants(st, subject, key) {
      if HasKey(st.perms[subject].policies, key) {
        assert Derivable(st, Row(subject, key, None));
      } else {
        var rid :| rid in st.perms[subject].roles && rid in st.roles && HasKey(st.roles[rid].policies, key);
        assert Derivable(st, Row(subject, key, Some(st.roles[rid].name)));
      }
    }
  }

  /** In a consistent state checkUserAccess answers from the graph: access
      is granted exactly when the graph grants every requested pair. */
  lemma AccessMatchesGraph(st: State, subject: string, permissions: seq<Permission>)
    requires Consistent(st) && subject != ""
    ensures AbacRules.CheckUserAccess(st, subject, None, permissions) ==
            Ok(forall p :: p in permissions ==> Grants(st, subject, PermissionKey(p)))
  {
    AbacRules.CheckUserAccessMeaning(st, subject, None, permissions);
    forall p | p in permissions
      ensures HasRow(st.denorm, subject, PermissionKey(p)) <==> Grants(st, subject, PermissionKey(p))
    {
      HasRowIffGrants(st, subject, PermissionKey(p));
    }
  }

  /** Two pairs with the same key are indistinguishable to the check: a
      subject granted ("a$b", "c") is let through for ("a", "b$c"). */
  lemma KeyCollisionGrantsOther()
    ensures var st := State(map[1 := Policy(1, "a$b", "c")], map[],
                            map["u" := UserPermissions("u", [], [Policy(1, "a$b", "c")])], map[],
                            [Row("u", Encode("a$b", "c"), None)], 2);
      AbacRules.CheckUserAccess(st, "u", None, [Permission("a", "b$c")]) == Ok(true)
  {
    EncodeCollision();
    var st := State(map[1 := Policy(1, "a$b", "c")], map[],
                    map["u" := UserPermissions("u", [], [Policy(1, "a$b", "c")])], map[],
                    [Row("u", Encode("a$b", "c"), None)], 2);
    AbacRules.CheckUserAccessMeaning(st, "u", None, [Permission("a", "b$c")]);
    assert st.denorm[0].policyMapKey == PermissionKey(Permission("a", "b$c"));
  }

  // -------------------------------------------------------------- removeUser

  /** removeUser keeps the index consistent. */
  lemma RemoveUserKeeps(st: State, subject: string, user: User, deleteUser: bool)
    requires Consistent(st)
    ensures Consistent(Transactions.RemoveUser(st, subject, user, deleteUser))
  {
    var t := Transactions.RemoveUser(st, subject, user, deleteUser);
    DeleteWhereMembers(st.denorm, Where(Some(subject), None, AnyRole));
    assert forall x :: Derivable(t, x) <==> Derivable(st, x) && x.subject != subject;
  }

  // ------------------------------------------------------- removeRoleFromUser

  /** removeRoleFromUser keeps the index consistent when role names are
      unique. */
  lemma RemoveRoleFromUserKeeps(st: State, subject: string, rid: nat)
    requires Consistent(st) && UniqueRoleNames(st)
    requires subject in st.perms && rid in st.roles
    ensures Consistent(Transactions.RemoveRoleFromUser(st, subject, RoleAt(st, rid)).value)
  {
    var role := RoleAt(st, rid);
    var t := Transactions.RemoveRoleFromUser(st, subject, role).value;
    DeleteWhereMembers(st.denorm, Where(Some(subject), None, RoleNamed(role.name)));
    forall x | Derivable(t, x)
      ensures x in t.denorm
    {
      assert Derivable(st, x);
    }
    forall x | x in t.denorm
      ensures Derivable(t, x)
    {
      assert Derivable(st, x);
      if x.subject == subject && x.roleKey.Some? {
        var name := x.roleKey.value;
        var r :| r in st.perms[subject].roles && r in st.roles && st.roles[r].name == name &&
                 HasKey(st.roles[r].policies, x.policyMapKey);
        assert r in t.perms[subject].roles;
      }
    }
  }

  // ----------------------------------------------------------- addRoleToUser

  /** addRoleToUser (SQL, successful fetch) keeps the index consistent. */
  lemma SqlAddRoleToUserKeeps(st: State, subject: string, rid: nat)
    requires Consistent(st) && rid in st.roles
    requires !(subject in st.perms && rid in st.perms[subject].roles)
    ensures var t := Transactions.SqlAddRoleToUser(st, subject, RoleAt(st, rid), true);
      t.Ok? && Consistent(t.value)
  {
    var role := RoleAt(st, rid);
    var t := Transactions.SqlAddRoleToUser(st, subject, role, true).value;
    var up := if subject in st.perms then st.perms[subject] else UserPermissions(subject, [], []);
    if subject !in st.perms {
      forall x | x in st.denorm ensures x.subject != subject {
        assert Derivable(st, x);
      }
    }
    GainRoleKeeps(st, t, subject, up, rid, RoleRows(subject, st.roles[rid].policies, st.roles[rid].name));
  }

  /** The shape of a role grant: the subject's record gains `rid`, nothing
      else in the graph changes, and the index gains one row per policy of
      the role. */
  ghost predicate GainsRole(st: State, t: State, subject: string, up: UserPermissions, rid: nat, added: seq<Row>)
  {
    rid in st.roles &&
    (subject in st.perms ==> up == st.perms[subject]) &&
    (subject !in st.perms ==> up.policies == [] && up.roles == []) &&
    t.roles == st.roles && t.perms == st.perms[subject := up.(roles := up.roles + [rid])] &&
    t.denorm == st.denorm + added &&
    |added| == |st.roles[rid].policies| &&
    forall i :: 0 <= i < |added| ==>
      added[i] == Row(subject, PolicyMapKey(st.roles[rid].policies[i]), Some(st.roles[rid].name))
  }

  lemma GainRoleKeeps(st: State, t: State, subject: string, up: UserPermissions, rid: nat, added: seq<Row>)
    requires Consistent(st) && GainsRole(st, t, subject, up, rid, added)
    requires subject !in st.perms ==> forall x :: x in st.denorm ==> x.subject != subject
    ensures Consistent(t)
  {
    GainRoleOldRows(st, t, subject, up, rid, added);
    GainRoleAddedRows(st, t, subject, up, rid, added);
    GainRoleComplete(st, t, subject, up, rid, added);
  }

  lemma GainRoleOldRows(st: State, t: State, subject: string, up: UserPermissions, rid: nat, added: seq<Row>)
    requires Sound(st) && GainsRole(st, t, subject, up, rid, added)
    requires subject !in st.perms ==> forall x :: x in st.denorm ==> x.subject != subject
    ensures forall x :: x in st.denorm ==> Derivable(t, x)
  {
    forall x | x in st.denorm
      ensures Derivable(t, x)
    {
      assert Derivable(st, x);
      if x.roleKey.Some? {
        var r :| r in st.perms[x.subject].roles && r in st.roles && st.roles[r].name == x.roleKey.value &&
                 HasKey(st.roles[r].policies, x.policyMapKey);
        assert r in t.perms[x.subject].roles;
      }
    }
  }

  lemma GainRoleAddedRows(st: State, t: State, subject: string, up: UserPermissions, rid: nat, added: seq<Row>)
    requires GainsRole(st, t, subject, up, rid, added)
    ensures forall x :: x in added ==> Derivable(t, x)
  {
    forall x | x in added
      ensures Derivable(t, x)
    {
      var i :| 0 <= i < |added| && added[i] == x;
      assert st.roles[rid].policies[i] in st.roles[rid].policies;
      assert rid in t.perms[subject].roles;
    }
  }

  lemma GainRoleComplete(st: State, t: State, subject: string, up: UserPermissions, rid: nat, added: seq<Row>)
    requires Complete(st) && GainsRole(st, t, subject, up, rid, added)
    ensures Complete(t)
  {
    forall x | Derivable(t, x)
      ensures x in t.denorm
    {
      if x.subject == subject && x.roleKey.Some? {
        var r :| r in t.perms[subject].roles && r in t.roles && t.roles[r].name == x.roleKey.value &&
                 HasKey(t.roles[r].policies, x.policyMapKey);
        if r == rid {
          var p :| p in st.roles[rid].policies && PolicyMapKey(p) == x.policyMapKey;
          var i :| 0 <= i < |st.roles[rid].policies| && st.roles[rid].policies[i] == p;
          assert added[i] == x;
        } else {
          assert Derivable(st, x);
        }
      } else {
        assert Derivable(st, x);
      }
    }
  }

  // --------------------------------------------------------- addPolicyToRole

  /** Every role a subject holds has at least one policy. The SQL service
      keeps this: it refuses to attach an empty role and to empty a role. */
  ghost predicate HeldRolesNonEmpty(st: State)
  {
    forall s, r :: s in st.perms && r in st.perms[s].roles && r in st.roles ==> |st.roles[r].policies| > 0
  }

  /** The graph only grows: the same records, and every role keeps its name
      and at least its policies. */
  ghost predicate Grows(st: State, t: State)
  {
    t.perms == st.perms &&
    forall r :: r in st.roles ==> r in t.roles && t.roles[r].name == st.roles[r].name &&
                                  forall q :: q in st.roles[r].policies ==> q in t.roles[r].policies
  }

  lemma GrowsDerivable(st: State, t: State, x: Row)
    requires Grows(st, t) && Derivable(st, x)
    ensures Derivable(t, x)
  {
    if x.roleKey.Some? {
      var r :| r in st.perms[x.subject].roles && r in st.roles && st.roles[r].name == x.roleKey.value &&
               HasKey(st.roles[r].policies, x.policyMapKey);
      var q :| q in st.roles[r].policies && PolicyMapKey(q) == x.policyMapKey;
      assert q in t.roles[r].policies;
    }
  }

  /** A subject with a row of a role, in a sound state with unique role
      names, holds that role. */
  lemma RowHolderHoldsRole(st: State, rid: nat, x: Row)
    requires Sound(st) && UniqueRoleNames(st) && rid in st.roles
    requires x in st.denorm && x.roleKey == Some(st.roles[rid].name)
    ensures x.subject in st.perms && rid in st.perms[x.subject].roles
  {
    assert Derivable(st, x);
    var r :| r in st.perms[x.subject].roles && r in st.roles && st.roles[r].name == st.roles[rid].name &&
             HasKey(st.roles[r].policies, x.policyMapKey);
  }

  /** addPolicyToRole's shared body keeps the index consistent when role
      names are unique and no subject holds an empty role: the holders it
      finds through the index are exactly the subjects that hold the role. */
  lemma AttachToRoleKeeps(st: State, p: Policy, rid: nat)
    requires Consistent(st) && UniqueRoleNames(st) && HeldRolesNonEmpty(st) && rid in st.roles
    ensures Consistent(Transactions.AttachToRole(st, p, RoleAt(st, rid)).0)
  {
    var role := RoleAt(st, rid);
    var t := Transactions.AttachToRole(st, p, role).0;
    var name := role.name;
    var subjects := SubjectsWithRole(st.denorm, name);
    var holders := Dedup(subjects);
    DedupSpec(subjects);
    var added := FanOutRows(holders, PolicyMapKey(p), name);
    assert t.denorm == st.denorm + added;
    assert t.roles[rid].policies == st.roles[rid].policies + [p];
    assert Grows(st, t);
    assert AttachesPolicy(st, t, p, rid, holders);
    forall x | x in t.denorm
      ensures Derivable(t, x)
    {
      if x in st.denorm {
        assert Derivable(st, x);
        GrowsDerivable(st, t, x);
      } else {
        var j :| 0 <= j < |added| && added[j] == x;
        assert holders[j] in holders;
        assert holders[j] in subjects;
        var i :| 0 <= i < |st.denorm| && st.denorm[i].subject == holders[j] && st.denorm[i].roleKey == Some(name);
        RowHolderHoldsRole(st, rid, st.denorm[i]);
        assert p in t.roles[rid].policies;
      }
    }
    forall x | Derivable(t, x)
      ensures x in t.denorm
    {
      AttachToRoleComplete(st, p, rid, t, holders, x);
    }
  }

  /** The effect of addPolicyToRole's shared body on the graph and index. */
  ghost predicate AttachesPolicy(st: State, t: State, p: Policy, rid: nat, holders: seq<string>)
  {
    rid in st.roles && t.perms == st.perms &&
    rid in t.roles && t.roles == st.roles[rid := t.roles[rid]] &&
    t.roles[rid].name == st.roles[rid].name && t.roles[rid].policies == st.roles[rid].policies + [p] &&
    t.denorm == st.denorm + FanOutRows(holders, PolicyMapKey(p), st.roles[rid].name) &&
    forall s :: s in holders <==> s in SubjectsWithRole(st.denorm, st.roles[rid].name)
  }

  lemma AttachToRoleComplete(st: State, p: Policy, rid: nat, t: State, holders: seq<string>, x: Row)
    requires Complete(st) && HeldRolesNonEmpty(st) && AttachesPolicy(st, t, p, rid, holders)
    requires Derivable(t, x)
    ensures x in t.denorm
  {
    if x.roleKey.Some? {
      var r :| r in t.perms[x.subject].roles && r in t.roles && t.roles[r].name == x.roleKey.value &&
               HasKey(t.roles[r].policies, x.policyMapKey);
      var q :| q in t.roles[r].policies && PolicyMapKey(q) == x.policyMapKey;
      if r == rid && q !in st.roles[rid].policies {
        FanOutReaches(st, t, p, rid, holders, x.subject);
      } else {
        assert Derivable(st, x);
      }
    } else {
      assert Derivable(st, x);
    }
  }

  /** A holder of the role, having a row of it, receives the new policy. */
  lemma FanOutReaches(st: State, t: State, p: Policy, rid: nat, holders: seq<string>, s: string)
    requires Complete(st) && HeldRolesNonEmpty(st) && AttachesPolicy(st, t, p, rid, holders)
    requires s in st.perms && rid in st.perms[s].roles
    ensures Row(s, PolicyMapKey(p), Some(st.roles[rid].name)) in t.denorm
  {
    var name := st.roles[rid].name;
    var added := FanOutRows(holders, PolicyMapKey(p), name);
    var q0 := st.roles[rid].policies[0];
    var y := Row(s, PolicyMapKey(q0), Some(name));
    assert q0 in st.roles[rid].policies;
    assert Derivable(st, y);
    var i :| 0 <= i < |st.denorm| && st.denorm[i] == y;
    assert s in holders;
    var j :| 0 <= j < |holders| && holders[j] == s;
    assert added[j] == Row(s, PolicyMapKey(p), Some(name));
    assert t.denorm[|st.denorm| + j] == added[j];
  }

  /** The SQL addPolicyToRole body keeps the index consistent and keeps the
      two side conditions; creating the policy first touches neither the
      grant graph nor the index. */
  lemma SqlAddPolicyToRoleKeeps(st: State, resource: Option<string>, action: Option<string>,
                                policy: Option<Policy>, rid: nat)
    requires Consistent(st) && UniqueRoleNames(st) && HeldRolesNonEmpty(st) && rid in st.roles
    ensures var t := Transactions.SqlAddPolicyToRole(st, resource, action, policy, RoleAt(st, rid));
      t.Ok? ==> Consistent(t.value.0) && UniqueRoleNames(t.value.0) && HeldRolesNonEmpty(t.value.0)
  {
    if policy.Some? || (resource.Some? && action.Some?) {
      var (st1, p) := if policy.Some? then (st, policy.value) else NewPolicy(st, resource.value, action.value);
      SameGraph(st, st1);
      assert RoleAt(st1, rid) == RoleAt(st, rid);
      AttachToRoleKeeps(st1, p, rid);
    }
  }

  /** Consistency depends only on the records, the roles and the index. */
  lemma SameGraph(st: State, t: State)
    requires t.perms == st.perms && t.roles == st.roles && t.denorm == st.denorm
    ensures Consistent(t) == Consistent(st)
    ensures UniqueRoleNames(t) == UniqueRoleNames(st) && HeldRolesNonEmpty(t) == HeldRolesNonEmpty(st)
  {
    assert forall x :: Derivable(t, x) == Derivable(st, x);
  }

  // ---------------------------------------------------- removePolicyFromRole

  /** Within `ps`, the policies with the identifier of `p` are exactly those
      with its key. */
  ghost predicate KeyTracksId(ps: seq<Policy>, p: Policy)
  {
    forall q :: q in ps ==> (q.id == p.id <==> PolicyMapKey(q) == PolicyMapKey(p))
  }

  /** The SQL removePolicyFromRole body keeps the index consistent when role
      names are unique and the role's policies with the removed key are
      exactly those with its identifier. */
  lemma SqlRemovePolicyFromRoleKeeps(st: State, rid: nat, p: Policy)
    requires Consistent(st) && UniqueRoleNames(st) && rid in st.roles
    requires KeyTracksId(st.roles[rid].policies, p)
    ensures Consistent(Transactions.SqlRemovePolicyFromRole(st, RoleAt(st, rid), p))
  {
    RemovePolicyFromRoleSound(st, rid, p);
    RemovePolicyFromRoleComplete(st, rid, p);
  }

  /** A surviving row keeps its grant: a role row that survives has another
      key, so the policy granting it stays on the role. */
  lemma RemovePolicyFromRoleSound(st: State, rid: nat, p: Policy)
    requires Sound(st) && UniqueRoleNames(st) && rid in st.roles
    requires KeyTracksId(st.roles[rid].policies, p)
    ensures Sound(Transactions.SqlRemovePolicyFromRole(st, RoleAt(st, rid), p))
  {
    var role := RoleAt(st, rid);
    var t := Transactions.SqlRemovePolicyFromRole(st, role, p);
    DeleteWhereMembers(st.denorm, Where(None, Some(PolicyMapKey(p)), RoleNamed(role.name)));
    forall x | x in t.denorm
      ensures Derivable(t, x)
    {
      assert Derivable(st, x);
      if x.roleKey.Some? {
        var r :| r in st.perms[x.subject].roles && r in st.roles && st.roles[r].name == x.roleKey.value &&
                 HasKey(st.roles[r].policies, x.policyMapKey);
        var q :| q in st.roles[r].policies && PolicyMapKey(q) == x.policyMapKey;
        assert q in t.roles[r].policies;
      }
    }
  }

  /** Every grant left was a grant before, and its row was not deleted. */
  lemma RemovePolicyFromRoleComplete(st: State, rid: nat, p: Policy)
    requires Complete(st) && UniqueRoleNames(st) && rid in st.roles
    requires KeyTracksId(st.roles[rid].policies, p)
    ensures Complete(Transactions.SqlRemovePolicyFromRole(st, RoleAt(st, rid), p))
  {
    var role := RoleAt(st, rid);
    var t := Transactions.SqlRemovePolicyFromRole(st, role, p);
    DeleteWhereMembers(st.denorm, Where(None, Some(PolicyMapKey(p)), RoleNamed(role.name)));
    forall x | Derivable(t, x)
      ensures x in t.denorm
    {
      if x.roleKey.Some? {
        var r :| r in t.perms[x.subject].roles && r in t.roles && t.roles[r].name == x.roleKey.value &&
                 HasKey(t.roles[r].policies, x.policyMapKey);
        var q :| q in t.roles[r].policies && PolicyMapKey(q) == x.policyMapKey;
        assert q in st.roles[r].policies;
        assert Derivable(st, x);
      } else {
        assert Derivable(st, x);
      }
    }
  }

  // -------------------------------------------------------------- removeRole

  /** The effect both removeRole bodies share: `rid` leaves every record and
      its rows leave the index; other roles are untouched. */
  ghost predicate RemovesRole(st: State, t: State, rid: nat)
  {
    rid in st.roles &&
    t.perms == Transactions.StripRole(st.perms, rid) &&
    t.denorm == DeleteWhere(st.denorm, Where(None, None, RoleNamed(st.roles[rid].name))) &&
    forall r :: r != rid ==> (r in t.roles <==> r in st.roles) && (r in t.roles ==> t.roles[r] == st.roles[r])
  }

  lemma RemovesRoleKeeps(st: State, t: State, rid: nat)
    requires Consistent(st) && UniqueRoleNames(st) && RemovesRole(st, t, rid)
    ensures Consistent(t)
  {
    var name := st.roles[rid].name;
    DeleteWhereMembers(st.denorm, Where(None, None, RoleNamed(name)));
    forall x | x in t.denorm
      ensures Derivable(t, x)
    {
      assert Derivable(st, x);
      if x.roleKey.Some? {
        var r :| r in st.perms[x.subject].roles && r in st.roles && st.roles[r].name == x.roleKey.value &&
                 HasKey(st.roles[r].policies, x.policyMapKey);
        assert r in t.perms[x.subject].roles;
      }
    }
    forall x | Derivable(t, x)
      ensures x in t.denorm
    {
      if x.roleKey.Some? {
        var r :| r in t.perms[x.subject].roles && r in t.roles && t.roles[r].name == x.roleKey.value &&
                 HasKey(t.roles[r].policies, x.policyMapKey);
        assert r != rid;
      }
      assert Derivable(st, x);
    }
  }

  /** Both removeRole bodies keep the index consistent when role names are
      unique; the record the Mongo body leaves behind grants nothing. */
  lemma RemoveRoleKeeps(st: State, rid: nat)
    requires Consistent(st) && UniqueRoleNames(st) && rid in st.roles
    ensures Consistent(Transactions.SqlRemoveRole(st, RoleAt(st, rid)))
    ensures Consistent(Transactions.MongoRemoveRole(st, RoleAt(st, rid)))
  {
    RemovesRoleKeeps(st, Transactions.SqlRemoveRole(st, RoleAt(st, rid)), rid);
    RemovesRoleKeeps(st, Transactions.MongoRemoveRole(st, RoleAt(st, rid)), rid);
  }

  // ---------------------------------------------------------- policies on users

  /** Every row belongs to a subject with a record. */
  lemma RowsHaveRecords(st: State, x: Row)
    requires Sound(st) && x in st.denorm
    ensures x.subject in st.perms
  {
    assert Derivable(st, x);
  }

  /** addPolicyToUser as intended keeps the index consistent: the policy
      joins the direct list and its direct row joins the index. */
  lemma AddDirectPolicyToUserKeeps(st: State, subject: string, p: Policy)
    requires Consistent(st)
    ensures var t := Transactions.AddDirectPolicyToUser(st, subject, Some(p), None, None, AbacRules.RecordOf(st, subject));
      t.Ok? && Consistent(t.value.0)
  {
    var t := Transactions.AddDirectPolicyToUser(st, subject, Some(p), None, None, AbacRules.RecordOf(st, subject)).value.0;
    var up := if subject in st.perms then st.perms[subject] else UserPermissions(subject, [], []);
    assert t.perms[subject].policies == up.policies + [p];
    forall x | x in t.denorm
      ensures Derivable(t, x)
    {
      if x in st.denorm {
        RowsHaveRecords(st, x);
        assert Derivable(st, x);
        if x.roleKey.None? {
          var q :| q in st.perms[x.subject].policies && PolicyMapKey(q) == x.policyMapKey;
          assert q in t.perms[x.subject].policies;
        }
      } else {
        assert x == Row(subject, PolicyMapKey(p), None);
        assert p in t.perms[subject].policies;
      }
    }
    forall x | Derivable(t, x)
      ensures x in t.denorm
    {
      if x.subject == subject && x.roleKey.None? {
        var q :| q in t.perms[subject].policies && PolicyMapKey(q) == x.policyMapKey;
        if q != p {
          assert q in up.policies;
          assert Derivable(st, x);
        }
      } else {
        assert Derivable(st, x);
      }
    }
  }

  /** removePolicyFromUser restricted to the direct rows keeps the index
      consistent when the subject's direct policies with the removed key are
      exactly those with its identifier. */
  lemma RemoveDirectPolicyFromUserKeeps(st: State, subject: string, p: Policy)
    requires Consistent(st) && subject in st.perms
    requires KeyTracksId(st.perms[subject].policies, p)
    ensures Consistent(Transactions.RemoveDirectPolicyFromUser(st, subject, p).value)
  {
    var t := Transactions.RemoveDirectPolicyFromUser(st, subject, p).value;
    DeleteWhereMembers(st.denorm, Where(Some(subject), Some(PolicyMapKey(p)), NoRole));
    assert t.perms[subject].policies == WithoutPolicy(st.perms[subject].policies, p.id);
    forall x | x in t.denorm
      ensures Derivable(t, x)
    {
      assert Derivable(st, x);
      if x.roleKey.None? {
        var q :| q in st.perms[x.subject].policies && PolicyMapKey(q) == x.policyMapKey;
        assert q in t.perms[x.subject].policies;
      } else {
        var r :| r in st.perms[x.subject].roles && r in st.roles && st.roles[r].name == x.roleKey.value &&
                 HasKey(st.roles[r].policies, x.policyMapKey);
        assert r in t.perms[x.subject].roles;
      }
    }
    forall x | Derivable(t, x)
      ensures x in t.denorm
    {
      if x.roleKey.None? {
        var q :| q in t.perms[x.subject].policies && PolicyMapKey(q) == x.policyMapKey;
        assert q in st.perms[x.subject].policies;
      }
      assert Derivable(st, x);
    }
  }

  // ------------------------------------------------------------ role creation

  /** createRole keeps role names unique and the index consistent, provided
      the next identifier is not in use. */
  lemma CreateRoleKeeps(st: State, name: string)
    requires Consistent(st) && UniqueRoleNames(st) && HeldRolesNonEmpty(st) && st.nextId !in st.roles
    ensures var t := AbacRules.CreateRole(st, name).st;
      Consistent(t) && UniqueRoleNames(t)
  {
    var o := AbacRules.CreateRole(st, name);
    if o.result.Ok? {
      var t := o.st;
      forall x | x in t.denorm
        ensures Derivable(t, x)
      {
        assert Derivable(st, x);
        if x.roleKey.Some? {
          var r :| r in st.perms[x.subject].roles && r in st.roles && st.roles[r].name == x.roleKey.value &&
                   HasKey(st.roles[r].policies, x.policyMapKey);
          assert r in t.roles && t.roles[r] == st.roles[r];
        }
      }
      forall x | Derivable(t, x)
        ensures x in t.denorm
      {
        if x.roleKey.Some? {
          var r :| r in t.perms[x.subject].roles && r in t.roles && t.roles[r].name == x.roleKey.value &&
                   HasKey(t.roles[r].policies, x.policyMapKey);
          assert r != st.nextId;
        }
        assert Derivable(st, x);
      }
    }
  }

  // ---------------------------------------------------------- service level

  /** The SQL attachRoleToUser, after a successful fetch, keeps the index
      consistent and every held role non-empty. */
  lemma AttachRoleToUserKeeps(st: State, user: User, roleId: nat)
    requires Consistent(st) && HeldRolesNonEmpty(st)
    ensures var t := AbacRules.AttachRoleToUser(st, user, roleId, true).st;
      Consistent(t) && HeldRolesNonEmpty(t)
  {
    var o := AbacRules.AttachRoleToUser(st, user, roleId, true);
    if o.result.Ok? {
      SqlAddRoleToUserKeeps(st, user.subject, roleId);
    }
  }

  /** The document-store attachRoleToUser keeps the index consistent too,
      but it accepts a role without policies. */
  lemma MongoAttachRoleToUserKeeps(st: State, user: User, roleId: nat)
    requires Consistent(st)
    ensures Consistent(MongoRules.AttachRoleToUser(st, user, roleId).st)
  {
    var o := MongoRules.AttachRoleToUser(st, user, roleId);
    if o.result.Ok? {
      var s := user.subject;
      var up := if s in st.perms then st.perms[s] else UserPermissions(s, [], []);
      if s !in st.perms {
        forall x | x in st.denorm ensures x.subject != s {
          RowsHaveRecords(st, x);
        }
      }
      GainRoleKeeps(st, o.st, s, up, roleId, RoleRows(s, st.roles[roleId].policies, st.roles[roleId].name));
    }
  }

  // --------------------------------------------- how the bodies as written diverge

  /** removePolicyFromUser as written: when the policy also reaches the
      subject through a role it holds, the role's row is deleted although the
      graph still grants it. */
  lemma RemovePolicyFromUserBreaksComplete(st: State, subject: string, p: Policy, rid: nat)
    requires subject in st.perms && rid in st.perms[subject].roles && rid in st.roles
    requires p in st.roles[rid].policies
    ensures !Complete(Transactions.RemovePolicyFromUser(st, subject, p).value)
  {
    var t := Transactions.RemovePolicyFromUser(st, subject, p).value;
    var x := Row(subject, PolicyMapKey(p), Some(st.roles[rid].name));
    DeleteWhereMembers(st.denorm, Where(Some(subject), Some(PolicyMapKey(p)), AnyRole));
    assert Derivable(t, x);
  }

  /** The SQL addPolicyToUser as written: when the subject already holds a
      direct policy with another key, its row stays in the index although
      the saved record has lost the policy. */
  lemma SqlAddPolicyToUserBreaksSound(st: State, subject: string, p: Policy, q: Policy)
    requires Consistent(st) && subject in st.perms && q in st.perms[subject].policies
    requires PolicyMapKey(q) != PolicyMapKey(p)
    ensures var t := Transactions.SqlAddPolicyToUser(st, subject, Some(p), None, None, AbacRules.RecordOf(st, subject), false);
      t.Ok? && !Sound(t.value.0)
  {
    var t := Transactions.SqlAddPolicyToUser(st, subject, Some(p), None, None, AbacRules.RecordOf(st, subject), false).value.0;
    var x := Row(subject, PolicyMapKey(q), None);
    assert Derivable(st, x);
    assert x in t.denorm;
    assert t.perms[subject].policies == [p];
    assert !Derivable(t, x);
  }

  /** The document-store addPolicyToUser: the direct row it inserts is not
      accounted for by the record it leaves unchanged. */
  lemma MongoAddPolicyToUserBreaksSound(st: State, subject: string, p: Policy)
    requires subject in st.perms && !HasKey(st.perms[subject].policies, PolicyMapKey(p))
    ensures var t := Transactions.MongoAddPolicyToUser(st, subject, Some(p), AbacRules.RecordOf(st, subject));
      t.Ok? && !Sound(t.value.0)
  {
    var t := Transactions.MongoAddPolicyToUser(st, subject, Some(p), AbacRules.RecordOf(st, subject)).value.0;
    assert Row(subject, PolicyMapKey(p), None) in t.denorm;
  }

  /** The document-store removePolicyFromRole body as written: a holder's row
      for another policy of the role is deleted although the role keeps that
      policy. */
  lemma MongoRemovePolicyFromRoleBreaksComplete(st: State, rid: nat, p: Policy, q: Policy, subject: string)
    requires rid in st.roles && q in st.roles[rid].policies && q.id != p.id
    requires subject in st.perms && rid in st.perms[subject].roles
    ensures !Complete(Transactions.MongoRemovePolicyFromRole(st, RoleAt(st, rid), p))
  {
    var role := RoleAt(st, rid);
    var t := Transactions.MongoRemovePolicyFromRole(st, role, p);
    DeleteWhereMembers(st.denorm, Where(None, None, RoleNamed(role.name)));
    assert q in t.roles[rid].policies;
    assert Derivable(t, Row(subject, PolicyMapKey(q), Some(role.name)));
  }

  /** The document-store service attaches a role without policies; a policy
      added to the role afterwards is fanned out through the index, where the
      new holder has no row of the role, so it never reaches that holder. */
  lemma MongoEmptyRoleMissesFanOut(st: State, user: User, rid: nat, p: Policy)
    requires Sound(st) && UniqueRoleNames(st)
    requires user.subject != "" && rid in st.roles && st.roles[rid].policies == []
    requires !(user.subject in st.perms && rid in st.perms[user.subject].roles)
    ensures var o := MongoRules.AttachRoleToUser(st, user, rid);
      o.result == Ok(true) &&
      !Complete(Transactions.MongoAddPolicyToRole(o.st, None, None, Some(p), RoleAt(o.st, rid)).0)
  {
    var o := MongoRules.AttachRoleToUser(st, user, rid);
    var name := st.roles[rid].name;
    assert o.st.denorm == st.denorm;
    NoRowsOfEmptyRole(st, rid);
    NoSubjectsWithRole(st.denorm, name);
    var t := Transactions.MongoAddPolicyToRole(o.st, None, None, Some(p), RoleAt(o.st, rid)).0;
    assert t.denorm == st.denorm;
    assert p in t.roles[rid].policies;
    assert Derivable(t, Row(user.subject, PolicyMapKey(p), Some(name)));
  }

  /** In a sound state no row is granted through a role without policies. */
  lemma NoRowsOfEmptyRole(st: State, rid: nat)
    requires Sound(st) && UniqueRoleNames(st) && rid in st.roles && st.roles[rid].policies == []
    ensures forall x :: x in st.denorm ==> x.roleKey != Some(st.roles[rid].name)
  {
    forall x | x in st.denorm
      ensures x.roleKey != Some(st.roles[rid].name)
    {
      assert Derivable(st, x);
    }
  }

  lemma {:induction false} NoSubjectsWithRole(rows: seq<Row>, name: string)
    requires forall x :: x in rows ==> x.roleKey != Some(name)
    ensures SubjectsWithRole(rows, name) == []
  {
    if rows != [] {
      assert rows[0] in rows;
      NoSubjectsWithRole(rows[1..], name);
    }
  }
}
