// What each operation of the document-store (Mongo) authorization service
// does. Where it behaves as the SQL service does, the AbacRules function is
// used as is (removeUser, createRole, createPolicy and the policy
// resolution); the functions here are the operations whose checks or
// transactions differ.

module MongoRules {
  import opened Model
  import opened PolicyKey
  import opened Rows
  import Transactions
  import opened Queries
  import AbacRules

  /** checkUserAccess: a stub that denies everything. */
  function CheckUserAccess(st: State, subject: string, id: Option<nat>, permissions: seq<Permission>): (r: bool)
  {
    false
  }

  /** The stub denies even a request the SQL service grants, such as an
      empty one. */
  lemma CheckUserAccessDeniesGranted(st: State, subject: string, id: Option<nat>)
    requires subject != ""
    ensures AbacRules.CheckUserAccess(st, subject, id, []) == Ok(true)
    ensures !CheckUserAccess(st, subject, id, [])
  {
  }

  // --------------------------------------------------------- attachRoleToUser

  /** attachRoleToUser: the subject is checked first, an empty role is
      accepted, and a role the record already holds is refused here rather
      than in the transaction. */
  function AttachRoleToUser(st: State, user: User, roleId: nat): (o: Outcome<bool>)
    ensures AbacRules.CleanFailure(st, o)
    ensures user.subject == "" ==> o.result == Err(SubjectCannotBeEmpty)
    ensures user.subject != "" && roleId !in st.roles ==> o.result == Err(RoleNotFound)
    ensures user.subject != "" && roleId in st.roles ==>
      (o.result == Err(RoleAlreadyExistsOnUser) <==> user.subject in st.perms && roleId in st.perms[user.subject].roles)
    ensures o.result.Ok? ==>
      var s := user.subject;
      s in o.st.perms && roleId in o.st.perms[s].roles &&
      o.st.denorm == st.denorm + RoleRows(s, st.roles[roleId].policies, st.roles[roleId].name)
  {
    if user.subject == "" then Outcome(st, Err(SubjectCannotBeEmpty))
    else if roleId !in st.roles then Outcome(st, Err(RoleNotFound))
    else if user.subject in st.perms && roleId in st.perms[user.subject].roles then
      Outcome(st, Err(RoleAlreadyExistsOnUser))
    else
      var role := RoleAt(st, roleId);
      Outcome(Transactions.MongoAddRoleToUser(st, user.subject, role, role.policies), Ok(true))
  }

  function AttachRoleToUserById(st: State, userId: nat, roleId: nat): (o: Outcome<bool>)
    ensures AbacRules.CleanFailure(st, o)
    ensures userId !in st.users ==> o.result == Err(UserNotFound)
    ensures o.result.Ok? ==>
      userId in st.users && st.users[userId].subject in o.st.perms &&
      roleId in o.st.perms[st.users[userId].subject].roles
  {
    if userId !in st.users then Outcome(st, Err(UserNotFound))
    else AttachRoleToUser(st, UserAt(st, userId), roleId)
  }

  // ------------------------------------------------------- attachPolicyToUser

  /** The checks of attachPolicyToUser: as in the SQL service, except that
      only a direct row of the policy blocks the attachment. */
  function AttachPolicyToUserTarget(st: State, userId: nat, policyId: Option<nat>, resource: Option<string>, action: Option<string>)
    : (r: Result<(string, Policy)>)
    ensures policyId.None? && !(Given(resource) && Given(action)) ==> r == Err(InsufficientPolicyData)
    ensures r.Ok? ==>
      UserSubject(st, userId) == Ok(r.value.0) && StoredPolicy(st, r.value.1) &&
      Row(r.value.0, PolicyMapKey(r.value.1), None) !in st.denorm
  {
    if policyId.None? && !(Given(resource) && Given(action)) then Err(InsufficientPolicyData)
    else
      var s := UserSubject(st, userId);
      if s.Err? then Err(s.error)
      else
        var named := AbacRules.NamedPolicy(st, policyId, resource, action);
        if named.Err? then Err(named.error)
        else if named.value.None? then Err(PolicyNotFound)
        else
          var p := named.value.value;
          var w := Where(Some(s.value), Some(PolicyMapKey(p)), NoRole);
          if CountWhere(st.denorm, w) > 0 then Err(PolicyAlreadyAttachedOnUser)
          else
            CountWhereZero(st.denorm, w);
            assert !Matches(Row(s.value, PolicyMapKey(p), None), w) || Row(s.value, PolicyMapKey(p), None) !in st.denorm;
            Ok((s.value, p))
  }

  /** A role-granted row of the policy does not block a direct attachment. */
  lemma AttachPolicyToUserIgnoresRoleRows()
    ensures var p := Policy(1, "doc", "read");
      var st := State(map[1 := p], map[], map[], map[7 := User(7, "u")],
                      [Row("u", PolicyMapKey(p), Some("editor"))], 2);
      AttachPolicyToUserTarget(st, 7, Some(1), None, None) == Ok(("u", p)) &&
      AbacRules.AttachPolicyToUserTarget(st, 7, Some(1), None, None) == Err(PolicyAlreadyAttachedOnUser)
  {
    var p := Policy(1, "doc", "read");
    var st := State(map[1 := p], map[], map[], map[7 := User(7, "u")],
                    [Row("u", PolicyMapKey(p), Some("editor"))], 2);
    assert st.denorm[1..] == [];
    assert CountWhere(st.denorm, Where(Some("u"), Some(PolicyMapKey(p)), AnyRole)) == 1;
    assert CountWhere(st.denorm, Where(Some("u"), Some(PolicyMapKey(p)), NoRole)) == 0;
  }

  /** attachPolicyToUser as written: the direct row is inserted but the
      record never lists the policy. */
  function AttachPolicyToUser(st: State, userId: nat, policyId: Option<nat>, resource: Option<string>, action: Option<string>)
    : (o: Outcome<UserPermissions>)
    ensures AbacRules.CleanFailure(st, o)
    ensures o.result.Err? <==> AttachPolicyToUserTarget(st, userId, policyId, resource, action).Err?
    ensures o.result.Ok? ==>
      var (s, p) := AttachPolicyToUserTarget(st, userId, policyId, resource, action).value;
      o.st.denorm == st.denorm + [Row(s, PolicyMapKey(p), None)] &&
      s in o.st.perms && o.st.perms[s].policies == (if s in st.perms then st.perms[s].policies else [])
  {
    var target := AttachPolicyToUserTarget(st, userId, policyId, resource, action);
    if target.Err? then Outcome(st, Err(target.error))
    else
      var (s, p) := target.value;
      match Transactions.MongoAddPolicyToUser(st, s, Some(p), AbacRules.RecordOf(st, s))
      case Ok((st', up)) => Outcome(st', Ok(up))
      case Err(e) => Outcome(st, Err(e))
  }

  /** attachPolicyToUser as intended: the record lists the policy too. */
  function AttachPolicyToUserRecorded(st: State, userId: nat, policyId: Option<nat>, resource: Option<string>, action: Option<string>)
    : (o: Outcome<UserPermissions>)
    ensures AbacRules.CleanFailure(st, o)
    ensures o.result.Err? <==> AttachPolicyToUserTarget(st, userId, policyId, resource, action).Err?
    ensures o.result.Ok? ==>
      var (s, p) := AttachPolicyToUserTarget(st, userId, policyId, resource, action).value;
      o.st.denorm == st.denorm + [Row(s, PolicyMapKey(p), None)] &&
      s in o.st.perms && o.st.perms[s].policies == (if s in st.perms then st.perms[s].policies else []) + [p]
  {
    var target := AttachPolicyToUserTarget(st, userId, policyId, resource, action);
    if target.Err? then Outcome(st, Err(target.error))
    else
      var (s, p) := target.value;
      match Transactions.AddDirectPolicyToUser(st, s, Some(p), resource, action, AbacRules.RecordOf(st, s))
      case Ok((st', up)) => Outcome(st', Ok(up))
      case Err(e) => Outcome(st, Err(e))
  }

  // ----------------------------------------------------- removePolicyFromUser

  /** The checks of removePolicyFromUser: user, then policy, then subject;
      a subject without a record is a null dereference. */
  function RemovePolicyFromUserTarget(st: State, userId: nat, policyId: nat): (r: Result<(string, Policy)>)
    ensures userId !in st.users ==> r == Err(UserNotFound)
    ensures userId in st.users && policyId !in st.policies ==> r == Err(PolicyNotFound)
    ensures r.Ok? ==>
      UserSubject(st, userId) == Ok(r.value.0) && policyId in st.policies && r.value.1 == PolicyAt(st, policyId) &&
      r.value.0 in st.perms && r.value.1.id in Ids(st.perms[r.value.0].policies)
  {
    if userId !in st.users then Err(UserNotFound)
    else if policyId !in st.policies then Err(PolicyNotFound)
    else
      var s := st.users[userId].subject;
      var p := PolicyAt(st, policyId);
      if s == "" then Err(SubjectCannotBeEmpty)
      else if s !in st.perms then Err(NullReference)
      else if p.id !in Ids(st.perms[s].policies) then Err(PolicyNotAttachedOnUser)
      else Ok((s, p))
  }

  /** removePolicyFromUser: the policy leaves the record and every row of
      the subject with its key goes. */
  function RemovePolicyFromUser(st: State, userId: nat, policyId: nat): (o: Outcome<bool>)
    ensures AbacRules.CleanFailure(st, o)
    ensures o.result.Err? <==> RemovePolicyFromUserTarget(st, userId, policyId).Err?
    ensures o.result.Ok? ==>
      var (s, p) := RemovePolicyFromUserTarget(st, userId, policyId).value;
      !HasRow(o.st.denorm, s, PolicyMapKey(p)) && s in o.st.perms &&
      (forall q :: q in o.st.perms[s].policies <==> q in st.perms[s].policies && q.id != p.id)
  {
    var target := RemovePolicyFromUserTarget(st, userId, policyId);
    if target.Err? then Outcome(st, Err(target.error))
    else
      var (s, p) := target.value;
      DeleteWhereMembers(st.denorm, Where(Some(s), Some(PolicyMapKey(p)), AnyRole));
      var t := Transactions.RemovePolicyFromUser(st, s, p);
      if t.Err? then Outcome(st, Err(InternalServerError)) else Outcome(t.value, Ok(true))
  }

  /** A policy attached through this service as written cannot be removed
      through it again: the record never listed it. The intended attachment
      can. */
  lemma AttachThenRemovePolicy()
    ensures var p := Policy(1, "doc", "read");
      var st := State(map[1 := p], map[], map["u" := UserPermissions("u", [], [])], map[7 := User(7, "u")], [], 2);
      var a := AttachPolicyToUser(st, 7, Some(1), None, None);
      a.result.Ok? && RemovePolicyFromUser(a.st, 7, 1).result == Err(PolicyNotAttachedOnUser) &&
      var c := AttachPolicyToUserRecorded(st, 7, Some(1), None, None);
      c.result.Ok? && RemovePolicyFromUser(c.st, 7, 1).result == Ok(true)
  {
    var p := Policy(1, "doc", "read");
    var st := State(map[1 := p], map[], map["u" := UserPermissions("u", [], [])], map[7 := User(7, "u")], [], 2);
    var c := AttachPolicyToUserRecorded(st, 7, Some(1), None, None);
    assert c.st.perms["u"].policies == [p];
    assert Ids([p]) == [1];
  }

  // ------------------------------------------------------------------ getters

  /** getPoliciesForUser as written: the length test is inverted, so a user
      with policies gets none, and one without gets the empty lookup. */
  function GetPoliciesForUserAsWritten(st: State, userId: nat): (r: Result<seq<Policy>>)
    ensures r.Ok? ==> r.value == []
    ensures r.Err? <==> UserSubject(st, userId).Err? || st.users[userId].subject !in st.perms
  {
    var s := UserSubject(st, userId);
    if s.Err? then Err(s.error)
    else if s.value !in st.perms then Err(NullReference)
    else if |st.perms[s.value].policies| > 0 then Ok([])
    else Ok([])
  }

  /** getPoliciesForUser as intended: the policies the record lists; none
      for a subject without a record. */
  function GetPoliciesForUser(st: State, userId: nat): (r: Result<seq<Policy>>)
    ensures r.Err? <==> UserSubject(st, userId).Err?
    ensures r.Ok? && st.users[userId].subject !in st.perms ==> r.value == []
    ensures r.Ok? && st.users[userId].subject in st.perms ==> r.value == st.perms[st.users[userId].subject].policies
  {
    var s := UserSubject(st, userId);
    if s.Err? then Err(s.error)
    else if s.value !in st.perms then Ok([])
    else Ok(st.perms[s.value].policies)
  }

  /** getRolesForUser as written: inverted like getPoliciesForUser. */
  function GetRolesForUserAsWritten(st: State, userId: nat): (r: Result<seq<Role>>)
    ensures r.Ok? ==> r.value == []
    ensures r.Err? <==> UserSubject(st, userId).Err? || st.users[userId].subject !in st.perms
  {
    var s := UserSubject(st, userId);
    if s.Err? then Err(s.error)
    else if s.value !in st.perms then Err(NullReference)
    else if |st.perms[s.value].roles| > 0 then Ok([])
    else Ok(RoleDocumentsOf(st.roles, []))
  }

  /** getRolesForUser as intended: the stored role documents the record
      lists, each with its policies; none for a subject without a record. */
  function GetRolesForUser(st: State, userId: nat): (r: Result<seq<Role>>)
    ensures r.Err? <==> UserSubject(st, userId).Err?
    ensures r.Ok? && st.users[userId].subject !in st.perms ==> r.value == []
    ensures r.Ok? && st.users[userId].subject in st.perms ==> forall x :: x in r.value <==>
      exists id :: id in st.perms[st.users[userId].subject].roles && id in st.roles && x == st.roles[id].(id := id)
  {
    var s := UserSubject(st, userId);
    if s.Err? then Err(s.error)
    else if s.value !in st.perms then Ok([])
    else Ok(RoleDocumentsOf(st.roles, st.perms[s.value].roles))
  }

  /** A user holding a policy and a role gets neither back as written. */
  lemma GettersInverted()
    ensures var p := Policy(1, "doc", "read");
      var st := State(map[1 := p], map[2 := Role(2, "editor", [p])],
                      map["u" := UserPermissions("u", [2], [p])], map[7 := User(7, "u")], [], 3);
      GetPoliciesForUserAsWritten(st, 7) == Ok([]) && GetPoliciesForUser(st, 7) == Ok([p]) &&
      GetRolesForUserAsWritten(st, 7) == Ok([]) && GetRolesForUser(st, 7) == Ok([Role(2, "editor", [p])])
  {
    var p := Policy(1, "doc", "read");
    var roles := map[2 := Role(2, "editor", [p])];
    var st := State(map[1 := p], roles, map["u" := UserPermissions("u", [2], [p])], map[7 := User(7, "u")], [], 3);
    assert RoleDocumentsOf(roles, [2]) == [Role(2, "editor", [p])] + RoleDocumentsOf(roles, []);
    assert RoleDocumentsOf(roles, [2]) == [Role(2, "editor", [p])];
  }

  function GetRole(st: State, roleId: nat): (r: Result<Role>)
    ensures r.Err? <==> roleId !in st.roles
    ensures r.Err? ==> r.error == RoleNotFound
    ensures r.Ok? ==>
      r.value.id == roleId && r.value.name == st.roles[roleId].name && r.value.policies == st.roles[roleId].policies
  {
    if roleId !in st.roles then Err(RoleNotFound) else Ok(RoleAt(st, roleId))
  }

  // --------------------------------------------------------------- removeRole

  /** removeRole as written: the transaction field is never set, so every
      removal that passes the checks fails with an internal error and
      nothing is removed. */
  function RemoveRoleAsWritten(st: State, roleId: nat, force: bool): (o: Outcome<(Role, nat)>)
    ensures o.st == st && o.result.Err?
    ensures roleId in st.roles ==>
      (o.result == Err(RoleAttachedOnUsers) <==> HolderCount(st.perms, roleId) > 0 && !force)
  {
    if roleId !in st.roles then Outcome(st, Err(RoleNotFound))
    else if HolderCount(st.perms, roleId) > 0 && !force then Outcome(st, Err(RoleAttachedOnUsers))
    else Outcome(st, Err(InternalServerError))
  }

  /** removeRole as intended: the Mongo transaction strips the role from
      every record and deletes its rows; the role record stays. */
  function RemoveRole(st: State, roleId: nat, force: bool): (o: Outcome<(Role, nat)>)
    ensures AbacRules.CleanFailure(st, o)
    ensures roleId !in st.roles ==> o.result == Err(RoleNotFound)
    ensures roleId in st.roles ==>
      (o.result == Err(RoleAttachedOnUsers) <==> HolderCount(st.perms, roleId) > 0 && !force)
    ensures o.result.Ok? ==>
      o.result.value == (RoleAt(st, roleId), HolderCount(st.perms, roleId)) &&
      o.st.roles == st.roles &&
      (forall s :: s in o.st.perms ==> roleId !in o.st.perms[s].roles) &&
      (forall x :: x in o.st.denorm ==> x.roleKey != Some(st.roles[roleId].name))
  {
    if roleId !in st.roles then Outcome(st, Err(RoleNotFound))
    else
      var count := HolderCount(st.perms, roleId);
      if count > 0 && !force then Outcome(st, Err(RoleAttachedOnUsers))
      else
        var role := RoleAt(st, roleId);
        DeleteWhereMembers(st.denorm, Where(None, None, RoleNamed(role.name)));
        Outcome(Transactions.MongoRemoveRole(st, role), Ok((role, count)))
  }

  /** An unheld role is not removed as written, although it passes every
      check. */
  lemma RemoveRoleNeverRemoves()
    ensures var st := State(map[], map[1 := Role(1, "r", [])], map[], map[], [], 2);
      RemoveRoleAsWritten(st, 1, false).result == Err(InternalServerError) &&
      RemoveRole(st, 1, false).result == Ok((Role(1, "r", []), 0))
  {
    var st := State(map[], map[1 := Role(1, "r", [])], map[], map[], [], 2);
  }

  // ------------------------------------------------------- removeRoleFromUser

  /** removeRoleFromUser: a subject without a record gets "not attached";
      transaction errors pass unchanged. */
  function RemoveRoleFromUser(st: State, roleId: nat, userId: nat): (o: Outcome<bool>)
    ensures AbacRules.CleanFailure(st, o)
    ensures roleId !in st.roles ==> o.result == Err(RoleNotFound)
    ensures roleId in st.roles && UserSubject(st, userId).Err? ==> o.result == Err(UserSubject(st, userId).error)
    ensures roleId in st.roles && UserSubject(st, userId).Ok? ==>
      var s := UserSubject(st, userId).value;
      (o.result == Err(RoleNotAttachedOnUser) <==> !(s in st.perms && roleId in st.perms[s].roles))
    ensures o.result.Ok? ==>
      var s := st.users[userId].subject;
      s in o.st.perms && roleId !in o.st.perms[s].roles &&
      (forall x :: x in o.st.denorm ==> !(x.subject == s && x.roleKey == Some(st.roles[roleId].name)))
  {
    if roleId !in st.roles then Outcome(st, Err(RoleNotFound))
    else
      var s := UserSubject(st, userId);
      if s.Err? then Outcome(st, Err(s.error))
      else if s.value !in st.perms || roleId !in st.perms[s.value].roles then Outcome(st, Err(RoleNotAttachedOnUser))
      else
        var role := RoleAt(st, roleId);
        DeleteWhereMembers(st.denorm, Where(Some(s.value), None, RoleNamed(role.name)));
        match Transactions.RemoveRoleFromUser(st, s.value, role)
        case Ok(st') => Outcome(st', Ok(true))
        case Err(e) => Outcome(st, Err(e))
  }

  // ------------------------------------------------------- attachPolicyToRole

  /** attachPolicyToRole: no check that the pair is stored under another
      id, and no fallback to the stored pair: unless its id is given the
      transaction creates the policy afresh. */
  function AttachPolicyToRole(st: State, roleId: nat, policyId: Option<nat>, resource: Option<string>, action: Option<string>)
    : (o: Outcome<(Role, Policy)>)
    ensures AbacRules.CleanFailure(st, o)
    ensures policyId.None? && !(Given(resource) && Given(action)) ==> o.result == Err(InsufficientPolicyData)
    ensures policyId.Some? || (Given(resource) && Given(action)) ==>
      (roleId !in st.roles ==> o.result == Err(RoleNotFound))
    ensures o.result.Ok? ==>
      var (role', p) := o.result.value;
      roleId in st.roles && role'.policies == st.roles[roleId].policies + [p] &&
      roleId in o.st.roles && o.st.roles[roleId] == role'
    // the policy attached: the one the id names, else always a new one, even
    // when a stored policy already has the pair
    ensures o.result.Ok? ==>
      var p := o.result.value.1;
      (policyId.Some? && policyId.value in st.policies ==> p == PolicyAt(st, policyId.value)) &&
      (policyId.None? ==>
         p == Policy(st.nextId, resource.value, action.value) && o.st.policies == st.policies[st.nextId := p])
    // every distinct holder of the role gains the policy's row, and no row goes
    ensures o.result.Ok? ==>
      var name := st.roles[roleId].name;
      o.st.denorm == st.denorm + FanOutRows(Dedup(SubjectsWithRole(st.denorm, name)), PolicyMapKey(o.result.value.1), name)
  {
    if policyId.None? && !(Given(resource) && Given(action)) then Outcome(st, Err(InsufficientPolicyData))
    else if roleId !in st.roles then Outcome(st, Err(RoleNotFound))
    else
      var named := AbacRules.NamedPolicy(st, policyId, resource, action);
      if named.Err? then Outcome(st, Err(named.error))
      else
        var policy := if policyId.Some? then FindPolicy(st, policyId.value) else None;
        var (st', res) := Transactions.MongoAddPolicyToRole(st, resource, action, policy, RoleAt(st, roleId));
        Outcome(st', Ok(res))
  }

  /** Naming a stored pair without its id yields a second policy with the
      same pair, where the SQL service attaches the stored one. */
  lemma AttachPolicyToRoleDuplicatesPair()
    ensures var p := Policy(1, "doc", "read");
      var st := State(map[1 := p], map[2 := Role(2, "editor", [])], map[], map[], [], 3);
      var o := AttachPolicyToRole(st, 2, None, Some("doc"), Some("read"));
      o.result.Ok? && o.result.value.1 == Policy(3, "doc", "read") &&
      o.st.policies == map[1 := p, 3 := Policy(3, "doc", "read")] &&
      AbacRules.AttachPolicyToRole(st, 2, None, Some("doc"), Some("read")).result.value.1 == p
  {
    var p := Policy(1, "doc", "read");
    var st := State(map[1 := p], map[2 := Role(2, "editor", [])], map[], map[], [], 3);
    assert FindPolicyFrom(st.policies, "doc", "read", 1, 3) == Some(p);
    assert Ids([]) == [];
  }

  // ----------------------------------------------------- removePolicyFromRole

  /** removePolicyFromRole as written: the checks pass as in the SQL service,
      then the transaction field, never set, is dereferenced. */
  function RemovePolicyFromRoleAsWritten(st: State, roleId: nat, policyId: Option<nat>, resource: Option<string>, action: Option<string>)
    : (o: Outcome<(Policy, Role)>)
    ensures o.st == st && o.result.Err?
    ensures AbacRules.RemovePolicyFromRoleTarget(st, roleId, policyId, resource, action).Ok? ==> o.result == Err(NullReference)
  {
    var target := AbacRules.RemovePolicyFromRoleTarget(st, roleId, policyId, resource, action);
    if target.Err? then Outcome(st, Err(target.error)) else Outcome(st, Err(NullReference))
  }

  /** removePolicyFromRole as intended: the transaction is run, deleting
      only the rows of the role with the policy's key. */
  function RemovePolicyFromRole(st: State, roleId: nat, policyId: Option<nat>, resource: Option<string>, action: Option<string>)
    : (o: Outcome<(Policy, Role)>)
    ensures AbacRules.CleanFailure(st, o)
    ensures o.result.Err? <==> AbacRules.RemovePolicyFromRoleTarget(st, roleId, policyId, resource, action).Err?
    ensures o.result.Ok? ==>
      var (p, role) := o.result.value;
      o.result == AbacRules.RemovePolicyFromRoleTarget(st, roleId, policyId, resource, action) &&
      roleId in o.st.roles && (forall q :: q in o.st.roles[roleId].policies <==> q in role.policies && q.id != p.id) &&
      (forall x :: x in o.st.denorm <==> x in st.denorm && !(x.policyMapKey == PolicyMapKey(p) && x.roleKey == Some(role.name)))
  {
    var target := AbacRules.RemovePolicyFromRoleTarget(st, roleId, policyId, resource, action);
    if target.Err? then Outcome(st, Err(target.error))
    else
      var (p, role) := target.value;
      DeleteWhereMembers(st.denorm, Where(None, Some(PolicyMapKey(p)), RoleNamed(role.name)));
      Outcome(Transactions.MongoRemovePolicyFromRoleByKey(st, role, p), Ok((p, role)))
  }

  // ------------------------------------------------------ createOrFindPolicy

  /** createOrFindPolicy: the stored pair, or createPolicy's result, errors
      included. */
  function CreateOrFindPolicy(st: State, resource: string, action: string): (o: Outcome<Policy>)
    ensures AbacRules.CleanFailure(st, o)
    ensures o.result.Ok? ==>
      o.result.value.resource == resource && o.result.value.action == action && StoredPolicy(o.st, o.result.value)
    ensures (forall id :: id in st.policies ==> id < st.nextId) ==> o.result.Ok?
  {
    var found := FindPolicyByPair(st, resource, action);
    if found.Some? then Outcome(st, Ok(found.value))
    else
      var c := AbacRules.CreatePolicy(st, resource, action);
      if c.result.Ok? then
        assert c.st.policies[st.nextId] == c.result.value;
        c
      else c
  }

  // ------------------------------------------------- convertWhereToMongoWhere

  /** A filter key as the document store names it. */
  function MongoKey(key: string): string
  {
    if key == "id" then "_id" else key
  }

  /** The clause built from a filter's entries, in order: each entry is
      stored under its renamed key, a later one replacing an earlier. */
  function WhereClause(entries: seq<(string, string)>): (r: map<string, string>)
    ensures forall k :: k in r <==> exists i :: 0 <= i < |entries| && MongoKey(entries[i].0) == k
  {
    if entries == [] then map[]
    else
      var n := |entries| - 1;
      var prefix := WhereClause(entries[..n]);
      assert forall i :: 0 <= i < n ==> entries[..n][i] == entries[i];
      prefix[MongoKey(entries[n].0) := entries[n].1]
  }

  /** The value under each key is that of the last entry renamed to it. */
  lemma {:induction false} WhereClauseValues(entries: seq<(string, string)>, i: nat)
    requires i < |entries|
    requires forall j :: i < j < |entries| ==> MongoKey(entries[j].0) != MongoKey(entries[i].0)
    ensures MongoKey(entries[i].0) in WhereClause(entries)
    ensures WhereClause(entries)[MongoKey(entries[i].0)] == entries[i].1
  {
    var n := |entries| - 1;
    if i < n {
      assert entries[..n][i] == entries[i];
      assert forall j :: i < j < n ==> entries[..n][j] == entries[j];
      WhereClauseValues(entries[..n], i);
    }
  }

  /** An absent filter gives the empty clause; "id" becomes "_id" and every
      other key is kept. */
  function ConvertWhere(filter: Option<seq<(string, string)>>): (r: map<string, string>)
    ensures filter.None? ==> r == map[]
    ensures filter.Some? ==> forall i :: 0 <= i < |filter.value| ==>
      MongoKey(filter.value[i].0) in r && "id" !in r
  {
    if filter.None? then map[] else WhereClause(filter.value)
  }
}
