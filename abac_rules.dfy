// What each operation of the SQL authorization service does: the checks it
// makes, in the order it makes them, and the transaction it then runs. Each
// function returns the state left behind together with the result; a
// rejected request leaves the state as it was.

module AbacRules {
  import opened Model
  import opened PolicyKey
  import opened Rows
  import Transactions
  import opened Queries

  /** A transaction error is rethrown when it is an HTTP exception and
      replaced by an internal server error otherwise. */
  function WrapUnlessHttp(e: Error): (r: Error)
    ensures IsHttpError(r) && (IsHttpError(e) ==> r == e)
  {
    if IsHttpError(e) then e else InternalServerError
  }

  /** A rejected request writes nothing. */
  predicate CleanFailure<T>(st: State, o: Outcome<T>)
  {
    o.result.Err? ==> o.st == st
  }

  // ---------------------------------------------------------- checkUserAccess

  /** The subject to check: the one given, or the stored user's. */
  function AccessSubject(st: State, subject: string, id: Option<nat>): Result<string>
  {
    if subject == "" && id.None? then Err(InvalidAccessRequest)
    else if subject != "" then Ok(subject)
    else if id.value !in st.users then Err(NullReference)
    else if st.users[id.value].subject == "" then Err(SubjectCannotBeEmpty)
    else Ok(st.users[id.value].subject)
  }

  /** The keys of the requested permissions. */
  function RequiredKeys(permissions: seq<Permission>): set<string>
  {
    set p | p in permissions :: PermissionKey(p)
  }

  /** The keys among `keys` that the index holds for `subject`. */
  function MatchingKeys(rows: seq<Row>, subject: string, keys: set<string>): set<string>
  {
    set x | x in rows && x.subject == subject && x.policyMapKey in keys :: x.policyMapKey
  }

  /** checkUserAccess: true when every requested key is among the subject's
      index rows. */
  function CheckUserAccess(st: State, subject: string, id: Option<nat>, permissions: seq<Permission>): (r: Result<bool>)
    ensures r.Err? <==> AccessSubject(st, subject, id).Err?
    ensures subject == "" && id.None? ==> r == Err(InvalidAccessRequest)
    ensures subject != "" ==> r.Ok?
    ensures subject == "" && id.Some? && id.value in st.users && st.users[id.value].subject == "" ==>
              r == Err(SubjectCannotBeEmpty)
  {
    var s := AccessSubject(st, subject, id);
    if s.Err? then Err(s.error)
    else
      var required := RequiredKeys(permissions);
      Ok(required <= MatchingKeys(st.denorm, s.value, required))
  }

  /** Access is granted exactly when the index has a row of the subject for
      each requested permission; an empty request is always granted. */
  lemma CheckUserAccessMeaning(st: State, subject: string, id: Option<nat>, permissions: seq<Permission>)
    ensures var r := CheckUserAccess(st, subject, id, permissions);
      r.Ok? ==> (r.value <==> forall p :: p in permissions ==>
                   HasRow(st.denorm, AccessSubject(st, subject, id).value, PermissionKey(p)))
  {
    var r := CheckUserAccess(st, subject, id, permissions);
    if r.Ok? {
      var s := AccessSubject(st, subject, id).value;
      var required := RequiredKeys(permissions);
      var matching := MatchingKeys(st.denorm, s, required);
      if r.value {
        forall p | p in permissions ensures HasRow(st.denorm, s, PermissionKey(p)) {
          assert PermissionKey(p) in required;
          assert PermissionKey(p) in matching;
          var x :| x in st.denorm && x.subject == s && x.policyMapKey in required && x.policyMapKey == PermissionKey(p);
        }
      }
      if forall p :: p in permissions ==> HasRow(st.denorm, s, PermissionKey(p)) {
        forall k | k in required ensures k in matching {
          var p :| p in permissions && PermissionKey(p) == k;
          assert HasRow(st.denorm, s, k);
          var x :| x in st.denorm && x.subject == s && x.policyMapKey == k;
        }
      }
    }
  }

  // --------------------------------------------------------- attachRoleToUser

  /** attachRoleToUser: the role must exist and hold policies and the user
      must have a subject; the transaction then records the role. */
  function AttachRoleToUser(st: State, user: User, roleId: nat, fetchOk: bool): (o: Outcome<bool>)
    ensures CleanFailure(st, o)
    ensures roleId !in st.roles ==> o.result == Err(RoleNotFound)
    ensures o.result.Ok? ==>
      roleId in st.roles && |st.roles[roleId].policies| > 0 && user.subject != "" &&
      user.subject in o.st.perms && roleId in o.st.perms[user.subject].roles
    ensures roleId in st.roles && |st.roles[roleId].policies| > 0 && user.subject != "" && fetchOk ==>
      (o.result.Ok? <==> !(user.subject in st.perms && roleId in st.perms[user.subject].roles))
    ensures o.result.Err? ==> IsHttpError(o.result.error)
  {
    if roleId !in st.roles then Outcome(st, Err(RoleNotFound))
    else
      var role := RoleAt(st, roleId);
      if |role.policies| == 0 then Outcome(st, Err(EmptyRole))
      else if user.subject == "" then Outcome(st, Err(SubjectCannotBeEmpty))
      else
        var t := Transactions.SqlAddRoleToUser(st, user.subject, role, fetchOk);
        if t.Err? then Outcome(st, Err(WrapUnlessHttp(t.error))) else Outcome(t.value, Ok(true))
  }

  /** attachRoleToUserById: look the user up first. */
  function AttachRoleToUserById(st: State, userId: nat, roleId: nat, fetchOk: bool): (o: Outcome<bool>)
    ensures CleanFailure(st, o)
    ensures userId !in st.users ==> o.result == Err(UserNotFound)
    ensures o.result.Ok? ==>
      userId in st.users && roleId in st.roles &&
      st.users[userId].subject in o.st.perms && roleId in o.st.perms[st.users[userId].subject].roles
  {
    if userId !in st.users then Outcome(st, Err(UserNotFound))
    else AttachRoleToUser(st, UserAt(st, userId), roleId, fetchOk)
  }

  // --------------------------------------------------------------- removeUser

  /** removeUser: the user's record and every index row of its subject go;
      the user record goes too when asked. */
  function RemoveUser(st: State, userId: nat, deleteUser: bool): (o: Outcome<User>)
    ensures CleanFailure(st, o)
    ensures o.result.Err? <==> UserSubject(st, userId).Err?
    ensures o.result.Ok? ==>
      var s := st.users[userId].subject;
      o.result.value == UserAt(st, userId) && s !in o.st.perms &&
      (forall x :: x in o.st.denorm ==> x.subject != s) &&
      (deleteUser <==> userId !in o.st.users)
  {
    var s := UserSubject(st, userId);
    if s.Err? then Outcome(st, Err(s.error))
    else
      var w := Where(Some(s.value), None, AnyRole);
      DeleteWhereMembers(st.denorm, w);
      Outcome(Transactions.RemoveUser(st, s.value, UserAt(st, userId), deleteUser), Ok(UserAt(st, userId)))
  }

  // ------------------------------------------------------------------ getters

  /** getRolesForUser: the stored roles the user's record lists; none when
      the user has no record. */
  function GetRolesForUser(st: State, userId: nat): (r: Result<seq<Role>>)
    ensures r.Err? <==> UserSubject(st, userId).Err?
    ensures r.Ok? ==> forall x :: x in r.value <==>
      var s := st.users[userId].subject;
      s in st.perms && exists id :: id in st.perms[s].roles && id in st.roles && x == st.roles[id].(id := id, policies := [])
  {
    var s := UserSubject(st, userId);
    if s.Err? then Err(s.error)
    else if s.value !in st.perms then Ok([])
    else
      var rs := RolesOf(st.roles, st.perms[s.value].roles);
      if |rs| == 0 then Ok([]) else Ok(rs)
  }

  /** getPoliciesForUser: the user's directly attached policies. */
  function GetPoliciesForUser(st: State, userId: nat): (r: Result<seq<Policy>>)
    ensures r.Err? <==> UserSubject(st, userId).Err?
    ensures r.Ok? ==> forall p :: p in r.value <==>
      var s := st.users[userId].subject;
      s in st.perms && p in st.perms[s].policies
  {
    var s := UserSubject(st, userId);
    if s.Err? then Err(s.error)
    else if s.value !in st.perms || |st.perms[s.value].policies| == 0 then Ok([])
    else Ok(st.perms[s.value].policies)
  }

  /** getPoliciesForRole: the role's policies. */
  function GetPoliciesForRole(st: State, roleId: nat): (r: Result<seq<Policy>>)
    ensures r.Err? <==> roleId !in st.roles
    ensures r.Err? ==> r.error == RoleNotFound
    ensures r.Ok? ==> r.value == st.roles[roleId].policies
  {
    if roleId !in st.roles then Err(RoleNotFound)
    else if |st.roles[roleId].policies| == 0 then Ok([])
    else Ok(st.roles[roleId].policies)
  }

  // ------------------------------------------------------- removeRoleFromUser

  /** removeRoleFromUser: the role and the user must exist, the user must
      have a subject and a record that holds the role. */
  function RemoveRoleFromUser(st: State, roleId: nat, userId: nat): (o: Outcome<bool>)
    ensures CleanFailure(st, o)
    ensures roleId !in st.roles ==> o.result == Err(RoleNotFound)
    ensures roleId in st.roles && UserSubject(st, userId).Err? ==> o.result == Err(UserSubject(st, userId).error)
    ensures o.result.Ok? ==>
      var s := st.users[userId].subject;
      roleId in st.roles && s in st.perms && roleId in st.perms[s].roles &&
      s in o.st.perms && roleId !in o.st.perms[s].roles &&
      (forall x :: x in o.st.denorm ==> !(x.subject == s && x.roleKey == Some(st.roles[roleId].name)))
  {
    if roleId !in st.roles then Outcome(st, Err(RoleNotFound))
    else
      var s := UserSubject(st, userId);
      if s.Err? then Outcome(st, Err(s.error))
      else if s.value !in st.perms then Outcome(st, Err(NullReference))
      else
        var role := RoleAt(st, roleId);
        if role.id !in st.perms[s.value].roles then Outcome(st, Err(RoleNotAttachedOnUser))
        else
          var t := Transactions.RemoveRoleFromUser(st, s.value, role);
          DeleteWhereMembers(st.denorm, Where(Some(s.value), None, RoleNamed(role.name)));
          if t.Err? then Outcome(st, Err(InternalServerError)) else Outcome(t.value, Ok(true))
  }

  // --------------------------------------------------------------- removeRole

  /** removeRole: refused while some record holds the role, unless forced;
      reports how many records held it. */
  function RemoveRole(st: State, roleId: nat, force: bool): (o: Outcome<(Role, nat)>)
    ensures CleanFailure(st, o)
    ensures roleId !in st.roles ==> o.result == Err(RoleNotFound)
    ensures roleId in st.roles ==> (o.result == Err(RoleAttachedOnUsers) <==> HolderCount(st.perms, roleId) > 0 && !force)
    ensures o.result.Ok? ==>
      var role := RoleAt(st, roleId);
      o.result.value == (role, HolderCount(st.perms, roleId)) && roleId !in o.st.roles &&
      (forall s :: s in o.st.perms ==> roleId !in o.st.perms[s].roles) &&
      (forall x :: x in o.st.denorm ==> x.roleKey != Some(role.name))
  {
    if roleId !in st.roles then Outcome(st, Err(RoleNotFound))
    else
      var count := HolderCount(st.perms, roleId);
      if count > 0 && !force then Outcome(st, Err(RoleAttachedOnUsers))
      else
        var role := RoleAt(st, roleId);
        DeleteWhereMembers(st.denorm, Where(None, None, RoleNamed(role.name)));
        Outcome(Transactions.SqlRemoveRole(st, role), Ok((role, count)))
  }

  /** removeRole as written: the count arrives as the rows of the raw
      COUNT query, a one-element array, which is truthy whatever the count
      says, so every removal without force is refused, held or not. */
  function RemoveRoleAsWritten(st: State, roleId: nat, force: bool): (o: Outcome<(Role, nat)>)
    ensures CleanFailure(st, o)
    ensures roleId !in st.roles ==> o.result == Err(RoleNotFound)
    ensures roleId in st.roles ==> (o.result == Err(RoleAttachedOnUsers) <==> !force)
    ensures force ==> o == RemoveRole(st, roleId, true)
  {
    if roleId !in st.roles then Outcome(st, Err(RoleNotFound))
    else if !force then Outcome(st, Err(RoleAttachedOnUsers))
    else RemoveRole(st, roleId, true)
  }

  /** A role nobody holds is refused as written and removed as intended. */
  lemma RemoveRoleAsWrittenRefusesUnheld()
    ensures var st := State(map[], map[1 := Role(1, "r", [])], map[], map[], [], 2);
      RemoveRoleAsWritten(st, 1, false).result == Err(RoleAttachedOnUsers) &&
      RemoveRole(st, 1, false).result == Ok((Role(1, "r", []), 0))
  {
    var st := State(map[], map[1 := Role(1, "r", [])], map[], map[], [], 2);
    assert (set s | s in st.perms && 1 in st.perms[s].roles) == {};
  }

  // --------------------------------------------------------------- createRole

  /** createRole: refused when a role of that name exists. */
  function CreateRole(st: State, name: string): (o: Outcome<Role>)
    ensures CleanFailure(st, o)
    ensures o.result.Err? <==> RoleNameTaken(st, name)
    ensures o.result.Err? ==> o.result.error == RoleExists
    ensures o.result.Ok? ==>
      o.result.value == Role(st.nextId, name, []) && st.nextId in o.st.roles && o.st.roles[st.nextId] == o.result.value &&
      RoleNameTaken(o.st, name) && o.st.nextId == st.nextId + 1
  {
    if RoleNameTaken(st, name) then Outcome(st, Err(RoleExists))
    else
      var role := Role(st.nextId, name, []);
      Outcome(st.(roles := st.roles[st.nextId := role], nextId := st.nextId + 1), Ok(role))
  }

  // ----------------------------------------------------- removePolicyFromRole

  /** The policy a request names: the one with the given id, or else the one
      with the given (resource, action); Err when the two disagree. */
  function NamedPolicy(st: State, policyId: Option<nat>, resource: Option<string>, action: Option<string>)
    : (r: Result<Option<Policy>>)
    ensures r.Err? ==> r.error == ConflictingPolicyData
    ensures r.Ok? && policyId.Some? && policyId.value in st.policies ==> r.value == Some(PolicyAt(st, policyId.value))
    ensures r.Ok? && r.value.Some? ==> StoredPolicy(st, r.value.value)
  {
    var policy := if policyId.Some? then FindPolicy(st, policyId.value) else None;
    var prev := if Given(resource) && Given(action) then FindPolicyByPair(st, resource.value, action.value) else None;
    if prev.Some? && policyId.Some? && policy.Some? && prev.value.id != policy.value.id then Err(ConflictingPolicyData)
    else if prev.Some? && policy.None? then Ok(prev)
    else Ok(policy)
  }

  /** The checks of removePolicyFromRole: the policy and the role must
      exist, the role must hold the policy and keep at least one other. */
  function RemovePolicyFromRoleTarget(st: State, roleId: nat, policyId: Option<nat>, resource: Option<string>, action: Option<string>)
    : (r: Result<(Policy, Role)>)
    ensures policyId.None? && !(Given(resource) && Given(action)) ==> r == Err(InsufficientPolicyData)
    ensures r.Ok? ==>
      var (p, role) := r.value;
      roleId in st.roles && role == RoleAt(st, roleId) && StoredPolicy(st, p) &&
      p.id in Ids(role.policies) && |role.policies| > 1 &&
      (policyId.Some? && policyId.value in st.policies ==> p == PolicyAt(st, policyId.value))
  {
    if policyId.None? && !(Given(resource) && Given(action)) then Err(InsufficientPolicyData)
    else
      var named := NamedPolicy(st, policyId, resource, action);
      if named.Err? then Err(named.error)
      else if named.value.None? then Err(PolicyNotFound)
      else if roleId !in st.roles then Err(RoleNotFound)
      else
        var p := named.value.value;
        var role := RoleAt(st, roleId);
        if p.id !in Ids(role.policies) then Err(PolicyNotAttachedOnRole)
        else if |role.policies| == 1 then Err(RoleCannotBeEmpty)
        else Ok((p, role))
  }

  /** removePolicyFromRole: after the checks the policy leaves the role, and
      the rows of the role with its key go. */
  function RemovePolicyFromRole(st: State, roleId: nat, policyId: Option<nat>, resource: Option<string>, action: Option<string>)
    : (o: Outcome<(Policy, Role)>)
    ensures CleanFailure(st, o)
    ensures o.result.Err? <==> RemovePolicyFromRoleTarget(st, roleId, policyId, resource, action).Err?
    ensures o.result.Ok? ==>
      var (p, role) := o.result.value;
      o.result == RemovePolicyFromRoleTarget(st, roleId, policyId, resource, action) &&
      roleId in o.st.roles && (forall q :: q in o.st.roles[roleId].policies <==> q in role.policies && q.id != p.id) &&
      (forall x :: x in o.st.denorm <==> x in st.denorm && !(x.policyMapKey == PolicyMapKey(p) && x.roleKey == Some(role.name)))
  {
    var target := RemovePolicyFromRoleTarget(st, roleId, policyId, resource, action);
    if target.Err? then Outcome(st, Err(target.error))
    else
      var (p, role) := target.value;
      DeleteWhereMembers(st.denorm, Where(None, Some(PolicyMapKey(p)), RoleNamed(role.name)));
      Outcome(Transactions.SqlRemovePolicyFromRole(st, role, p), Ok((p, role)))
  }

  // ------------------------------------------------------- attachPolicyToUser

  /** The checks of attachPolicyToUser: the user's subject and the policy to
      attach, which the subject must not already have a row for. */
  function AttachPolicyToUserTarget(st: State, userId: nat, policyId: Option<nat>, resource: Option<string>, action: Option<string>)
    : (r: Result<(string, Policy)>)
    ensures policyId.None? && !(Given(resource) && Given(action)) ==> r == Err(InsufficientPolicyData)
    ensures r.Ok? ==>
      UserSubject(st, userId) == Ok(r.value.0) && StoredPolicy(st, r.value.1) &&
      !HasRow(st.denorm, r.value.0, PolicyMapKey(r.value.1))
  {
    if policyId.None? && !(Given(resource) && Given(action)) then Err(InsufficientPolicyData)
    else
      var s := UserSubject(st, userId);
      if s.Err? then Err(s.error)
      else
        var named := NamedPolicy(st, policyId, resource, action);
        if named.Err? then Err(named.error)
        else if named.value.None? then Err(PolicyNotFound)
        else
          var p := named.value.value;
          var w := Where(Some(s.value), Some(PolicyMapKey(p)), AnyRole);
          CountWherePositive(st.denorm, w);
          if CountWhere(st.denorm, w) > 0 then Err(PolicyAlreadyAttachedOnUser)
          else
            CountWhereZero(st.denorm, w);
            Ok((s.value, p))
  }

  /** The record the service passes on: found without its relations. */
  function RecordOf(st: State, subject: string): Option<UserPermissions>
  {
    if subject in st.perms then Some(st.perms[subject]) else None
  }

  /** attachPolicyToUser as written: the record is loaded without its policy
      list, so the transaction saves it with the one new policy. */
  function AttachPolicyToUser(st: State, userId: nat, policyId: Option<nat>, resource: Option<string>, action: Option<string>)
    : (o: Outcome<UserPermissions>)
    ensures CleanFailure(st, o)
    ensures o.result.Err? <==> AttachPolicyToUserTarget(st, userId, policyId, resource, action).Err?
    ensures o.result.Ok? ==>
      var (s, p) := AttachPolicyToUserTarget(st, userId, policyId, resource, action).value;
      o.result.value.policies == [p] && s in o.st.perms && o.st.perms[s] == o.result.value &&
      o.st.denorm == st.denorm + [Row(s, PolicyMapKey(p), None)]
  {
    var target := AttachPolicyToUserTarget(st, userId, policyId, resource, action);
    if target.Err? then Outcome(st, Err(target.error))
    else
      var (s, p) := target.value;
      var t := Transactions.SqlAddPolicyToUser(st, s, Some(p), resource, action, RecordOf(st, s), false);
      match t
      case Ok((st', up)) => Outcome(st', Ok(up))
      case Err(e) => Outcome(st, Err(e))
  }

  /** attachPolicyToUser as intended: the policy joins the subject's direct
      list. */
  function AttachPolicyToUserAppend(st: State, userId: nat, policyId: Option<nat>, resource: Option<string>, action: Option<string>)
    : (o: Outcome<UserPermissions>)
    ensures CleanFailure(st, o)
    ensures o.result.Err? <==> AttachPolicyToUserTarget(st, userId, policyId, resource, action).Err?
    ensures o.result.Ok? ==>
      var (s, p) := AttachPolicyToUserTarget(st, userId, policyId, resource, action).value;
      var before := if s in st.perms then st.perms[s].policies else [];
      o.result.value.policies == before + [p] && s in o.st.perms && o.st.perms[s] == o.result.value &&
      o.st.denorm == st.denorm + [Row(s, PolicyMapKey(p), None)]
  {
    var target := AttachPolicyToUserTarget(st, userId, policyId, resource, action);
    if target.Err? then Outcome(st, Err(target.error))
    else
      var (s, p) := target.value;
      var t := Transactions.AddDirectPolicyToUser(st, s, Some(p), resource, action, RecordOf(st, s));
      match t
      case Ok((st', up)) => Outcome(st', Ok(up))
      case Err(e) => Outcome(st, Err(e))
  }

  /** Attaching a second policy as written drops the first from the user's
      list while its index row stays. */
  lemma AttachPolicyToUserOverwrites()
    ensures var p1 := Policy(1, "doc", "read");
      var p2 := Policy(2, "doc", "write");
      var st := State(map[1 := p1, 2 := p2], map[],
                      map["u" := UserPermissions("u", [], [p1])], map[7 := User(7, "u")],
                      [Row("u", PolicyMapKey(p1), None)], 3);
      var o := AttachPolicyToUser(st, 7, Some(2), None, None);
      o.result.Ok? && p1 !in o.st.perms["u"].policies && HasRow(o.st.denorm, "u", PolicyMapKey(p1)) &&
      var c := AttachPolicyToUserAppend(st, 7, Some(2), None, None);
      c.result.Ok? && c.st.perms["u"].policies == [p1, p2]
  {
    var p1 := Policy(1, "doc", "read");
    var p2 := Policy(2, "doc", "write");
    var st := State(map[1 := p1, 2 := p2], map[],
                    map["u" := UserPermissions("u", [], [p1])], map[7 := User(7, "u")],
                    [Row("u", PolicyMapKey(p1), None)], 3);
    assert PolicyMapKey(p1) != PolicyMapKey(p2) by {
      assert PolicyMapKey(p1)[5] == 'r';
      assert PolicyMapKey(p2)[5] == 'w';
    }
    var w := Where(Some("u"), Some(PolicyMapKey(p2)), AnyRole);
    assert CountWhere(st.denorm, w) == 0 by {
      assert !Matches(st.denorm[0], w);
      assert st.denorm[1..] == [];
    }
    var o := AttachPolicyToUser(st, 7, Some(2), None, None);
    assert o.st.denorm[0] == Row("u", PolicyMapKey(p1), None);
  }

  // ----------------------------------------------------- removePolicyFromUser

  /** The checks of removePolicyFromUser: the user's subject and a policy its
      record holds directly. */
  function RemovePolicyFromUserTarget(st: State, userId: nat, policyId: nat): (r: Result<(string, Policy)>)
    ensures UserSubject(st, userId).Err? ==> r == Err(UserSubject(st, userId).error)
    ensures r.Ok? ==>
      UserSubject(st, userId) == Ok(r.value.0) && policyId in st.policies && r.value.1 == PolicyAt(st, policyId) &&
      r.value.0 in st.perms && r.value.1.id in Ids(st.perms[r.value.0].policies)
  {
    var s := UserSubject(st, userId);
    if s.Err? then Err(s.error)
    else if policyId !in st.policies then Err(PolicyNotFound)
    else
      var p := PolicyAt(st, policyId);
      if s.value !in st.perms || p.id !in Ids(st.perms[s.value].policies) then Err(PolicyNotAttachedOnUser)
      else Ok((s.value, p))
  }

  /** removePolicyFromUser as written: every row of the subject with the
      policy's key goes, role-granted ones included. */
  function RemovePolicyFromUser(st: State, userId: nat, policyId: nat): (o: Outcome<bool>)
    ensures CleanFailure(st, o)
    ensures o.result.Err? <==> RemovePolicyFromUserTarget(st, userId, policyId).Err?
    ensures o.result.Ok? ==>
      var (s, p) := RemovePolicyFromUserTarget(st, userId, policyId).value;
      !HasRow(o.st.denorm, s, PolicyMapKey(p)) && s in o.st.perms &&
      (forall q :: q in o.st.perms[s].policies <==> q in st.perms[s].policies && q.id != p.id)
  {
    var target := RemovePolicyFromUserTarget(st, userId, policyId);
    if target.Err? then Outcome(st, Err(target.error))
    else
      var (s, p) := target.value;
      DeleteWhereMembers(st.denorm, Where(Some(s), Some(PolicyMapKey(p)), AnyRole));
      var t := Transactions.RemovePolicyFromUser(st, s, p);
      if t.Err? then Outcome(st, Err(InternalServerError)) else Outcome(t.value, Ok(true))
  }

  /** removePolicyFromUser as intended: only the direct row goes. */
  function RemoveDirectPolicyFromUser(st: State, userId: nat, policyId: nat): (o: Outcome<bool>)
    ensures CleanFailure(st, o)
    ensures o.result.Err? <==> RemovePolicyFromUserTarget(st, userId, policyId).Err?
    ensures o.result.Ok? ==>
      var (s, p) := RemovePolicyFromUserTarget(st, userId, policyId).value;
      (forall x :: x in o.st.denorm <==> x in st.denorm && !(x.subject == s && x.policyMapKey == PolicyMapKey(p) && x.roleKey.None?)) &&
      s in o.st.perms && (forall q :: q in o.st.perms[s].policies <==> q in st.perms[s].policies && q.id != p.id)
  {
    var target := RemovePolicyFromUserTarget(st, userId, policyId);
    if target.Err? then Outcome(st, Err(target.error))
    else
      var (s, p) := target.value;
      DeleteWhereMembers(st.denorm, Where(Some(s), Some(PolicyMapKey(p)), NoRole));
      var t := Transactions.RemoveDirectPolicyFromUser(st, s, p);
      if t.Err? then Outcome(st, Err(InternalServerError)) else Outcome(t.value, Ok(true))
  }

  // ------------------------------------------------------- attachPolicyToRole

  /** attachPolicyToRole: the role must exist; a stored pair with another id
      than the one given is refused; the transaction creates the policy when
      none is found. */
  function AttachPolicyToRole(st: State, roleId: nat, policyId: Option<nat>, resource: Option<string>, action: Option<string>)
    : (o: Outcome<(Role, Policy)>)
    ensures CleanFailure(st, o)
    ensures policyId.None? && !(Given(resource) && Given(action)) ==> o.result == Err(InsufficientPolicyData)
    ensures policyId.Some? || (Given(resource) && Given(action)) ==>
      (roleId !in st.roles ==> o.result == Err(RoleNotFound))
    ensures o.result.Ok? ==>
      var (role', p) := o.result.value;
      roleId in st.roles && role'.policies == st.roles[roleId].policies + [p] &&
      p.id !in Ids(st.roles[roleId].policies) && roleId in o.st.roles && o.st.roles[roleId] == role'
    // the policy attached: the one the id names, else the stored pair, else a new one
    ensures o.result.Ok? ==>
      var p := o.result.value.1;
      (policyId.Some? && policyId.value in st.policies ==> p == PolicyAt(st, policyId.value)) &&
      (policyId.None? ==>
         p.resource == resource.value && p.action == action.value &&
         (StoredPolicy(st, p) || p == Policy(st.nextId, resource.value, action.value)) &&
         ((forall id :: id in st.policies ==> id < st.nextId) && PairStored(st, resource.value, action.value) ==> StoredPolicy(st, p)))
    // every distinct holder of the role gains the policy's row, and no row goes
    ensures o.result.Ok? ==>
      var name := st.roles[roleId].name;
      o.st.denorm == st.denorm + FanOutRows(Dedup(SubjectsWithRole(st.denorm, name)), PolicyMapKey(o.result.value.1), name)
  {
    if policyId.None? && !(Given(resource) && Given(action)) then Outcome(st, Err(InsufficientPolicyData))
    else
      var prev := if Given(resource) && Given(action) then FindPolicyByPair(st, resource.value, action.value) else None;
      var policy := if policyId.Some? then FindPolicy(st, policyId.value) else None;
      if roleId !in st.roles then Outcome(st, Err(RoleNotFound))
      else if prev.Some? && policyId.Some? && prev.value.id != policyId.value then Outcome(st, Err(PolicyExists))
      else if prev.Some? && policyId.Some? && policy.Some? && prev.value.id != policy.value.id then
        Outcome(st, Err(ConflictingPolicyData))
      else
        var p := if prev.Some? && policy.None? then prev else policy;
        var t := Transactions.SqlAddPolicyToRole(st, resource, action, p, RoleAt(st, roleId));
        match t
      case Ok((st', up)) => Outcome(st', Ok(up))
      case Err(e) => Outcome(st, Err(e))
  }

  /** The conflicting-data check of attachPolicyToRole can never fire: the
      check before it already refuses every case it would catch. */
  lemma AttachPolicyToRoleNeverConflicting(st: State, roleId: nat, policyId: Option<nat>, resource: Option<string>, action: Option<string>)
    ensures AttachPolicyToRole(st, roleId, policyId, resource, action).result != Err(ConflictingPolicyData)
  {
  }

  // ------------------------------------------------------------- createPolicy

  /** createPolicy as written: after the duplicate check the policy is saved
      through the role repository, into the role table, which the store
      refuses. */
  function CreatePolicyAsWritten(st: State, resource: string, action: string): (o: Outcome<Policy>)
    ensures o.st == st
    ensures o.result.Err?
    ensures PairStored(st, resource, action) <==> o.result == Err(PolicyExists)
  {
    if PairStored(st, resource, action) then Outcome(st, Err(PolicyExists))
    else Outcome(st, Err(StoreFailure))
  }

  /** createPolicy as intended: a new policy unless the pair is stored. */
  function CreatePolicy(st: State, resource: string, action: string): (o: Outcome<Policy>)
    ensures CleanFailure(st, o)
    ensures o.result.Err? <==> PairStored(st, resource, action)
    ensures o.result.Err? ==> o.result.error == PolicyExists
    ensures o.result.Ok? ==>
      o.result.value == Policy(st.nextId, resource, action) &&
      o.st.policies == st.policies[st.nextId := o.result.value] && o.st.nextId == st.nextId + 1 &&
      PairStored(o.st, resource, action)
  {
    if PairStored(st, resource, action) then Outcome(st, Err(PolicyExists))
    else
      var (st1, p) := NewPolicy(st, resource, action);
      assert st1.policies[st.nextId] == p;
      Outcome(st1, Ok(p))
  }

  /** createOrFindPolicy: the stored policy with the pair, or a new one; a
      failed creation is swallowed and gives no policy. */
  function CreateOrFindPolicy(st: State, resource: string, action: string): (o: Outcome<Option<Policy>>)
    ensures o.result.Ok?
    ensures o.result.value.Some? ==>
      o.result.value.value.resource == resource && o.result.value.value.action == action &&
      StoredPolicy(o.st, o.result.value.value)
    ensures (forall id :: id in st.policies ==> id < st.nextId) ==> o.result.value.Some?
  {
    var found := FindPolicyByPair(st, resource, action);
    if found.Some? then Outcome(st, Ok(found))
    else
      var c := CreatePolicy(st, resource, action);
      if c.result.Err? then Outcome(st, Ok(None))
      else
        assert c.st.policies[st.nextId] == c.result.value;
        Outcome(c.st, Ok(Some(c.result.value)))
  }

  /** The creations keep every identifier below the next free one, so the
      hypothesis under which createOrFindPolicy returns a policy holds in
      every state they reach from one where it holds. */
  lemma CreationsKeepIdsBelowNext(st: State, resource: string, action: string, name: string)
    requires IdsBelowNext(st)
    ensures IdsBelowNext(CreatePolicy(st, resource, action).st)
    ensures IdsBelowNext(CreateOrFindPolicy(st, resource, action).st)
    ensures IdsBelowNext(CreateRole(st, name).st)
    ensures st.nextId !in st.roles
  {
    NewPolicyKeepsIdsBelowNext(st, resource, action);
  }

  /** createOrFindPolicy over createPolicy as written: a pair that is not
      stored yet gives no policy, and nothing is written. */
  function CreateOrFindPolicyAsWritten(st: State, resource: string, action: string): (o: Outcome<Option<Policy>>)
    ensures o.st == st && o.result.Ok?
    ensures o.result.value.Some? <==> FindPolicyByPair(st, resource, action).Some?
    ensures o.result.value.Some? ==> o.result.value.value.resource == resource && o.result.value.value.action == action
  {
    var found := FindPolicyByPair(st, resource, action);
    if found.Some? then Outcome(st, Ok(found))
    else
      // the creation always fails, and its error is swallowed
      var c := CreatePolicyAsWritten(st, resource, action);
      Outcome(c.st, Ok(None))
  }

  /** With createPolicy as written, a pair that is not stored yet gives no
      policy at all. */
  lemma CreateOrFindPolicyAsWrittenFails()
    ensures var st := State(map[], map[], map[], map[], [], 1);
      CreatePolicyAsWritten(st, "doc", "read").result == Err(StoreFailure) &&
      CreatePolicy(st, "doc", "read").result == Ok(Policy(1, "doc", "read"))
  {
  }
}
