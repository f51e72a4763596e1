// The SQL authorization service: one method per public operation, over a
// store it shares with the transactions. Each method is proved to leave the
// state and give the result that the matching function of AbacRules
// describes; the methods follow the code as written, so where that code
// and the intended behaviour differ they meet the AsWritten function.

module AbacService {
  import opened Model
  import opened PolicyKey
  import opened Rows
  import opened Queries
  import AbacRules
  import Store

  class AuthorizationService {
    const store: Store.Store

    constructor(store: Store.Store)
      ensures this.store == store
    {
      this.store := store;
    }

    /** checkUserAccess: the requested keys are collected into a set, the
        subject's rows with those keys are read, and the keys are checked in
        the order they were first requested. */
    method CheckUserAccess(subject: string, id: Option<nat>, permissions: seq<Permission>) returns (r: Result<bool>)
      ensures r == AbacRules.CheckUserAccess(store.State(), subject, id, permissions)
    {
      var s := AbacRules.AccessSubject(store.State(), subject, id);
      if s.Err? {
        return Err(s.error);
      }
      var required: set<string> := {};
      var order: seq<string> := [];
      var i := 0;
      while i < |permissions|
        invariant 0 <= i <= |permissions|
        invariant required == AbacRules.RequiredKeys(permissions[..i])
        invariant forall k :: k in order <==> k in required
      {
        var key := PermissionKey(permissions[i]);
        if key !in required {
          order := order + [key];
        }
        required := required + {key};
        assert permissions[..i + 1] == permissions[..i] + [permissions[i]];
        i := i + 1;
      }
      assert permissions[..i] == permissions;
      var rows := store.denorm;
      var found: set<string> := {};
      var j := 0;
      while j < |rows|
        invariant 0 <= j <= |rows|
        invariant found == AbacRules.MatchingKeys(rows[..j], s.value, required)
      {
        if rows[j].subject == s.value && rows[j].policyMapKey in required {
          found := found + {rows[j].policyMapKey};
        }
        assert rows[..j + 1] == rows[..j] + [rows[j]];
        j := j + 1;
      }
      assert rows[..j] == rows;
      var n := 0;
      while n < |order|
        invariant 0 <= n <= |order|
        invariant forall m :: 0 <= m < n ==> order[m] in found
      {
        if order[n] !in found {
          return Ok(false);
        }
        n := n + 1;
      }
      return Ok(true);
    }

    method AttachRoleToUser(user: User, roleId: nat, fetchOk: bool) returns (r: Result<bool>)
      modifies store
      ensures var o := AbacRules.AttachRoleToUser(old(store.State()), user, roleId, fetchOk);
        store.State() == o.st && r == o.result
    {
      var role := FindRole(store.State(), roleId);
      if role.None? {
        return Err(RoleNotFound);
      }
      if |role.value.policies| == 0 {
        return Err(EmptyRole);
      }
      if user.subject == "" {
        return Err(SubjectCannotBeEmpty);
      }
      var t := store.SqlAddRoleToUser(user.subject, role.value, fetchOk);
      if t.Err? {
        return Err(AbacRules.WrapUnlessHttp(t.error));
      }
      return Ok(true);
    }

    method AttachRoleToUserById(userId: nat, roleId: nat, fetchOk: bool) returns (r: Result<bool>)
      modifies store
      ensures var o := AbacRules.AttachRoleToUserById(old(store.State()), userId, roleId, fetchOk);
        store.State() == o.st && r == o.result
    {
      if userId !in store.users {
        return Err(UserNotFound);
      }
      r := AttachRoleToUser(UserAt(store.State(), userId), roleId, fetchOk);
    }

    method RemoveUser(userId: nat, deleteUser: bool) returns (r: Result<User>)
      modifies store
      ensures var o := AbacRules.RemoveUser(old(store.State()), userId, deleteUser);
        store.State() == o.st && r == o.result
    {
      var s := UserSubject(store.State(), userId);
      if s.Err? {
        return Err(s.error);
      }
      var user := UserAt(store.State(), userId);
      var _ := store.SqlRemoveUser(s.value, user, deleteUser);
      return Ok(user);
    }

    method GetRolesForUser(userId: nat) returns (r: Result<seq<Role>>)
      ensures r == AbacRules.GetRolesForUser(store.State(), userId)
    {
      var s := UserSubject(store.State(), userId);
      if s.Err? {
        return Err(s.error);
      }
      if s.value !in store.perms {
        return Ok([]);
      }
      var roles := RolesOf(store.roles, store.perms[s.value].roles);
      if |roles| == 0 {
        return Ok([]);
      }
      return Ok(roles);
    }

    method GetPoliciesForUser(userId: nat) returns (r: Result<seq<Policy>>)
      ensures r == AbacRules.GetPoliciesForUser(store.State(), userId)
    {
      var s := UserSubject(store.State(), userId);
      if s.Err? {
        return Err(s.error);
      }
      if s.value !in store.perms || |store.perms[s.value].policies| == 0 {
        return Ok([]);
      }
      return Ok(store.perms[s.value].policies);
    }

    method GetPoliciesForRole(roleId: nat) returns (r: Result<seq<Policy>>)
      ensures r == AbacRules.GetPoliciesForRole(store.State(), roleId)
    {
      var role := FindRole(store.State(), roleId);
      if role.None? {
        return Err(RoleNotFound);
      }
      if |role.value.policies| == 0 {
        return Ok([]);
      }
      return Ok(role.value.policies);
    }

    method RemoveRoleFromUser(roleId: nat, userId: nat) returns (r: Result<bool>)
      modifies store
      ensures var o := AbacRules.RemoveRoleFromUser(old(store.State()), roleId, userId);
        store.State() == o.st && r == o.result
    {
      var role := FindRole(store.State(), roleId);
      if role.None? {
        return Err(RoleNotFound);
      }
      var s := UserSubject(store.State(), userId);
      if s.Err? {
        return Err(s.error);
      }
      if s.value !in store.perms {
        return Err(NullReference);
      }
      if role.value.id !in store.perms[s.value].roles {
        return Err(RoleNotAttachedOnUser);
      }
      var t := store.SqlRemoveRoleFromUser(s.value, role.value);
      if t.Err? {
        return Err(InternalServerError);
      }
      return Ok(true);
    }

    /** removeRole as written: the raw count result is always truthy. */
    method RemoveRole(roleId: nat, force: bool) returns (r: Result<(Role, nat)>)
      modifies store
      ensures var o := AbacRules.RemoveRoleAsWritten(old(store.State()), roleId, force);
        store.State() == o.st && r == o.result
    {
      var role := FindRole(store.State(), roleId);
      var count := HolderCount(store.perms, roleId);
      if role.None? {
        return Err(RoleNotFound);
      }
      if !force {
        return Err(RoleAttachedOnUsers);
      }
      var _ := store.SqlRemoveRole(role.value);
      return Ok((role.value, count));
    }

    method CreateRole(name: string) returns (r: Result<Role>)
      modifies store
      ensures var o := AbacRules.CreateRole(old(store.State()), name);
        store.State() == o.st && r == o.result
    {
      if RoleNameTaken(store.State(), name) {
        return Err(RoleExists);
      }
      var role := store.CreateRole(name);
      return Ok(role);
    }

    method RemovePolicyFromRole(roleId: nat, policyId: Option<nat>, resource: Option<string>, action: Option<string>)
      returns (r: Result<(Policy, Role)>)
      modifies store
      ensures var o := AbacRules.RemovePolicyFromRole(old(store.State()), roleId, policyId, resource, action);
        store.State() == o.st && r == o.result
    {
      var target := AbacRules.RemovePolicyFromRoleTarget(store.State(), roleId, policyId, resource, action);
      if target.Err? {
        return Err(target.error);
      }
      var (p, role) := target.value;
      var _ := store.SqlRemovePolicyFromRole(role, p);
      return Ok((p, role));
    }

    /** attachPolicyToUser as written. */
    method AttachPolicyToUser(userId: nat, policyId: Option<nat>, resource: Option<string>, action: Option<string>)
      returns (r: Result<UserPermissions>)
      modifies store
      ensures var o := AbacRules.AttachPolicyToUser(old(store.State()), userId, policyId, resource, action);
        store.State() == o.st && r == o.result
    {
      var target := AbacRules.AttachPolicyToUserTarget(store.State(), userId, policyId, resource, action);
      if target.Err? {
        return Err(target.error);
      }
      var (s, p) := target.value;
      // the record is read without its relations
      var existing := AbacRules.RecordOf(store.State(), s);
      r := store.SqlAddPolicyToUser(s, Some(p), resource, action, existing, false);
    }

    /** removePolicyFromUser as written. */
    method RemovePolicyFromUser(userId: nat, policyId: nat) returns (r: Result<bool>)
      modifies store
      ensures var o := AbacRules.RemovePolicyFromUser(old(store.State()), userId, policyId);
        store.State() == o.st && r == o.result
    {
      var target := AbacRules.RemovePolicyFromUserTarget(store.State(), userId, policyId);
      if target.Err? {
        return Err(target.error);
      }
      var (s, p) := target.value;
      var t := store.SqlRemovePolicyFromUser(s, p);
      if t.Err? {
        return Err(InternalServerError);
      }
      return Ok(true);
    }

    method AttachPolicyToRole(roleId: nat, policyId: Option<nat>, resource: Option<string>, action: Option<string>)
      returns (r: Result<(Role, Policy)>)
      modifies store
      ensures var o := AbacRules.AttachPolicyToRole(old(store.State()), roleId, policyId, resource, action);
        store.State() == o.st && r == o.result
    {
      if policyId.None? && !(Given(resource) && Given(action)) {
        return Err(InsufficientPolicyData);
      }
      var prev := if Given(resource) && Given(action) then FindPolicyByPair(store.State(), resource.value, action.value) else None;
      var role := FindRole(store.State(), roleId);
      var policy := if policyId.Some? then FindPolicy(store.State(), policyId.value) else None;
      if role.None? {
        return Err(RoleNotFound);
      }
      if prev.Some? && policyId.Some? && prev.value.id != policyId.value {
        return Err(PolicyExists);
      }
      if prev.Some? && policyId.Some? && policy.Some? && prev.value.id != policy.value.id {
        return Err(ConflictingPolicyData);
      }
      if prev.Some? && policy.None? {
        policy := prev;
      }
      r := store.SqlAddPolicyToRole(resource, action, policy, role.value);
    }

    /** createPolicy as written. */
    method CreatePolicy(resource: string, action: string) returns (r: Result<Policy>)
      ensures r == AbacRules.CreatePolicyAsWritten(store.State(), resource, action).result
    {
      if PairStored(store.State(), resource, action) {
        return Err(PolicyExists);
      }
      // saved through the role repository, into the role table
      return Err(StoreFailure);
    }

    /** createOrFindPolicy, over createPolicy as written. */
    method CreateOrFindPolicy(resource: string, action: string) returns (r: Result<Option<Policy>>)
      ensures r == AbacRules.CreateOrFindPolicyAsWritten(store.State(), resource, action).result
    {
      var found := FindPolicyByPair(store.State(), resource, action);
      if found.Some? {
        return Ok(found);
      }
      // the creation fails whatever the pair, and its error is swallowed
      var _ := CreatePolicy(resource, action);
      return Ok(None);
    }
  }
}
