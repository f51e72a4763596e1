// The document-store (Mongo) authorization service: one method per public
// operation, over the same store as the transactions. Each method is proved
// to leave the state and give the result that the matching MongoRules (or,
// where the two services agree, AbacRules) function describes; the methods
// follow the code as written.

module MongoService {
  import opened Model
  import opened PolicyKey
  import opened Rows
  import opened Queries
  import AbacRules
  import MongoRules
  import Store

  class AuthorizationMongoService {
    const store: Store.Store

    constructor(store: Store.Store)
      ensures this.store == store
    {
      this.store := store;
    }

    method CheckUserAccess(subject: string, id: Option<nat>, permissions: seq<Permission>) returns (r: bool)
      ensures r == MongoRules.CheckUserAccess(store.State(), subject, id, permissions)
      ensures !r
    {
      return false;
    }

    /** attachRoleToUser: the record's roles are scanned one by one, and a
        match throws out of the scan. */
    method AttachRoleToUser(user: User, roleId: nat) returns (r: Result<bool>)
      modifies store
      ensures var o := MongoRules.AttachRoleToUser(old(store.State()), user, roleId);
        store.State() == o.st && r == o.result
    {
      if user.subject == "" {
        return Err(SubjectCannotBeEmpty);
      }
      var role := FindRole(store.State(), roleId);
      if role.None? {
        return Err(RoleNotFound);
      }
      if user.subject in store.perms {
        var held := store.perms[user.subject].roles;
        var i := 0;
        while i < |held|
          invariant 0 <= i <= |held|
          invariant forall k :: 0 <= k < i ==> held[k] != roleId
        {
          if held[i] == roleId {
            return Err(RoleAlreadyExistsOnUser);
          }
          i := i + 1;
        }
      }
      var _ := store.MongoAddRoleToUser(user.subject, role.value, role.value.policies);
      return Ok(true);
    }

    method AttachRoleToUserById(userId: nat, roleId: nat) returns (r: Result<bool>)
      modifies store
      ensures var o := MongoRules.AttachRoleToUserById(old(store.State()), userId, roleId);
        store.State() == o.st && r == o.result
    {
      if userId !in store.users {
        return Err(UserNotFound);
      }
      r := AttachRoleToUser(UserAt(store.State(), userId), roleId);
    }

    method AttachPolicyToUser(userId: nat, policyId: Option<nat>, resource: Option<string>, action: Option<string>)
      returns (r: Result<UserPermissions>)
      modifies store
      ensures var o := MongoRules.AttachPolicyToUser(old(store.State()), userId, policyId, resource, action);
        store.State() == o.st && r == o.result
    {
      var target := MongoRules.AttachPolicyToUserTarget(store.State(), userId, policyId, resource, action);
      if target.Err? {
        return Err(target.error);
      }
      var (s, p) := target.value;
      var existing := AbacRules.RecordOf(store.State(), s);
      r := store.MongoAddPolicyToUser(s, Some(p), resource, action, existing);
    }

    method RemovePolicyFromUser(userId: nat, policyId: nat) returns (r: Result<bool>)
      modifies store
      ensures var o := MongoRules.RemovePolicyFromUser(old(store.State()), userId, policyId);
        store.State() == o.st && r == o.result
    {
      var target := MongoRules.RemovePolicyFromUserTarget(store.State(), userId, policyId);
      if target.Err? {
        return Err(target.error);
      }
      var (s, p) := target.value;
      var t := store.MongoRemovePolicyFromUser(s, p);
      if t.Err? {
        return Err(InternalServerError);
      }
      return Ok(true);
    }

    /** getPoliciesForUser as written. */
    method GetPoliciesForUser(userId: nat) returns (r: Result<seq<Policy>>)
      ensures r == MongoRules.GetPoliciesForUserAsWritten(store.State(), userId)
    {
      var s := UserSubject(store.State(), userId);
      if s.Err? {
        return Err(s.error);
      }
      if s.value in store.perms && |store.perms[s.value].policies| > 0 {
        return Ok([]);
      }
      if s.value !in store.perms {
        return Err(NullReference);
      }
      // the lookup by the empty list of identifiers
      return Ok([]);
    }

    /** getRolesForUser as written. */
    method GetRolesForUser(userId: nat) returns (r: Result<seq<Role>>)
      ensures r == MongoRules.GetRolesForUserAsWritten(store.State(), userId)
    {
      var s := UserSubject(store.State(), userId);
      if s.Err? {
        return Err(s.error);
      }
      if s.value in store.perms && |store.perms[s.value].roles| > 0 {
        return Ok([]);
      }
      if s.value !in store.perms {
        return Err(NullReference);
      }
      return Ok(RoleDocumentsOf(store.roles, store.perms[s.value].roles));
    }

    method RemoveUser(userId: nat, deleteUser: bool) returns (r: Result<User>)
      modifies store
      ensures var o := AbacRules.RemoveUser(old(store.State()), userId, deleteUser);
        store.State() == o.st && r == o.result
    {
      var s := UserSubject(store.State(), userId);
      if s.Err? {
        return Err(s.error);
      }
      var user := UserAt(store.State(), userId);
      var t := store.MongoRemoveUser(s.value, user, deleteUser);
      if t.Err? {
        return Err(InternalServerError);
      }
      return Ok(user);
    }

    /** removeRole as written: the transaction it runs was never set. */
    method RemoveRole(roleId: nat, force: bool) returns (r: Result<(Role, nat)>)
      ensures r == MongoRules.RemoveRoleAsWritten(store.State(), roleId, force).result
    {
      var role := FindRole(store.State(), roleId);
      var count := HolderCount(store.perms, roleId);
      if role.None? {
        return Err(RoleNotFound);
      }
      if count > 0 && !force {
        return Err(RoleAttachedOnUsers);
      }
      return Err(InternalServerError);
    }

    method CreatePolicy(resource: string, action: string) returns (r: Result<Policy>)
      modifies store
      ensures var o := AbacRules.CreatePolicy(old(store.State()), resource, action);
        store.State() == o.st && r == o.result
    {
      if PairStored(store.State(), resource, action) {
        return Err(PolicyExists);
      }
      var p := store.CreatePolicy(resource, action);
      return Ok(p);
    }

    method CreateOrFindPolicy(resource: string, action: string) returns (r: Result<Policy>)
      modifies store
      ensures var o := MongoRules.CreateOrFindPolicy(old(store.State()), resource, action);
        store.State() == o.st && r == o.result
    {
      var found := FindPolicyByPair(store.State(), resource, action);
      if found.Some? {
        return Ok(found.value);
      }
      r := CreatePolicy(resource, action);
    }

    method CreateRole(name: string) returns (r: Result<Role>)
      modifies store
      ensures var o := AbacRules.CreateRole(old(store.State()), name);
        store.State() == o.st && r == o.result
    {
      if RoleNameTaken(store.State(), name) {
        return Err(RoleExists);
      }
      var role := store.CreateRole(name);
      return Ok(role);
    }

    method GetRole(roleId: nat) returns (r: Result<Role>)
      ensures r == MongoRules.GetRole(store.State(), roleId)
    {
      var role := FindRole(store.State(), roleId);
      if role.None? {
        return Err(RoleNotFound);
      }
      return Ok(role.value);
    }

    method RemoveRoleFromUser(roleId: nat, userId: nat) returns (r: Result<bool>)
      modifies store
      ensures var o := MongoRules.RemoveRoleFromUser(old(store.State()), roleId, userId);
        store.State() == o.st && r == o.result
    {
      var role := FindRole(store.State(), roleId);
      if role.None? {
        return Err(RoleNotFound);
      }
      var s := UserSubject(store.State(), userId);
      if s.Err? {
        return Err(s.error);
      }
      if s.value !in store.perms || roleId !in store.perms[s.value].roles {
        return Err(RoleNotAttachedOnUser);
      }
      var t := store.MongoRemoveRoleFromUser(s.value, role.value);
      return t;
    }

    method AttachPolicyToRole(roleId: nat, policyId: Option<nat>, resource: Option<string>, action: Option<string>)
      returns (r: Result<(Role, Policy)>)
      modifies store
      ensures var o := MongoRules.AttachPolicyToRole(old(store.State()), roleId, policyId, resource, action);
        store.State() == o.st && r == o.result
    {
      if policyId.None? && !(Given(resource) && Given(action)) {
        return Err(InsufficientPolicyData);
      }
      var prev := if Given(resource) && Given(action) then FindPolicyByPair(store.State(), resource.value, action.value) else None;
      var role := FindRole(store.State(), roleId);
      var policy := if policyId.Some? then FindPolicy(store.State(), policyId.value) else None;
      if role.None? {
        return Err(RoleNotFound);
      }
      if prev.Some? && policyId.Some? && policy.Some? && prev.value.id != policy.value.id {
        return Err(ConflictingPolicyData);
      }
      r := store.MongoAddPolicyToRole(resource, action, policy, role.value);
    }

    /** removePolicyFromRole as written: the transaction it runs was never
        set. */
    method RemovePolicyFromRole(roleId: nat, policyId: Option<nat>, resource: Option<string>, action: Option<string>)
      returns (r: Result<(Policy, Role)>)
      ensures r == MongoRules.RemovePolicyFromRoleAsWritten(store.State(), roleId, policyId, resource, action).result
    {
      var target := AbacRules.RemovePolicyFromRoleTarget(store.State(), roleId, policyId, resource, action);
      if target.Err? {
        return Err(target.error);
      }
      return Err(NullReference);
    }

    /** convertWhereToMongoWhereClause: the filter's entries in order, "id"
        renamed to "_id". */
    method ConvertWhere(filter: Option<seq<(string, string)>>) returns (clause: map<string, string>)
      ensures clause == MongoRules.ConvertWhere(filter)
    {
      clause := map[];
      if filter.None? {
        return;
      }
      var entries := filter.value;
      var i := 0;
      while i < |entries|
        invariant 0 <= i <= |entries|
        invariant clause == MongoRules.WhereClause(entries[..i])
      {
        var key := entries[i].0;
        if key == "id" {
          key := "_id";
        }
        assert entries[..i + 1][..i] == entries[..i];
        clause := clause[key := entries[i].1];
        i := i + 1;
      }
      assert entries[..i] == entries;
    }
  }
}
