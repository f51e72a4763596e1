// Read-only lookups the services make before they decide what to do: the
// store's findOne/count calls, and JavaScript truthiness of request fields.

module Queries {
  import opened Model
  import opened PolicyKey

  /** A request string is truthy when present and non-empty. */
  predicate Given(o: Option<string>)
  {
    o.Some? && o.value != ""
  }

  // A record loaded from the store carries the key it is stored under.

  function PolicyAt(st: State, id: nat): Policy
    requires id in st.policies
  {
    st.policies[id].(id := id)
  }

  function RoleAt(st: State, id: nat): Role
    requires id in st.roles
  {
    st.roles[id].(id := id)
  }

  function UserAt(st: State, id: nat): User
    requires id in st.users
  {
    st.users[id].(id := id)
  }

  /** `p` is what loading the policy stored under its id gives. */
  predicate StoredPolicy(st: State, p: Policy)
  {
    p.id in st.policies && PolicyAt(st, p.id) == p
  }

  function FindPolicy(st: State, id: nat): Option<Policy>
  {
    if id in st.policies then Some(PolicyAt(st, id)) else None
  }

  function FindRole(st: State, id: nat): Option<Role>
  {
    if id in st.roles then Some(RoleAt(st, id)) else None
  }

  /** Some stored policy has this resource and action. */
  predicate PairStored(st: State, resource: string, action: string)
  {
    exists id :: id in st.policies && st.policies[id].resource == resource && st.policies[id].action == action
  }

  /** Some stored role has this name. */
  predicate RoleNameTaken(st: State, name: string)
  {
    exists id :: id in st.roles && st.roles[id].name == name
  }

  /** findOne by (resource, action): the stored policy with that pair and the
      smallest identifier below `bound`, searching from `from`. */
  function FindPolicyFrom(policies: map<nat, Policy>, resource: string, action: string, from: nat, bound: nat)
    : (r: Option<Policy>)
    ensures r.Some? ==> from <= r.value.id < bound && r.value.id in policies && policies[r.value.id].(id := r.value.id) == r.value
    ensures r.Some? ==> r.value.resource == resource && r.value.action == action
    ensures r.None? ==> forall id :: from <= id < bound && id in policies ==>
                          !(policies[id].resource == resource && policies[id].action == action)
    decreases bound - from
  {
    if from >= bound then None
    else if from in policies && policies[from].resource == resource && policies[from].action == action
    then Some(policies[from].(id := from))
    else FindPolicyFrom(policies, resource, action, from + 1, bound)
  }

  /** findOne by (resource, action) over every identifier handed out so far. */
  function FindPolicyByPair(st: State, resource: string, action: string): (r: Option<Policy>)
    ensures r.Some? ==> StoredPolicy(st, r.value) && r.value.resource == resource && r.value.action == action
    ensures r.None? && (forall id :: id in st.policies ==> id < st.nextId) ==> !PairStored(st, resource, action)
  {
    FindPolicyFrom(st.policies, resource, action, 0, st.nextId)
  }

  /** The user's subject attribute, or why it cannot be had. */
  function UserSubject(st: State, userId: nat): Result<string>
  {
    if userId !in st.users then Err(UserNotFound)
    else if st.users[userId].subject == "" then Err(SubjectCannotBeEmpty)
    else Ok(st.users[userId].subject)
  }

  /** Loading a record's roles relation: the stored roles among `ids`, in
      order, without their own policies relation. */
  function RolesOf(roles: map<nat, Role>, ids: seq<nat>): (r: seq<Role>)
    ensures forall x :: x in r <==> exists id :: id in ids && id in roles && x == roles[id].(id := id, policies := [])
  {
    if ids == [] then []
    else
      var rest := RolesOf(roles, ids[1..]);
      assert forall id :: id in ids <==> id == ids[0] || id in ids[1..];
      (if ids[0] in roles then [roles[ids[0]].(id := ids[0], policies := [])] else []) + rest
  }

  /** A document-store find of roles by a list of identifiers: the stored
      role documents among `ids`, each with its own list of policies. */
  function RoleDocumentsOf(roles: map<nat, Role>, ids: seq<nat>): (r: seq<Role>)
    ensures forall x :: x in r <==> exists id :: id in ids && id in roles && x == roles[id].(id := id)
  {
    if ids == [] then []
    else
      var rest := RoleDocumentsOf(roles, ids[1..]);
      assert forall id :: id in ids <==> id == ids[0] || id in ids[1..];
      (if ids[0] in roles then [roles[ids[0]].(id := ids[0])] else []) + rest
  }

  /** The number of subjects whose record holds the role. */
  function HolderCount(perms: map<string, UserPermissions>, roleId: nat): nat
  {
    |set s | s in perms && roleId in perms[s].roles|
  }

  /** The index holds a row of `subject` with key `key`. */
  predicate HasRow(rows: seq<Row>, subject: string, key: string)
  {
    exists x :: x in rows && x.subject == subject && x.policyMapKey == key
  }
}
