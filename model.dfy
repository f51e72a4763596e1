// Entities of the authorization store and the errors its operations raise.
//
// One State value stands for the whole database seen by the library: the
// policy and role collections, the per-subject UserPermissions records, the
// host application's user records and the denormalised permission index
// (UserPoliciesDenorm), kept as a sequence in insertion order.

module Model {

  datatype Option<T> = None | Some(value: T)

  /** A (resource, action) pair with its store identifier. */
  datatype Policy = Policy(id: nat, resource: string, action: string)

  /** A named bundle of policies. */
  datatype Role = Role(id: nat, name: string, policies: seq<Policy>)

  /** What one subject holds: role ids and directly attached policies. */
  datatype UserPermissions = UserPermissions(subject: string, roles: seq<nat>, policies: seq<Policy>)

  /** A host-application user; `subject` is the value of the configured
      subject attribute, "" when that attribute is missing or empty. */
  datatype User = User(id: nat, subject: string)

  /** One row of the permission index: `roleKey` is the granting role's
      name, or None for a directly attached policy. */
  datatype Row = Row(subject: string, policyMapKey: string, roleKey: Option<string>)

  /** A requested permission, as the access check receives it. */
  datatype Permission = Permission(resource: string, action: string)

  datatype State = State(
    policies: map<nat, Policy>,
    roles: map<nat, Role>,
    perms: map<string, UserPermissions>,
    users: map<nat, User>,
    denorm: seq<Row>,
    nextId: nat)

  datatype Error =
    | InvalidAccessRequest          // neither subject nor id given (HTTP 400)
    | SubjectCannotBeEmpty
    | UserNotFound
    | RoleNotFound
    | EmptyRole
    | RoleExists
    | RoleAlreadyExistsOnUser
    | RoleNotAttachedOnUser
    | RoleAttachedOnUsers
    | RoleCannotBeEmpty
    | PolicyExists
    | PolicyNotFound
    | InsufficientPolicyData
    | ConflictingPolicyData
    | PolicyAlreadyAttachedOnRole
    | PolicyAlreadyAttachedOnUser
    | PolicyNotAttachedOnRole
    | PolicyNotAttachedOnUser
    | InternalServerError
    | NullReference                 // a property read on a missing record
    | StoreFailure                  // an error raised by the database itself
    | Unauthorized
    | InvalidDynamicParameterType
    | UnsupportedDatabaseConnection

  datatype Result<T> = Ok(value: T) | Err(error: Error)

  /** Every error of the library is an HTTP exception; only errors raised by
      the store itself and null dereferences are not. */
  predicate IsHttpError(e: Error)
  {
    e != StoreFailure && e != NullReference
  }

  /** The state a service call leaves behind together with its result. */
  datatype Outcome<T> = Outcome(st: State, result: Result<T>)

  /** A transaction body either yields a new state, which is committed, or
      fails, and the state it started from is restored. */
  function Commit<T>(st: State, r: Result<(State, T)>): State
  {
    if r.Ok? then r.value.0 else st
  }

  /** Creating a record takes the next free identifier. */
  function NewPolicy(st: State, resource: string, action: string): (State, Policy)
  {
    var p := Policy(st.nextId, resource, action);
    (st.(policies := st.policies[st.nextId := p], nextId := st.nextId + 1), p)
  }

  /** Every stored policy and role has an identifier below the next free
      one, so the next creation cannot overwrite a record. */
  predicate IdsBelowNext(st: State)
  {
    (forall id :: id in st.policies ==> id < st.nextId) &&
    (forall id :: id in st.roles ==> id < st.nextId)
  }

  /** Taking the next identifier for a policy keeps every identifier below
      the next free one, and the new policy's identifier was free. */
  lemma NewPolicyKeepsIdsBelowNext(st: State, resource: string, action: string)
    requires IdsBelowNext(st)
    ensures st.nextId !in st.policies && st.nextId !in st.roles
    ensures IdsBelowNext(NewPolicy(st, resource, action).0)
  {
  }

  /** Identifiers of a list of policies, in order. */
  function Ids(ps: seq<Policy>): (r: seq<nat>)
    ensures |r| == |ps|
    ensures forall i :: 0 <= i < |ps| ==> r[i] == ps[i].id
  {
    if ps == [] then [] else [ps[0].id] + Ids(ps[1..])
  }

  /** `ps` with every policy whose id is `id` removed. */
  function WithoutPolicy(ps: seq<Policy>, id: nat): (r: seq<Policy>)
    ensures forall p :: p in r <==> p in ps && p.id != id
    ensures |r| <= |ps|
  {
    if ps == [] then []
    else (if ps[0].id == id then [] else [ps[0]]) + WithoutPolicy(ps[1..], id)
  }

  /** `ids` with every occurrence of `id` removed. */
  function WithoutId(ids: seq<nat>, id: nat): (r: seq<nat>)
    ensures forall x :: x in r <==> x in ids && x != id
  {
    if ids == [] then []
    else (if ids[0] == id then [] else [ids[0]]) + WithoutId(ids[1..], id)
  }
}
