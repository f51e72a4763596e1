// The route guard: it turns the access-permission metadata of a handler into
// permissions, resolving dynamic parameters against the request, and lets
// the request through only when the access check grants them. The access
// check itself is a parameter.

module Guard {
  import opened Model
  import opened Decorator

  /** The parts of an HTTP request the guard reads. */
  datatype Request = Request(body: map<string, string>, params: map<string, string>, headers: map<string, string>)

  /** The authenticated user attached to a request: its fields and its id. */
  datatype RequestUser = RequestUser(fields: map<string, string>, id: Option<nat>)

  /** What the guard passes as the subject: the user's subject field, or the
      user value itself when that field is falsy. */
  datatype Subject = SubjectField(value: string) | WholeUser(user: Option<RequestUser>)

  /** One metadata entry: its keys in order, each with its configured value. */
  type ConfigEntry = seq<(string, string)>

  /** A built permission: resource and action, and any other key the entry
      sets; None where the value is null or undefined. */
  type GuardPermission = map<string, Option<string>>

  /** The request field `key` from the map the source names. */
  function Field(req: Request, source: KeySource, key: string): (r: Option<string>)
    ensures r.Some? <==> key in (match source case Body => req.body case Params => req.params case Headers => req.headers)
  {
    var m := match source
      case Body => req.body
      case Params => req.params
      case Headers => req.headers;
    if key in m then Some(m[key]) else None
  }

  /** getDynamicConfigurationFromContext: the value of the request field the
      dynamic parameter names; the key is the text up to the next colon. */
  function DynamicValue(v: string, req: Request): (r: Result<Option<string>>)
    ensures r.Err? <==> !IsDynamic(v)
    ensures r.Err? ==> r.error == InvalidDynamicParameterType
  {
    GetKeySourceIffDynamic(v);
    var source := GetKeySource(v);
    if source.Err? then Err(source.error)
    else
      match SplitSecond(v)
      case None => Ok(None)
      case Some(key) => Ok(Field(req, source.value, key))
  }

  /** A tagged key reads exactly that field of the request. */
  lemma DynamicValueReads(s: KeySource, key: string, req: Request)
    requires ':' !in key
    ensures DynamicValue(Tag(s) + key, req) == Ok(Field(req, s, key))
  {
    GetKeySourceRoundTrip(s, key);
    SplitSecondTagged(s, key, "");
  }

  /** What a configured value becomes: a request lookup when it is dynamic,
      the value itself otherwise. */
  function Resolve(v: string, req: Request): (r: Option<string>)
    ensures !IsDynamic(v) ==> r == Some(v)
    ensures IsDynamic(v) ==> Ok(r) == DynamicValue(v, req)
  {
    if IsDynamic(v) then DynamicValue(v, req).value else Some(v)
  }

  /** convertAccessPermissionConfigTypeToPermission, entry by entry: start
      from a null resource and action and set every key of the entry. */
  function ConvertConfig(entry: ConfigEntry, req: Request): (r: GuardPermission)
    ensures forall k :: k in r <==>
      k == "resource" || k == "action" || exists i :: 0 <= i < |entry| && entry[i].0 == k
  {
    if entry == [] then map["resource" := None, "action" := None]
    else
      var n := |entry| - 1;
      assert forall i :: 0 <= i < n ==> entry[..n][i] == entry[i];
      ConvertConfig(entry[..n], req)[entry[n].0 := Resolve(entry[n].1, req)]
  }

  /** A key takes the resolved value of its last occurrence in the entry. */
  lemma {:induction false} ConvertConfigSets(entry: ConfigEntry, req: Request, i: nat)
    requires i < |entry|
    requires forall j :: i < j < |entry| ==> entry[j].0 != entry[i].0
    ensures ConvertConfig(entry, req)[entry[i].0] == Resolve(entry[i].1, req)
  {
    var n := |entry| - 1;
    if i < n {
      assert entry[..n][i] == entry[i];
      assert forall j :: i < j < n ==> entry[..n][j] == entry[j];
      ConvertConfigSets(entry[..n], req, i);
    }
  }

  /** Resource and action stay null unless the entry sets them. */
  lemma {:induction false} ConvertConfigUnset(entry: ConfigEntry, req: Request, k: string)
    requires k == "resource" || k == "action"
    requires forall i :: 0 <= i < |entry| ==> entry[i].0 != k
    ensures ConvertConfig(entry, req)[k] == None
  {
    if entry != [] {
      var n := |entry| - 1;
      assert forall i :: 0 <= i < n ==> entry[..n][i] == entry[i];
      ConvertConfigUnset(entry[..n], req, k);
    }
  }

  /** The loop that builds one permission, assigning a field per key. */
  method ConvertEntry(entry: ConfigEntry, req: Request) returns (permission: GuardPermission)
    ensures permission == ConvertConfig(entry, req)
  {
    permission := map["resource" := None, "action" := None];
    var i := 0;
    while i < |entry|
      invariant 0 <= i <= |entry|
      invariant permission == ConvertConfig(entry[..i], req)
    {
      var (key, value) := entry[i];
      var resolved: Option<string>;
      if IsDynamic(value) {
        var d := DynamicValue(value, req);
        resolved := d.value;
      } else {
        resolved := Some(value);
      }
      assert entry[..i + 1][..i] == entry[..i];
      permission := permission[key := resolved];
      i := i + 1;
    }
    assert entry[..i] == entry;
  }

  /** One permission per entry, in the order of the entries. */
  function Permissions(entries: seq<ConfigEntry>, req: Request): (r: seq<GuardPermission>)
    ensures |r| == |entries|
    ensures forall i :: 0 <= i < |entries| ==> r[i] == ConvertConfig(entries[i], req)
  {
    if entries == [] then [] else [ConvertConfig(entries[0], req)] + Permissions(entries[1..], req)
  }

  /** Some metadata entry is truthy. */
  predicate AnyConfigured(configs: Option<seq<Option<ConfigEntry>>>)
  {
    configs.Some? && exists i :: 0 <= i < |configs.value| && configs.value[i].Some?
  }

  /** Every entry of the metadata is present. */
  predicate AllPresent(entries: seq<Option<ConfigEntry>>)
  {
    forall i :: 0 <= i < |entries| ==> entries[i].Some?
  }

  function Present(entries: seq<Option<ConfigEntry>>): (r: seq<ConfigEntry>)
    requires AllPresent(entries)
    ensures |r| == |entries| && forall i :: 0 <= i < |entries| ==> r[i] == entries[i].value
  {
    if entries == [] then [] else [entries[0].value] + Present(entries[1..])
  }

  function SubjectOf(user: Option<RequestUser>, subjectKey: string): (r: Subject)
    ensures r.SubjectField? <==> user.Some? && subjectKey in user.value.fields && user.value.fields[subjectKey] != ""
    ensures r.SubjectField? ==> r.value == user.value.fields[subjectKey]
    ensures r.WholeUser? ==> r.user == user
  {
    if user.Some? && subjectKey in user.value.fields && user.value.fields[subjectKey] != ""
    then SubjectField(user.value.fields[subjectKey])
    else WholeUser(user)
  }

  function IdOf(user: Option<RequestUser>): Option<nat>
  {
    if user.Some? then user.value.id else None
  }

  /** canActivate. Without a truthy metadata entry the request passes and the
      access check is not consulted; a null entry beside a truthy one cannot
      be converted; otherwise the request passes exactly when the check
      grants the built permissions. */
  function CanActivate(configs: Option<seq<Option<ConfigEntry>>>, req: Request, user: Option<RequestUser>,
                       subjectKey: string, check: (seq<GuardPermission>, Subject, Option<nat>) -> bool)
    : (r: Result<bool>)
    ensures r.Ok? ==> r.value
    ensures !AnyConfigured(configs) ==> r == Ok(true)
    ensures AnyConfigured(configs) && !AllPresent(configs.value) ==> r == Err(NullReference)
    ensures AnyConfigured(configs) && AllPresent(configs.value) ==>
      (r == Ok(true) <==> check(Permissions(Present(configs.value), req), SubjectOf(user, subjectKey), IdOf(user))) &&
      (r.Err? ==> r.error == Unauthorized)
  {
    if !AnyConfigured(configs) then Ok(true)
    else if !AllPresent(configs.value) then Err(NullReference)
    else
      var permissions := Permissions(Present(configs.value), req);
      if check(permissions, SubjectOf(user, subjectKey), IdOf(user)) then Ok(true) else Err(Unauthorized)
  }

  /** Without a truthy entry the outcome does not depend on the check. */
  lemma CanActivateSkipsCheck(configs: Option<seq<Option<ConfigEntry>>>, req: Request, user: Option<RequestUser>,
                              subjectKey: string, c1: (seq<GuardPermission>, Subject, Option<nat>) -> bool,
                              c2: (seq<GuardPermission>, Subject, Option<nat>) -> bool)
    requires !AnyConfigured(configs)
    ensures CanActivate(configs, req, user, subjectKey, c1) == CanActivate(configs, req, user, subjectKey, c2) == Ok(true)
  {
  }

  /** A literal entry reaches the check as written; a dynamic one carries
      the request's field. */
  lemma CanActivateResolvesEntry(req: Request, s: KeySource, key: string, action: string)
    requires ':' !in key && !IsDynamic(action)
    ensures var p := ConvertConfig([("resource", Tag(s) + key), ("action", action)], req);
      p["resource"] == Field(req, s, key) && p["action"] == Some(action)
  {
    var entry := [("resource", Tag(s) + key), ("action", action)];
    Decorator.GetKeySourceIffDynamic(Tag(s) + key);
    GetKeySourceRoundTrip(s, key);
    DynamicValueReads(s, key, req);
    ConvertConfigSets(entry, req, 0);
    ConvertConfigSets(entry, req, 1);
  }
}
