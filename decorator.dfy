// Dynamic access-permission parameters: a configured value of the form
// "body:<key>", "params:<key>" or "headers:<key>" names a field of the
// request instead of a literal resource or action.

module Decorator {
  import opened Model

  /** Where a dynamic parameter reads its value from. */
  datatype KeySource = Body | Params | Headers

  /** The source's name as the enumeration spells it. */
  function SourceName(s: KeySource): (r: string)
    ensures |r| > 0 && ':' !in r
  {
    match s
    case Body => "body"
    case Params => "params"
    case Headers => "headers"
  }

  /** The text the pattern `^(body|params|headers):` anchors on. */
  function Tag(s: KeySource): (r: string)
    ensures r == SourceName(s) + ":"
  {
    SourceName(s) + ":"
  }

  predicate StartsWith(v: string, prefix: string)
  {
    |prefix| <= |v| && v[..|prefix|] == prefix
  }

  /** checkDynamicParameterType: the value starts, case-sensitively, with
      one of the three tags. */
  predicate IsDynamic(v: string)
  {
    StartsWith(v, Tag(Body)) || StartsWith(v, Tag(Params)) || StartsWith(v, Tag(Headers))
  }

  /** getKeySourceFromDynamicParamaterType: the source whose tag the value
      starts with, without the colon; an error for any other value. The
      alternatives are tried in the order of the enumeration. */
  function GetKeySource(v: string): (r: Result<KeySource>)
    ensures r.Err? ==> r.error == InvalidDynamicParameterType
    ensures r.Ok? ==> StartsWith(v, Tag(r.value))
  {
    if StartsWith(v, Tag(Body)) then Ok(Body)
    else if StartsWith(v, Tag(Params)) then Ok(Params)
    else if StartsWith(v, Tag(Headers)) then Ok(Headers)
    else Err(InvalidDynamicParameterType)
  }

  /** The source is found exactly for the values the check accepts. */
  lemma GetKeySourceIffDynamic(v: string)
    ensures GetKeySource(v).Ok? <==> IsDynamic(v)
  {
  }

  /** No value starts with two different tags. */
  lemma {:induction false} TagsExclusive(v: string, s: KeySource, t: KeySource)
    requires StartsWith(v, Tag(s)) && StartsWith(v, Tag(t))
    ensures s == t
  {
    // the three tags already differ in their first letter
    assert v[..|Tag(s)|][0] == v[0] == v[..|Tag(t)|][0];
  }

  /** Round trip: tagging any key with a source gives back that source. */
  lemma GetKeySourceRoundTrip(s: KeySource, key: string)
    ensures GetKeySource(Tag(s) + key) == Ok(s)
  {
    var v := Tag(s) + key;
    assert v[..|Tag(s)|] == Tag(s);
    var r := GetKeySource(v);
    assert r.Ok?;
    TagsExclusive(v, s, r.value);
  }

  /** `v.split(":")[1]`: the text between the first and the second colon, or
      to the end when there is no second; nothing when `v` has no colon. */
  function SplitSecond(v: string): (r: Option<string>)
    ensures r.None? <==> ':' !in v
    ensures r.Some? ==> ':' !in r.value
  {
    var i := ColonAt(v);
    if i.None? then None
    else Some(UpToColon(v[i.value + 1..]))
  }

  /** The index of the first colon of `v`. */
  function ColonAt(v: string): (r: Option<nat>)
    ensures r.Some? ==> r.value < |v| && v[r.value] == ':' && ':' !in v[..r.value]
    ensures r.None? ==> ':' !in v
  {
    if v == [] then None
    else if v[0] == ':' then Some(0)
    else
      var rest := ColonAt(v[1..]);
      if rest.None? then None
      else
        assert v[..rest.value + 1] == [v[0]] + v[1..][..rest.value];
        Some(rest.value + 1)
  }

  /** The longest prefix of `v` without a colon. */
  function UpToColon(v: string): (r: string)
    ensures ':' !in r
    ensures StartsWith(v, r)
    ensures |r| == |v| || v[|r|] == ':'
  {
    if v == [] || v[0] == ':' then []
    else [v[0]] + UpToColon(v[1..])
  }

  /** For a tagged key without colons the split gives the key back; a later
      colon cuts it. */
  lemma SplitSecondTagged(s: KeySource, key: string, rest: string)
    requires ':' !in key
    ensures SplitSecond(Tag(s) + key) == Some(key)
    ensures SplitSecond(Tag(s) + key + ":" + rest) == Some(key)
  {
    SplitAfterTag(s, key);
    UpToColonNone(key);
    assert Tag(s) + key + ":" + rest == Tag(s) + (key + ":" + rest);
    SplitAfterTag(s, key + ":" + rest);
    UpToColonStops(key, rest);
  }

  lemma SplitAfterTag(s: KeySource, tail: string)
    ensures SplitSecond(Tag(s) + tail) == Some(UpToColon(tail))
  {
    var v := Tag(s) + tail;
    var n := |SourceName(s)|;
    assert v[n] == ':';
    assert v[..n] == SourceName(s);
    ColonFirst(v, n);
    assert v[n + 1..] == tail;
  }

  lemma ColonFirst(v: string, n: nat)
    requires n < |v| && v[n] == ':' && ':' !in v[..n]
    ensures ColonAt(v) == Some(n)
  {
    var r := ColonAt(v);
    assert v[n] in v;
    assert forall j :: 0 <= j < n ==> v[j] == v[..n][j];
    assert forall j :: 0 <= j < r.value ==> v[j] == v[..r.value][j];
  }

  lemma {:induction false} UpToColonNone(v: string)
    requires ':' !in v
    ensures UpToColon(v) == v
  {
    if v != [] {
      assert v[0] in v;
      assert forall c :: c in v[1..] ==> c in v;
      UpToColonNone(v[1..]);
    }
  }

  lemma {:induction false} UpToColonStops(key: string, rest: string)
    requires ':' !in key
    ensures UpToColon(key + ":" + rest) == key
  {
    if key == [] {
      assert (key + ":" + rest)[0] == ':';
    } else {
      assert key[0] in key;
      assert forall c :: c in key[1..] ==> c in key;
      assert (key + ":" + rest)[1..] == key[1..] + ":" + rest;
      UpToColonStops(key[1..], rest);
    }
  }
}
