// The policy-map key that names a (resource, action) pair in the
// permission index: "$" + resource + "$" + action.

module PolicyKey {
  import opened Model

  /** The key of a (resource, action) pair. */
  function Encode(resource: string, action: string): (k: string)
    ensures |k| == |resource| + |action| + 2
    ensures k[0] == '$' && k[|resource| + 1] == '$'
    ensures k[1..|resource| + 1] == resource && k[|resource| + 2..] == action
  {
    "$" + resource + "$" + action
  }

  /** The key of a policy: its resource and action only, never its id. */
  function PolicyMapKey(p: Policy): string
  {
    Encode(p.resource, p.action)
  }

  function PermissionKey(p: Permission): string
  {
    Encode(p.resource, p.action)
  }

  /** The position of the first `c` in `s`. */
  function IndexOf(s: string, c: char): (r: Option<nat>)
    ensures r.Some? ==> r.value < |s| && s[r.value] == c && c !in s[..r.value]
    ensures r.None? ==> c !in s
  {
    if s == [] then None
    else if s[0] == c then Some(0)
    else match IndexOf(s[1..], c)
      case None => None
      case Some(i) =>
        assert s[..i + 1] == [s[0]] + s[1..][..i];
        Some(i + 1)
  }

  /** Splits a key at the first '$' after the leading one. */
  function Decode(k: string): (r: Option<(string, string)>)
    ensures r.Some? ==> '$' !in r.value.0 && Encode(r.value.0, r.value.1) == k
  {
    if |k| == 0 || k[0] != '$' then None
    else match IndexOf(k[1..], '$')
      case None => None
      case Some(i) =>
        assert k == "$" + k[1..i + 1] + "$" + k[i + 2..];
        Some((k[1..i + 1], k[i + 2..]))
  }

  /** Decoding undoes encoding whenever the resource holds no '$'; the
      action may hold any character. */
  lemma DecodeEncode(resource: string, action: string)
    requires '$' !in resource
    ensures Decode(Encode(resource, action)) == Some((resource, action))
  {
    var k := Encode(resource, action);
    assert k[1..] == resource + "$" + action;
    assert (resource + "$" + action)[..|resource|] == resource;
  }

  /** Under the same condition two pairs share a key only if they are equal. */
  lemma EncodeInjective(r1: string, a1: string, r2: string, a2: string)
    requires '$' !in r1 && '$' !in r2
    ensures Encode(r1, a1) == Encode(r2, a2) <==> r1 == r2 && a1 == a2
  {
    DecodeEncode(r1, a1);
    DecodeEncode(r2, a2);
  }

  /** Two policies with '$'-free resources have the same key exactly when
      their resources and actions agree, whatever their ids. */
  lemma SameKeyIff(p: Policy, q: Policy)
    requires '$' !in p.resource && '$' !in q.resource
    ensures PolicyMapKey(p) == PolicyMapKey(q) <==> p.resource == q.resource && p.action == q.action
  {
    EncodeInjective(p.resource, p.action, q.resource, q.action);
  }

  /** Without that condition distinct pairs can collide. */
  lemma EncodeCollision()
    ensures Encode("a$b", "c") == Encode("a", "b$c")
    ensures ("a$b", "c") != ("a", "b$c")
  {
  }
}
