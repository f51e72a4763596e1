// Operations on the permission index: the where-clauses the transactions
// delete and count by, the rows they insert, the distinct-holder reduction
// and the chunking the Mongo bodies insert with.

module Rows {
  import opened Model
  import opened PolicyKey

  /** How a where-clause constrains `roleKey`. */
  datatype RoleFilter = AnyRole | NoRole | RoleNamed(name: string)

  /** A where-clause over index rows; None leaves the column unconstrained. */
  datatype Where = Where(subject: Option<string>, key: Option<string>, role: RoleFilter)

  predicate Matches(r: Row, w: Where)
  {
    (w.subject.None? || r.subject == w.subject.value) &&
    (w.key.None? || r.policyMapKey == w.key.value) &&
    match w.role
    case AnyRole => true
    case NoRole => r.roleKey.None?
    case RoleNamed(n) => r.roleKey == Some(n)
  }

  /** The rows left after deleting every row the clause matches. */
  function DeleteWhere(rows: seq<Row>, w: Where): (r: seq<Row>)
    ensures |r| <= |rows|
  {
    if rows == [] then []
    else (if Matches(rows[0], w) then [] else [rows[0]]) + DeleteWhere(rows[1..], w)
  }

  /** Deleting removes every copy of a matching row and keeps every copy of
      any other row. */
  lemma {:induction false} DeleteWhereCounts(rows: seq<Row>, w: Where)
    ensures forall x :: multiset(DeleteWhere(rows, w))[x] == if Matches(x, w) then 0 else multiset(rows)[x]
  {
    if rows != [] {
      DeleteWhereCounts(rows[1..], w);
      assert rows == [rows[0]] + rows[1..];
    }
  }

  lemma DeleteWhereMembers(rows: seq<Row>, w: Where)
    ensures forall x :: x in DeleteWhere(rows, w) <==> x in rows && !Matches(x, w)
  {
    DeleteWhereCounts(rows, w);
    forall x ensures x in DeleteWhere(rows, w) <==> x in rows && !Matches(x, w) {
      assert x in DeleteWhere(rows, w) <==> multiset(DeleteWhere(rows, w))[x] > 0;
      assert x in rows <==> multiset(rows)[x] > 0;
    }
  }

  /** The number of rows the clause matches. */
  function CountWhere(rows: seq<Row>, w: Where): nat
  {
    if rows == [] then 0
    else (if Matches(rows[0], w) then 1 else 0) + CountWhere(rows[1..], w)
  }

  lemma {:induction false} CountWherePositive(rows: seq<Row>, w: Where)
    ensures CountWhere(rows, w) > 0 <==> exists i :: 0 <= i < |rows| && Matches(rows[i], w)
  {
    if rows != [] {
      CountWherePositive(rows[1..], w);
      if CountWhere(rows[1..], w) > 0 {
        var i :| 0 <= i < |rows[1..]| && Matches(rows[1..][i], w);
        assert Matches(rows[i + 1], w);
      }
      if exists i :: 0 <= i < |rows| && Matches(rows[i], w) {
        var i :| 0 <= i < |rows| && Matches(rows[i], w);
        if i > 0 {
          assert Matches(rows[1..][i - 1], w);
        }
      }
    }
  }

  /** When nothing matches, no row of the sequence matches. */
  lemma CountWhereZero(rows: seq<Row>, w: Where)
    requires CountWhere(rows, w) == 0
    ensures forall x :: x in rows ==> !Matches(x, w)
  {
    CountWherePositive(rows, w);
    forall x | x in rows ensures !Matches(x, w) {
      var i :| 0 <= i < |rows| && rows[i] == x;
    }
  }

  /** The subject column of the rows granted through the role named `name`,
      in index order (duplicates kept). */
  function SubjectsWithRole(rows: seq<Row>, name: string): (r: seq<string>)
    ensures forall s :: s in r <==> exists i :: 0 <= i < |rows| && rows[i].subject == s && rows[i].roleKey == Some(name)
  {
    if rows == [] then []
    else
      var rest := SubjectsWithRole(rows[1..], name);
      assert forall i :: 0 < i < |rows| ==> rows[i] == rows[1..][i - 1];
      (if rows[0].roleKey == Some(name) then [rows[0].subject] else []) + rest
  }

  /** A left-to-right reduction that keeps the first occurrence of each
      element. */
  function Dedup<T(==)>(s: seq<T>): seq<T>
  {
    if s == [] then []
    else
      var d := Dedup(s[..|s| - 1]);
      if s[|s| - 1] in d then d else d + [s[|s| - 1]]
  }

  predicate Distinct<T(==)>(s: seq<T>)
  {
    forall i, j :: 0 <= i < |s| && 0 <= j < |s| && s[i] == s[j] ==> i == j
  }

  /** The reduction has the same elements as its input, each exactly once. */
  lemma {:induction false} DedupSpec<T>(s: seq<T>)
    ensures Distinct(Dedup(s))
    ensures forall x :: x in Dedup(s) <==> x in s
  {
    if s != [] {
      var p := s[..|s| - 1];
      DedupSpec(p);
      assert s == p + [s[|s| - 1]];
    }
  }

  /** Consecutive pieces of at most `n` elements, as lodash `chunk` forms
      them; an empty input gives no chunk. */
  function Chunk<T>(s: seq<T>, n: nat): seq<seq<T>>
    requires n > 0
    decreases |s|
  {
    if s == [] then []
    else if |s| <= n then [s]
    else [s[..n]] + Chunk(s[n..], n)
  }

  function Flatten<T>(cs: seq<seq<T>>): seq<T>
  {
    if cs == [] then [] else cs[0] + Flatten(cs[1..])
  }

  lemma FlattenAppend<T>(cs: seq<seq<T>>, c: seq<T>)
    ensures Flatten(cs + [c]) == Flatten(cs) + c
  {
    if cs != [] {
      assert (cs + [c])[1..] == cs[1..] + [c];
      FlattenAppend(cs[1..], c);
    }
  }

  /** The chunks are non-empty, hold at most `n` elements each, and put
      together again give back the input. */
  lemma {:induction false} ChunkSpec<T>(s: seq<T>, n: nat)
    requires n > 0
    ensures Flatten(Chunk(s, n)) == s
    ensures forall i :: 0 <= i < |Chunk(s, n)| ==> 0 < |Chunk(s, n)[i]| <= n
    decreases |s|
  {
    if s != [] && |s| > n {
      ChunkSpec(s[n..], n);
      assert s == s[..n] + s[n..];
      assert Chunk(s, n)[1..] == Chunk(s[n..], n);
    }
  }

  /** The rows granting a role's policies to one subject, one per policy. */
  function RoleRows(subject: string, ps: seq<Policy>, roleName: string): (r: seq<Row>)
    ensures |r| == |ps|
    ensures forall i :: 0 <= i < |ps| ==> r[i] == Row(subject, PolicyMapKey(ps[i]), Some(roleName))
  {
    seq(|ps|, i requires 0 <= i < |ps| => Row(subject, PolicyMapKey(ps[i]), Some(roleName)))
  }

  /** The rows granting one policy through a role to each of `subjects`. */
  function FanOutRows(subjects: seq<string>, key: string, roleName: string): (r: seq<Row>)
    ensures |r| == |subjects|
    ensures forall i :: 0 <= i < |subjects| ==> r[i] == Row(subjects[i], key, Some(roleName))
  {
    seq(|subjects|, i requires 0 <= i < |subjects| => Row(subjects[i], key, Some(roleName)))
  }
}
