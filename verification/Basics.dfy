/** Small vocabulary shared by the models of the individual source files. */
module Basics {

  /** A C pointer that may be NULL. */
  datatype Option<+T> = None | Some(value: T)

  ghost predicate Distinct<T>(s: seq<T>) {
    forall i, j :: 0 <= i < j < |s| ==> s[i] != s[j]
  }

  function RemoveAt<T>(s: seq<T>, p: nat): seq<T>
    requires p < |s|
  {
    s[..p] + s[p + 1..]
  }

  /** Removing one position of a sequence without repetitions removes exactly that element. */
  lemma RemoveAtDistinct<T>(s: seq<T>, p: nat)
    requires Distinct(s) && p < |s|
    ensures Distinct(RemoveAt(s, p))
    ensures forall x :: x in RemoveAt(s, p) <==> x in s && x != s[p]
  {
    var r := RemoveAt(s, p);
    assert forall q :: 0 <= q < |r| ==> r[q] == s[if q < p then q else q + 1];
    forall x | x in s && x != s[p] ensures x in r {
      var q :| 0 <= q < |s| && s[q] == x;
      assert r[if q < p then q else q - 1] == x;
    }
  }

  function InsertAt<T>(s: seq<T>, p: nat, x: T): seq<T>
    requires p <= |s|
  {
    s[..p] + [x] + s[p..]
  }

  lemma InsertAtDistinct<T>(s: seq<T>, p: nat, x: T)
    requires Distinct(s) && p <= |s| && x !in s
    ensures Distinct(InsertAt(s, p, x))
    ensures forall y :: y in InsertAt(s, p, x) <==> y in s || y == x
  {
    var r := InsertAt(s, p, x);
    assert s == s[..p] + s[p..];
    assert forall q :: 0 <= q < |r| ==> r[q] == if q < p then s[q] else if q == p then x else s[q - 1];
  }

  /** g_ptr_array_remove: takes out the first occurrence and keeps the order of the rest. */
  function Without<T(==)>(s: seq<T>, x: T): (r: seq<T>)
    ensures forall y :: y in r ==> y in s
  {
    if s == [] then [] else if s[0] == x then s[1..] else [s[0]] + Without(s[1..], x)
  }

  lemma {:induction false} WithoutDistinct<T>(s: seq<T>, x: T)
    requires Distinct(s)
    ensures Distinct(Without(s, x))
    ensures forall y :: y in Without(s, x) <==> y in s && y != x
  {
    if s != [] {
      var head, tail := s[0], s[1..];
      assert head !in tail by {
        assert forall i :: 0 <= i < |tail| ==> tail[i] == s[i + 1];
      }
      assert s == [head] + tail;
      WithoutDistinct(tail, x);
    }
  }

  lemma {:induction false} WithoutIsRemoveAt<T>(s: seq<T>, p: nat)
    requires Distinct(s) && p < |s|
    ensures Without(s, s[p]) == RemoveAt(s, p)
  {
    if p > 0 {
      var tail := s[1..];
      WithoutIsRemoveAt(tail, p - 1);
      assert tail[..p - 1] == s[1..p] && tail[p..] == s[p + 1..];
      assert s[..p] == [s[0]] + s[1..p];
    }
  }
}
