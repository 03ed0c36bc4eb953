/** Facts about sequences and finite sets that several components share. */
module Sequences {

  ghost predicate NoDuplicates<T>(s: seq<T>) {
    forall i, j :: 0 <= i < j < |s| ==> s[i] != s[j]
  }

  ghost function ToSet<T>(s: seq<T>): set<T> {
    set x | x in s
  }

  function RemoveAt<T>(s: seq<T>, i: nat): (r: seq<T>)
    requires i < |s|
    ensures |r| == |s| - 1
  {
    s[..i] + s[i + 1..]
  }

  lemma RemoveAtMembers<T>(s: seq<T>, i: nat)
    requires i < |s| && NoDuplicates(s)
    ensures NoDuplicates(RemoveAt(s, i))
    ensures forall x :: x in RemoveAt(s, i) <==> x in s && x != s[i]
  {
    var r := RemoveAt(s, i);
    forall x
      ensures x in r <==> x in s && x != s[i]
    {
      if x in s && x != s[i] {
        var k :| 0 <= k < |s| && s[k] == x;
        assert x == if k < i then r[k] else r[k - 1];
      }
    }
  }

  /** A duplicate-free sequence has as many members as positions. */
  lemma {:induction false} SetOfDistinct<T>(s: seq<T>)
    requires NoDuplicates(s)
    ensures |ToSet(s)| == |s|
  {
    if s == [] {
      assert ToSet(s) == {};
    } else {
      SetOfDistinct(s[1..]);
      assert ToSet(s) == {s[0]} + ToSet(s[1..]);
      assert s[0] !in s[1..];
    }
  }

  lemma SubsetSize<T>(a: set<T>, b: set<T>)
    requires a <= b
    ensures |a| <= |b|
    ensures |a| == |b| ==> a == b
  {
    assert |b - a| + |a| == |b| by {
      assert b == (b - a) + a;
    }
  }

  lemma DifferenceSize<T>(a: set<T>, b: set<T>)
    ensures |a - b| + |a * b| == |a|
  {
    assert a == (a - b) + a * b;
  }

  /** `a` can be obtained from `b` by deleting positions, order kept. */
  ghost predicate Subsequence<T>(a: seq<T>, b: seq<T>) {
    if a == [] then true
    else if b == [] then false
    else (a[|a| - 1] == b[|b| - 1] && Subsequence(a[..|a| - 1], b[..|b| - 1])) || Subsequence(a, b[..|b| - 1])
  }

  /** Appending to the longer sequence keeps the relation. */
  lemma {:induction false} SubsequenceExtendRight<T>(a: seq<T>, b: seq<T>, c: seq<T>)
    requires Subsequence(a, b)
    ensures Subsequence(a, b + c)
  {
    if c == [] {
      assert b + c == b;
    } else {
      SubsequenceExtendRight(a, b, c[..|c| - 1]);
      assert (b + c)[..|b + c| - 1] == b + c[..|c| - 1];
    }
  }

  lemma SubsequenceSnoc<T>(a: seq<T>, b: seq<T>, x: T)
    requires Subsequence(a, b)
    ensures Subsequence(a + [x], b + [x])
  {
    assert (a + [x])[..|a|] == a && (b + [x])[..|b|] == b;
  }
}
