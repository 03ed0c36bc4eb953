/** Reachability in a finite set of directed links, and the measure that bounds a walk which cuts links as it goes. */
module Reachability {

  /** `b` is `n` links away from `a`. */
  ghost predicate ReachIn<T>(links: set<(T, T)>, a: T, b: T, n: nat) {
    if n == 0 then a == b
    else exists e | e in links && e.1 == b :: ReachIn(links, a, e.0, n - 1)
  }

  ghost predicate Reachable<T>(links: set<(T, T)>, a: T, b: T) {
    exists n: nat :: ReachIn(links, a, b, n)
  }

  lemma ReachableStep<T>(links: set<(T, T)>, a: T, b: T, c: T)
    requires Reachable(links, a, b) && (b, c) in links
    ensures Reachable(links, a, c)
  {
    var n: nat :| ReachIn(links, a, b, n);
    assert (b, c).1 == c && ReachIn(links, a, (b, c).0, n);
    assert ReachIn(links, a, c, n + 1);
  }

  /** A set that holds the start and is closed under links holds everything reachable. */
  lemma {:induction false} ClosedHolds<T>(links: set<(T, T)>, s: set<T>, a: T, b: T, n: nat)
    requires a in s && forall e | e in links && e.0 in s :: e.1 in s
    requires ReachIn(links, a, b, n)
    ensures b in s
  {
    if n > 0 {
      var e :| e in links && e.1 == b && ReachIn(links, a, e.0, n - 1);
      ClosedHolds(links, s, a, e.0, n - 1);
    }
  }

  ghost function Targets<T>(links: set<(T, T)>): set<T> {
    set e | e in links :: e.1
  }

  ghost function WithoutInto<T>(links: set<(T, T)>, f: T): set<(T, T)> {
    set e | e in links && e.1 != f
  }

  /** Number of entries of `q` that no link leads to. */
  ghost function Unlinked<T>(q: seq<T>, linked: set<T>): nat {
    if q == [] then 0 else (if q[0] in linked then 0 else 1) + Unlinked(q[1..], linked)
  }

  lemma {:induction false} UnlinkedAppend<T>(q: seq<T>, r: seq<T>, linked: set<T>)
    requires forall x | x in r :: x in linked
    ensures Unlinked(q + r, linked) == Unlinked(q, linked)
    decreases |q| + |r|
  {
    if q != [] {
      assert (q + r)[1..] == q[1..] + r;
      UnlinkedAppend(q[1..], r, linked);
    } else if r != [] {
      assert q + r == r && [] + r[1..] == r[1..];
      UnlinkedAppend([], r[1..], linked);
    } else {
      assert q + r == [];
    }
  }
}
