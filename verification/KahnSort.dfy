/**
 * Topological sorting of an index graph with a stack: the loop of the filter reordering on plain sequences.
 * `g[i]` lists the successors of node `i`, with repetitions for parallel links.
 */
module KahnSort {
  import opened Sequences

  type Graph = seq<seq<nat>>

  ghost predicate Closed(g: Graph) {
    forall i, j | 0 <= i < |g| && j in g[i] :: j < |g|
  }

  function Count(s: seq<nat>, x: nat): nat {
    if s == [] then 0 else (if s[0] == x then 1 else 0) + Count(s[1..], x)
  }

  lemma {:induction false} CountPositive(s: seq<nat>, x: nat)
    ensures Count(s, x) > 0 <==> x in s
  {
    if s != [] {
      CountPositive(s[1..], x);
    }
  }

  /** Number of links into `j` from those of the first `k` nodes that are not in `done`. */
  ghost function LinksInto(g: Graph, done: set<nat>, j: nat, k: nat): nat
    requires k <= |g|
  {
    if k == 0 then 0
    else LinksInto(g, done, j, k - 1) + if k - 1 in done then 0 else Count(g[k - 1], j)
  }

  lemma {:induction false} LinksIntoExists(g: Graph, done: set<nat>, j: nat, k: nat)
    requires k <= |g|
    ensures LinksInto(g, done, j, k) > 0 <==> exists i :: 0 <= i < k && i !in done && j in g[i]
  {
    if k > 0 {
      LinksIntoExists(g, done, j, k - 1);
      CountPositive(g[k - 1], j);
    }
  }

  lemma {:induction false} LinksIntoDone(g: Graph, done: set<nat>, cur: nat, j: nat, k: nat)
    requires k <= |g| && cur !in done && cur < |g|
    ensures LinksInto(g, done, j, k) == LinksInto(g, done + {cur}, j, k) + if cur < k then Count(g[cur], j) else 0
  {
    if k > 0 {
      LinksIntoDone(g, done, cur, j, k - 1);
    }
  }

  /** In `order` every predecessor of a node stands before it. */
  ghost predicate Ordered(g: Graph, order: seq<nat>) {
    forall p, i | 0 <= p < |order| && 0 <= i < |g| && order[p] < |g| && order[p] in g[i] :: i in order[..p]
  }

  ghost predicate IsPath(g: Graph, p: seq<nat>) {
    && p != []
    && (forall k | 0 <= k < |p| :: p[k] < |g|)
    && (forall k | 0 <= k < |p| - 1 :: p[k + 1] in g[p[k]])
  }

  ghost predicate Cyclic(g: Graph) {
    exists p :: |p| >= 2 && IsPath(g, p) && p[0] == p[|p| - 1]
  }

  /** Every node outside `order` still waits for a node outside `order`. */
  ghost predicate Stuck(g: Graph, order: seq<nat>) {
    forall j {:trigger Waits(g, order, j)} :: 0 <= j < |g| && j !in order ==> Waits(g, order, j)
  }

  /** Some node outside `order` links to `j`. */
  ghost predicate Waits(g: Graph, order: seq<nat>, j: nat) {
    exists i :: 0 <= i < |g| && i !in order && j in g[i]
  }

  ghost function Range(n: nat): set<nat> {
    if n == 0 then {} else Range(n - 1) + {n - 1}
  }

  lemma {:induction false} RangeIs(n: nat)
    ensures |Range(n)| == n && forall x: nat :: x in Range(n) <==> x < n
  {
    if n > 0 {
      RangeIs(n - 1);
    }
  }

  lemma BoundedDistinct(s: seq<nat>, n: nat)
    requires NoDuplicates(s) && forall x | x in s :: x < n
    ensures |s| <= n
    ensures |s| == n ==> forall x | 0 <= x < n :: x in s
  {
    SetOfDistinct(s);
    RangeIs(n);
    SubsetSize(ToSet(s), Range(n));
    if |s| == n {
      forall x | 0 <= x < n ensures x in s { assert x in Range(n); }
    }
  }

  // ---------- The loop ----------

  /** `deg` counts the links from nodes outside `done`, of which `pending` links of the current node are uncounted. */
  ghost predicate DegreesAre(g: Graph, deg: seq<nat>, done: set<nat>, pending: seq<nat>) {
    |deg| == |g| && forall j | 0 <= j < |g| :: deg[j] == LinksInto(g, done, j, |g|) + Count(pending, j)
  }

  /** `stack` lists, once each, the positions with in-degree zero. */
  ghost predicate ZerosIn(inDegrees: seq<nat>, stack: seq<nat>) {
    NoDuplicates(stack) && forall j :: j in stack <==> 0 <= j < |inDegrees| && inDegrees[j] == 0
  }

  /** The nodes with degree 0 are, once each, those already placed and those on the stack. */
  ghost predicate ZeroesAre(g: Graph, deg: seq<nat>, placed: seq<nat>) {
    |deg| == |g| && ZerosIn(deg, placed)
  }

  /** Lowers the degree of each successor of `cur`, pushing those that reach 0. */
  method Visit(g: Graph, deg: seq<nat>, order: seq<nat>, stack: seq<nat>, cur: nat)
    returns (deg': seq<nat>, stack': seq<nat>)
    requires Closed(g) && cur < |g| && cur !in order
    requires DegreesAre(g, deg, ToSet(order), [])
    requires ZeroesAre(g, deg, order + [cur] + stack)
    ensures DegreesAre(g, deg', ToSet(order + [cur]), [])
    ensures ZeroesAre(g, deg', order + [cur] + stack')
  {
    deg', stack' := deg, stack;
    ghost var done := ToSet(order + [cur]);
    forall j | 0 <= j < |g|
      ensures LinksInto(g, ToSet(order), j, |g|) == LinksInto(g, done, j, |g|) + Count(g[cur], j)
    {
      LinksIntoDone(g, ToSet(order), cur, j, |g|);
      assert done == ToSet(order) + {cur};
    }
    var t := 0;
    while t < |g[cur]|
      invariant 0 <= t <= |g[cur]|
      invariant DegreesAre(g, deg', done, g[cur][t..])
      invariant ZeroesAre(g, deg', order + [cur] + stack')
    {
      var idx := g[cur][t];
      assert idx in g[cur] && g[cur][t..] == [idx] + g[cur][t + 1..];
      assert Count(g[cur][t..], idx) > 0;
      assert deg'[idx] > 0;
      assert idx !in order + [cur] + stack';
      ghost var before, placed := deg', order + [cur] + stack';
      deg' := deg'[idx := deg'[idx] - 1];
      if deg'[idx] == 0 {
        stack' := stack' + [idx];
        assert order + [cur] + stack' == placed + [idx];
      }
      t := t + 1;
      assert forall j | 0 <= j < |g| :: Count(g[cur][t - 1..], j) == (if j == idx then 1 else 0) + Count(g[cur][t..], j);
    }
  }

  /** The main loop. No degree is driven below zero and no node is pushed twice: degrees are naturals, and see `placed`. */
  method Sort(g: Graph, degrees: seq<nat>, initial: seq<nat>) returns (order: seq<nat>)
    requires Closed(g) && DegreesAre(g, degrees, {}, []) && ZeroesAre(g, degrees, initial)
    ensures NoDuplicates(order) && forall j | j in order :: j < |g|
    ensures Ordered(g, order) && Stuck(g, order)
  {
    order := [];
    assert ToSet(order) == {} && order + initial == initial;
    var deg, stack := degrees, initial;
    while stack != []
      invariant DegreesAre(g, deg, ToSet(order), [])
      invariant ZeroesAre(g, deg, order + stack)
      invariant Ordered(g, order)
      decreases |g| - |order|
    {
      var cur := stack[|stack| - 1];
      assert (order + stack)[|order + stack| - 1] == cur && cur in order + stack;
      assert stack == stack[..|stack| - 1] + [cur];
      stack := stack[..|stack| - 1];
      Moved(order, stack, cur);
      TopIsPlaced(g, deg, order, stack, cur);
      deg, stack := Visit(g, deg, order, stack, cur);
      AppendOrdered(g, order, cur);
      order := order + [cur];
      PrefixBounded(g, deg, order, stack);
    }
    PrefixBounded(g, deg, order, stack);
    assert order + stack == order;
    forall j | 0 <= j < |g| && j !in order
      ensures Waits(g, order, j)
    {
      LinksIntoExists(g, ToSet(order), j, |g|);
    }
  }

  /** Moving the top of the stack to the middle of the list changes no membership. */
  lemma Moved(order: seq<nat>, rest: seq<nat>, cur: nat)
    requires NoDuplicates(order + (rest + [cur]))
    ensures NoDuplicates(order + [cur] + rest) && cur !in order
    ensures forall x :: x in order + [cur] + rest <==> x in order + (rest + [cur])
  {
    var a, b := order + (rest + [cur]), order + [cur] + rest;
    var n, m := |order|, |rest|;
    assert forall k :: 0 <= k < |b| ==> b[k] == a[if k < n then k else if k == n then n + m else k - 1];
    assert a[n + m] == cur;
    assert forall k :: 0 <= k < n ==> order[k] == a[k];
  }

  lemma PrefixBounded(g: Graph, deg: seq<nat>, order: seq<nat>, stack: seq<nat>)
    requires ZeroesAre(g, deg, order + stack)
    ensures NoDuplicates(order) && (forall x | x in order :: x < |g|) && |order| <= |g|
  {
    assert forall k | 0 <= k < |order| :: (order + stack)[k] == order[k];
    assert forall x | x in order :: x in order + stack;
    BoundedDistinct(order, |g|);
  }

  lemma TopIsPlaced(g: Graph, deg: seq<nat>, order: seq<nat>, rest: seq<nat>, cur: nat)
    requires DegreesAre(g, deg, ToSet(order), []) && cur < |g| && deg[cur] == 0
    ensures forall i | 0 <= i < |g| && cur in g[i] :: i in order
  {
    LinksIntoExists(g, ToSet(order), cur, |g|);
  }

  lemma AppendOrdered(g: Graph, order: seq<nat>, cur: nat)
    requires Ordered(g, order) && forall i | 0 <= i < |g| && cur in g[i] :: i in order
    ensures Ordered(g, order + [cur])
  {
    assert forall p | 0 <= p <= |order| :: (order + [cur])[..p] == order[..p];
  }

  // ---------- Complete exactly when acyclic ----------

  ghost function Position(order: seq<nat>, x: nat): (p: nat)
    requires x in order
    ensures p < |order| && order[p] == x
  {
    var p :| 0 <= p < |order| && order[p] == x;
    p
  }

  lemma {:induction false} PathClimbs(g: Graph, order: seq<nat>, p: seq<nat>)
    requires NoDuplicates(order) && Ordered(g, order) && forall j | 0 <= j < |g| :: j in order
    requires IsPath(g, p) && |p| >= 2
    ensures Position(order, p[0]) < Position(order, p[|p| - 1])
  {
    var last := Position(order, p[|p| - 1]);
    assert p[|p| - 1] in g[p[|p| - 2]];
    assert p[|p| - 2] in order[..last];
    if |p| > 2 {
      PathClimbs(g, order, p[..|p| - 1]);
    }
  }

  lemma PathPrepend(g: Graph, i: nat, p: seq<nat>)
    requires IsPath(g, p) && i < |g| && p[0] in g[i]
    ensures IsPath(g, [i] + p)
  {
    var longer := [i] + p;
    assert forall k | 0 <= k < |longer| - 1 :: longer[k + 1] in g[longer[k]] by {
      assert forall k | 0 <= k < |longer| - 1 :: longer[k] == (if k == 0 then i else p[k - 1]) && longer[k + 1] == p[k];
    }
  }

  lemma CloseCycle(g: Graph, p: seq<nat>, k: nat)
    requires IsPath(g, p) && 0 < k < |p| && p[k] == p[0]
    ensures Cyclic(g)
  {
    var c := p[..k + 1];
    assert IsPath(g, c) && c[0] == c[|c| - 1];
  }

  /** A walk that goes back from node to node inside a finite set must close a cycle. */
  lemma WalkBack(g: Graph, order: seq<nat>, p: seq<nat>)
    requires Stuck(g, order) && IsPath(g, p) && NoDuplicates(p) && p[0] !in order
    ensures Cyclic(g)
    decreases |g| - |p|
  {
    assert forall x | x in p :: x < |g|;
    BoundedDistinct(p, |g|);
    assert Waits(g, order, p[0]);
    var i :| 0 <= i < |g| && i !in order && p[0] in g[i];
    PathPrepend(g, i, p);
    if i in p {
      var k :| 0 <= k < |p| && p[k] == i;
      CloseCycle(g, [i] + p, k + 1);
    } else {
      assert NoDuplicates([i] + p);
      BoundedDistinct([i] + p, |g|);
      WalkBack(g, order, [i] + p);
    }
  }

  lemma {:induction false} NotAllIn(order: seq<nat>, n: nat)
    requires NoDuplicates(order) && |order| < n
    ensures exists j :: 0 <= j < n && j !in order
  {
    if forall j | 0 <= j < n :: j in order {
      RangeIs(n);
      SetOfDistinct(order);
      SubsetSize(Range(n), ToSet(order));
    }
  }

  /** The order found is complete exactly when the graph has no cycle. */
  lemma CompleteIffAcyclic(g: Graph, order: seq<nat>)
    requires Closed(g) && NoDuplicates(order) && (forall j | j in order :: j < |g|)
    requires Ordered(g, order) && Stuck(g, order)
    ensures |order| <= |g| && (|order| == |g| <==> !Cyclic(g))
  {
    BoundedDistinct(order, |g|);
    if |order| == |g| {
      forall p | |p| >= 2 && IsPath(g, p)
        ensures p[0] != p[|p| - 1]
      {
        PathClimbs(g, order, p);
      }
    } else {
      NotAllIn(order, |g|);
      var j :| 0 <= j < |g| && j !in order;
      WalkBack(g, order, [j]);
    }
  }
}
