/** The pipeline: reordering of its filters before Prepare, and removal of a chain of filters. */
module PipelineCoreModel {
  import opened Sequences
  import opened KahnSort
  import opened PipelinePorts
  import opened PipelineGraph
  import opened Reachability

  class PipelineCore {
    var filters_: seq<Filter>
    var filtersToRemove_: seq<Filter>

    constructor ()
      ensures filters_ == [] && filtersToRemove_ == []
    {
      filters_, filtersToRemove_ := [], [];
    }

    /**
     * Walks forward from `first`, cutting every link into each filter it visits and recording the filter.
     * The walk ends on every symmetric graph, cyclic or not.
     */
    method RemoveFilterChain(first: Filter, ghost fs: set<Filter>)
      requires first in fs && Symmetric(fs)
      modifies this`filtersToRemove_, Ins(fs), Outs(fs)
      ensures Symmetric(fs)
      ensures |filtersToRemove_| >= |old(filtersToRemove_)| && filtersToRemove_[..|old(filtersToRemove_)|] == old(filtersToRemove_)
      ensures var recorded := filtersToRemove_[|old(filtersToRemove_)|..];
              && (forall f | f in fs :: f in recorded <==> Reachable(old(LinksOf(fs)), first, f))
              && (forall f | f in recorded :: f in fs)
              && LinksOf(fs) == (set e | e in old(LinksOf(fs)) && e.0 !in recorded && e.1 !in recorded)
    {
      hide Symmetric, LinksOf, Reachable, WalkInv, Targets, Unlinked, WithoutInto;
      ghost var links0 := LinksOf(fs);
      ghost var recorded: seq<Filter> := [];
      var levelFilters := [first];
      WalkStarts(links0, first, fs);
      while levelFilters != []
        invariant Symmetric(fs)
        invariant filtersToRemove_ == old(filtersToRemove_) + recorded
        invariant forall f | f in levelFilters :: f in fs
        invariant WalkInv(links0, LinksOf(fs), first, fs, recorded, levelFilters)
        decreases |Targets(LinksOf(fs))|, Unlinked(levelFilters, Targets(LinksOf(fs)))
      {
        ghost var links := LinksOf(fs);
        var filter := levelFilters[0];
        var next := Visit(filter, fs);
        WalkAdvances(links0, links, first, fs, recorded, levelFilters, next);
        levelFilters := levelFilters[1..] + next;
        recorded := recorded + [filter];
      }
      WalkEnds(links0, LinksOf(fs), first, fs, recorded);
      assert filtersToRemove_[|old(filtersToRemove_)|..] == recorded;
    }

    /** One visit of the walk: cut the links into the filter, record it, then read its next filters. */
    method Visit(filter: Filter, ghost fs: set<Filter>) returns (next: seq<Filter>)
      requires filter in fs && Symmetric(fs)
      modifies this`filtersToRemove_, Ins(fs), Outs(fs)
      ensures filtersToRemove_ == old(filtersToRemove_) + [filter]
      ensures Symmetric(fs) && LinksOf(fs) == WithoutInto(old(LinksOf(fs)), filter)
      ensures forall g :: g in next <==> (filter, g) in LinksOf(fs)
      ensures forall g | g in next :: g in fs
    {
      hide Symmetric, LinksOf, WithoutInto, NextOf;
      CutLinksInto(filter, fs);
      Record(filter, fs);
      next := filter.GetNextFilters();
      NextLiesInside(fs, filter);
    }

    method Record(filter: Filter, ghost fs: set<Filter>)
      requires Symmetric(fs)
      modifies this`filtersToRemove_
      ensures filtersToRemove_ == old(filtersToRemove_) + [filter]
      ensures Symmetric(fs) && LinksOf(fs) == old(LinksOf(fs))
    {
      filtersToRemove_ := filtersToRemove_ + [filter];
    }

    /** Puts every filter before its successors, if the links have no cycle; else changes nothing. */
    method ReorderFilters()
      requires NoDuplicates(filters_) && Symmetric(ToSet(filters_))
      modifies this`filters_
      ensures old(Cyclic(LinkGraph(filters_))) ==> filters_ == old(filters_)
      ensures old(!Cyclic(LinkGraph(filters_))) ==>
        IsPermutation(filters_, old(filters_)) && Precede(filters_, old(NextMap(filters_)))
    {
      hide Symmetric, LinkGraph, NextMap, Precede, Cyclic, Ordered, Stuck;
      ghost var filters, nexts := filters_, NextMap(filters_);
      GraphMatchesNexts(filters);
      var graph, inDegrees, stack := ConstructGraph();
      var order := Sort(graph, inDegrees, stack);
      CompleteIffAcyclic(graph, order);
      var result := Arrange(order);
      if |result| == |filters_| {
        OrderIsPermutation(filters, order, result);
        OrderPrecedes(filters, graph, nexts, order, result);
        filters_ := result;
      }
    }

    /** The filters at the given indices. */
    method Arrange(order: seq<nat>) returns (result: seq<Filter>)
      requires forall j | j in order :: j < |filters_|
      ensures |result| == |order| && forall i | 0 <= i < |order| :: order[i] < |filters_| && result[i] == filters_[order[i]]
    {
      result := [];
      for k := 0 to |order|
        invariant |result| == k
        invariant forall i | 0 <= i < k :: order[i] < |filters_| && result[i] == filters_[order[i]]
      {
        assert order[k] in order;
        result := result + [filters_[order[k]]];
      }
    }

    /** In-degrees, successor indices, and the stack of filters without predecessors. */
    method ConstructGraph() returns (graph: Graph, inDegrees: seq<nat>, stack: seq<nat>)
      requires NoDuplicates(filters_) && Symmetric(ToSet(filters_))
      ensures graph == old(LinkGraph(filters_)) && Closed(graph) && |graph| == |filters_|
      ensures DegreesAre(graph, inDegrees, {}, []) && ZeroesAre(graph, inDegrees, stack)
    {
      hide Symmetric, ZerosIn, PreOf, NextOf, Indices, LinksInto, GraphOf, DegreesAre;
      ghost var g := LinkGraph(filters_);
      GraphClosed(filters_);
      GraphOfAt(filters_, |filters_|);
      LinksCounted(filters_);
      var mapInfo;
      inDegrees, stack, mapInfo := CountPredecessors();
      graph := CollectSuccessors(mapInfo);
      assert graph == g;
      InitialDegrees(graph, inDegrees);
    }

    /** The second pass over the filters. */
    method CollectSuccessors(mapInfo: map<Filter, nat>) returns (graph: Graph)
      requires NoDuplicates(filters_) && forall f :: f in mapInfo <==> f in filters_
      requires forall f | f in mapInfo :: mapInfo[f] < |filters_| && filters_[mapInfo[f]] == f
      ensures |graph| == |filters_|
      ensures forall i | 0 <= i < |filters_| :: graph[i] == Indices(filters_, old(NextOf(filters_[i].outPorts)))
    {
      graph := [];
      for index := 0 to |filters_|
        invariant |graph| == index
        invariant forall i | 0 <= i < index :: graph[i] == Indices(filters_, old(NextOf(filters_[i].outPorts)))
      {
        var next := filters_[index].GetNextFilters();
        NextUnchanged(filters_[index].outPorts);
        var nexts := ToIndices(next, mapInfo, filters_);
        graph := graph + [nexts];
      }
    }

    /** The first pass over the filters. */
    method CountPredecessors() returns (inDegrees: seq<nat>, stack: seq<nat>, mapInfo: map<Filter, nat>)
      requires NoDuplicates(filters_)
      ensures |inDegrees| == |filters_| && forall j | 0 <= j < |filters_| :: inDegrees[j] == |old(PreOf(filters_[j].inPorts))|
      ensures ZerosIn(inDegrees, stack)
      ensures forall f :: f in mapInfo <==> f in filters_
      ensures forall f | f in mapInfo :: mapInfo[f] < |filters_| && filters_[mapInfo[f]] == f
    {
      hide PreOf, MapsTo, ZerosIn;
      mapInfo, inDegrees, stack := map[], [], [];
      NothingYet(filters_);
      for index := 0 to |filters_|
        invariant |inDegrees| == index
        invariant forall j | 0 <= j < index :: inDegrees[j] == |old(PreOf(filters_[j].inPorts))|
        invariant ZerosIn(inDegrees, stack) && MapsTo(mapInfo, filters_, index)
      {
        var f := filters_[index];
        var pre := f.GetPreFilters();
        PreUnchanged(f.inPorts);
        ZerosStep(inDegrees, stack, |pre|);
        MapsStep(mapInfo, filters_, index);
        inDegrees := inDegrees + [|pre|];
        if pre == [] {
          stack := stack + [index];
        }
        mapInfo := mapInfo[f := index];
      }
      AllMapped(mapInfo, filters_);
    }

    method ToIndices(next: seq<Filter>, mapInfo: map<Filter, nat>, ghost filters: seq<Filter>) returns (nexts: seq<nat>)
      requires NoDuplicates(filters) && forall f :: f in mapInfo <==> f in filters
      requires forall f | f in mapInfo :: mapInfo[f] < |filters| && filters[mapInfo[f]] == f
      ensures nexts == Indices(filters, next)
    {
      nexts := [];
      for k := 0 to |next|
        invariant nexts == Indices(filters, next[..k])
      {
        assert next[..k + 1][..k] == next[..k];
        if next[k] in mapInfo {
          nexts := nexts + [mapInfo[next[k]]];
        }
      }
      assert next[..|next|] == next;
    }

    /**
     * Reorders, then prepares the filters from the last to the first until one fails. `ready` are the filters whose
     * own Prepare succeeds; `visited` are those it was called on. Without a cycle, a filter is visited only
     * after all filters it feeds.
     */
    method Prepare(ready: set<Filter>) returns (success: bool, visited: seq<Filter>)
      requires NoDuplicates(filters_) && Symmetric(ToSet(filters_))
      modifies this`filters_
      ensures VisitedBackwards(filters_, visited, ready, success)
      ensures old(!Cyclic(LinkGraph(filters_))) ==> FedAreVisited(visited, old(NextMap(filters_)))
    {
      hide Symmetric, LinkGraph, NextMap, Cyclic, VisitedBackwards;
      ghost var nexts := NextMap(filters_);
      assert forall f | f in nexts :: f in filters_ && forall g | g in nexts[f] :: g in filters_ by {
        NextMapInside(filters_);
      }
      ReorderFilters();
      success, visited := PrepareBackwards(ready);
      if Precede(filters_, nexts) && IsPermutation(filters_, old(filters_)) {
        LaterIsVisited(filters_, old(filters_), nexts, visited, ready, success);
      }
    }

    method PrepareBackwards(ready: set<Filter>) returns (success: bool, visited: seq<Filter>)
      ensures VisitedBackwards(filters_, visited, ready, success)
    {
      visited, success := [], true;
      var i := |filters_|;
      while i > 0 && success
        invariant 0 <= i <= |filters_| && |visited| == |filters_| - i
        invariant forall k | 0 <= k < |visited| :: visited[k] == filters_[|filters_| - 1 - k]
        invariant success ==> forall k | 0 <= k < |visited| :: visited[k] in ready
        invariant !success ==> visited != [] && visited[|visited| - 1] !in ready
        invariant forall k | 0 <= k < |visited| - 1 :: visited[k] in ready
      {
        i := i - 1;
        visited := visited + [filters_[i]];
        success := filters_[i] in ready;
      }
    }

    /** Drops one filter, if it is there. */
    method RemoveFilter(filter: Filter)
      requires NoDuplicates(filters_)
      modifies this`filters_
      ensures NoDuplicates(filters_) && filters_ == Keep(old(filters_), {filter})
    {
      KeepAll(filters_, {filter});
      for k := 0 to |filters_|
        invariant filters_ == old(filters_) && filter !in filters_[..k]
      {
        if filters_[k] == filter {
          KeepRemoves(filters_, k);
          RemoveAtMembers(filters_, k);
          filters_ := RemoveAt(filters_, k);
          return;
        }
        assert filters_[..k + 1] == filters_[..k] + [filters_[k]];
      }
      assert filters_[..|filters_|] == filters_;
    }

    /** The last loop of Stop: drops every recorded filter, however often it was recorded. */
    method RemoveRecorded()
      requires NoDuplicates(filters_)
      modifies this`filters_
      ensures NoDuplicates(filters_) && filters_ == Keep(old(filters_), ToSet(filtersToRemove_))
    {
      KeepAll(filters_, {});
      assert ToSet(filtersToRemove_[..0]) == {};
      for k := 0 to |filtersToRemove_|
        invariant NoDuplicates(filters_) && filters_ == Keep(old(filters_), ToSet(filtersToRemove_[..k]))
      {
        RemoveFilter(filtersToRemove_[k]);
        KeepTwice(old(filters_), ToSet(filtersToRemove_[..k]), {filtersToRemove_[k]});
        assert ToSet(filtersToRemove_[..k + 1]) == ToSet(filtersToRemove_[..k]) + {filtersToRemove_[k]};
      }
      assert filtersToRemove_[..|filtersToRemove_|] == filtersToRemove_;
    }
  }

  /** The members of `s` outside `dropped`, in order. */
  ghost function Keep<T>(s: seq<T>, dropped: set<T>): seq<T> {
    if s == [] then []
    else Keep(s[..|s| - 1], dropped) + if s[|s| - 1] in dropped then [] else [s[|s| - 1]]
  }

  lemma {:induction false} KeepAll<T>(s: seq<T>, dropped: set<T>)
    ensures (forall x | x in s :: x !in dropped) ==> Keep(s, dropped) == s
  {
    if s != [] {
      KeepAll(s[..|s| - 1], dropped);
      assert s == s[..|s| - 1] + [s[|s| - 1]];
    }
  }

  lemma {:induction false} KeepRemoves<T>(s: seq<T>, k: nat)
    requires NoDuplicates(s) && k < |s|
    ensures Keep(s, {s[k]}) == RemoveAt(s, k)
  {
    var front := s[..|s| - 1];
    assert s == front + [s[|s| - 1]];
    if k == |s| - 1 {
      KeepAll(front, {s[k]});
    } else {
      KeepRemoves(front, k);
    }
  }

  lemma {:induction false} KeepTwice<T>(s: seq<T>, a: set<T>, b: set<T>)
    ensures Keep(Keep(s, a), b) == Keep(s, a + b)
  {
    if s != [] {
      var last := s[|s| - 1];
      KeepTwice(s[..|s| - 1], a, b);
      if last !in a {
        assert Keep(s, a)[..|Keep(s, a)| - 1] == Keep(s[..|s| - 1], a);
      } else {
        assert Keep(s, a) == Keep(s[..|s| - 1], a);
      }
    }
  }

  /** What is kept is exactly what was not dropped, in the old order. */
  lemma {:induction false} KeepMembers<T>(s: seq<T>, dropped: set<T>)
    ensures forall x :: x in Keep(s, dropped) <==> x in s && x !in dropped
    ensures Subsequence(Keep(s, dropped), s)
  {
    if s != [] {
      var front, last := s[..|s| - 1], s[|s| - 1];
      KeepMembers(front, dropped);
      assert s == front + [last];
      if last !in dropped {
        SubsequenceSnoc(Keep(front, dropped), front, last);
      } else {
        assert Keep(s, dropped) == Keep(front, dropped);
        SubsequenceExtendRight(Keep(front, dropped), front, [last]);
      }
    }
  }

  // ---------- Reordering ----------

  ghost function LinkGraph(filters: seq<Filter>): Graph
    reads filters, OutsOf(filters)
  {
    GraphOf(filters, |filters|)
  }

  ghost predicate IsPermutation<T>(a: seq<T>, b: seq<T>) {
    multiset(a) == multiset(b)
  }

  /** For each filter, the filters it feeds. */
  ghost function NextMap(filters: seq<Filter>): map<Filter, seq<Filter>>
    reads filters, OutsOf(filters)
  {
    map f | f in filters :: (assert forall o | o in f.outPorts :: o in OutsOf(filters); NextOf(f.outPorts))
  }

  /** Every filter stands before each filter it feeds. */
  ghost predicate Precede(filters: seq<Filter>, nexts: map<Filter, seq<Filter>>) {
    forall a, b | 0 <= a < |filters| && 0 <= b < |filters| && filters[a] in nexts && filters[b] in nexts[filters[a]] ::
      a < b
  }

  /** The filters fed by a visited filter were visited before it. */
  ghost predicate FedAreVisited(visited: seq<Filter>, nexts: map<Filter, seq<Filter>>) {
    forall k | 0 <= k < |visited| && visited[k] in nexts :: forall g | g in nexts[visited[k]] :: g in visited[..k]
  }

  /** The index graph and the next filters tell the same links. */
  lemma GraphMatchesNexts(filters: seq<Filter>)
    requires NoDuplicates(filters)
    ensures |LinkGraph(filters)| == |filters|
    ensures forall i | 0 <= i < |filters| :: filters[i] in NextMap(filters)
    ensures forall i, j | 0 <= i < |filters| && 0 <= j < |filters| ::
      j in LinkGraph(filters)[i] <==> filters[j] in NextMap(filters)[filters[i]]
  {
    GraphClosed(filters);
  }

  lemma NextMapInside(filters: seq<Filter>)
    requires Symmetric(ToSet(filters))
    ensures forall f | f in NextMap(filters) :: f in filters && forall g | g in NextMap(filters)[f] :: g in filters
  {
    forall f | f in filters
      ensures forall g | g in NextMap(filters)[f] :: g in filters
    {
      NextLiesInside(ToSet(filters), f);
    }
  }

  twostate lemma {:induction false} NextUnchanged(ports: seq<OutPort>)
    requires forall o | o in ports :: o.nextPort == old(o.nextPort)
    ensures NextOf(ports) == old(NextOf(ports))
  {
    if ports != [] {
      assert forall o | o in ports[..|ports| - 1] :: o in ports;
      NextUnchanged(ports[..|ports| - 1]);
      assert ports[|ports| - 1] in ports;
    }
  }

  twostate lemma {:induction false} PreUnchanged(ports: seq<InPort>)
    requires forall i | i in ports :: i.prevPort == old(i.prevPort)
    ensures PreOf(ports) == old(PreOf(ports))
  {
    if ports != [] {
      assert forall i | i in ports[..|ports| - 1] :: i in ports;
      PreUnchanged(ports[..|ports| - 1]);
      assert ports[|ports| - 1] in ports;
    }
  }

  lemma OrderIsPermutation(filters: seq<Filter>, order: seq<nat>, result: seq<Filter>)
    requires NoDuplicates(filters) && NoDuplicates(order) && |order| == |filters| == |result|
    requires forall j | j in order :: j < |filters|
    requires forall i | 0 <= i < |order| :: order[i] < |filters| && result[i] == filters[order[i]]
    ensures IsPermutation(result, filters)
  {
    BoundedDistinct(order, |filters|);
    assert NoDuplicates(result);
    forall f
      ensures f in result <==> f in filters
    {
      if f in filters {
        var j :| 0 <= j < |filters| && filters[j] == f;
        assert j in order;
        var i :| 0 <= i < |order| && order[i] == j;
        assert result[i] == f;
      }
    }
    DistinctCounts(result);
    DistinctCounts(filters);
  }

  lemma {:induction false} DistinctCounts<T>(s: seq<T>)
    requires NoDuplicates(s)
    ensures forall x :: multiset(s)[x] == if x in s then 1 else 0
  {
    if s != [] {
      var front := s[..|s| - 1];
      DistinctCounts(front);
      assert s == front + [s[|s| - 1]];
    }
  }

  lemma OrderPrecedes(filters: seq<Filter>, g: Graph, nexts: map<Filter, seq<Filter>>, order: seq<nat>, result: seq<Filter>)
    requires |order| == |filters| == |result| == |g|
    requires forall i | 0 <= i < |order| :: order[i] < |filters| && result[i] == filters[order[i]]
    requires Ordered(g, order) && NoDuplicates(order)
    requires forall i | 0 <= i < |filters| :: filters[i] in nexts
    requires forall i, j | 0 <= i < |filters| && 0 <= j < |filters| :: j in g[i] <==> filters[j] in nexts[filters[i]]
    ensures Precede(result, nexts)
  {
    forall a, b | 0 <= a < |result| && 0 <= b < |result| && result[b] in nexts[result[a]]
      ensures a < b
    {
      assert order[b] in g[order[a]];
      assert order[a] in order[..b];
    }
  }

  /** The walk goes from the last filter down, stops at the first that is not ready, and otherwise covers all. */
  ghost predicate VisitedBackwards(filters: seq<Filter>, visited: seq<Filter>, ready: set<Filter>, success: bool) {
    && |visited| <= |filters|
    && (forall k | 0 <= k < |visited| :: visited[k] == filters[|filters| - 1 - k])
    && (forall k | 0 <= k < |visited| - 1 :: visited[k] in ready)
    && (if success then |visited| == |filters| && forall k | 0 <= k < |visited| :: visited[k] in ready
        else visited != [] && visited[|visited| - 1] !in ready)
  }

  lemma LaterIsVisited(filters: seq<Filter>, before: seq<Filter>, nexts: map<Filter, seq<Filter>>,
                       visited: seq<Filter>, ready: set<Filter>, success: bool)
    requires Precede(filters, nexts) && VisitedBackwards(filters, visited, ready, success)
    requires IsPermutation(filters, before)
    requires forall f | f in nexts :: f in before && forall g | g in nexts[f] :: g in before
    ensures FedAreVisited(visited, nexts)
  {
    forall k, g | 0 <= k < |visited| && visited[k] in nexts && g in nexts[visited[k]]
      ensures g in visited[..k]
    {
      assert g in multiset(before);
      var b :| 0 <= b < |filters| && filters[b] == g;
      assert |filters| - 1 - k < b;
      assert visited[..k][|filters| - 1 - b] == g;
    }
  }

  // ---------- Removing a chain ----------

  /** What holds between the visits of the walk. `links` are the links left of `links0`. */
  ghost predicate WalkInv(links0: Links, links: Links, first: Filter, fs: set<Filter>,
                          recorded: seq<Filter>, level: seq<Filter>)
  {
    && links == Remaining(links0, recorded)
    && (forall f | f in recorded + level :: f in fs && Reachable(links0, first, f))
    && (first in recorded || first in level)
    && (forall e | e in links && e.0 in recorded :: e.1 in level)
  }

  lemma WalkStarts(links0: Links, first: Filter, fs: set<Filter>)
    requires first in fs
    ensures WalkInv(links0, links0, first, fs, [], [first])
  {
    assert ReachIn(links0, first, first, 0);
  }

  lemma WalkAdvances(links0: Links, links: Links, first: Filter, fs: set<Filter>,
                     recorded: seq<Filter>, level: seq<Filter>, next: seq<Filter>)
    requires level != [] && WalkInv(links0, links, first, fs, recorded, level)
    requires forall g :: g in next <==> (level[0], g) in WithoutInto(links, level[0])
    requires forall g | g in next :: g in fs
    ensures var links' := WithoutInto(links, level[0]);
            && WalkInv(links0, links', first, fs, recorded + [level[0]], level[1..] + next)
            && (|| |Targets(links')| < |Targets(links)|
                || (links' == links && Unlinked(level[1..] + next, Targets(links)) < Unlinked(level, Targets(links))))
  {
    var f, rest := level[0], level[1..];
    assert level == [f] + rest;
    forall g | g in next
      ensures Reachable(links0, first, g)
    {
      ReachableStep(links0, first, f, g);
    }
    StepDecreases(links, f, rest, next);
  }

  lemma WalkEnds(links0: Links, links: Links, first: Filter, fs: set<Filter>, recorded: seq<Filter>)
    requires WalkInv(links0, links, first, fs, recorded, [])
    ensures forall f | f in fs :: f in recorded <==> Reachable(links0, first, f)
    ensures forall f | f in recorded :: f in fs
    ensures links == set e | e in links0 && e.0 !in recorded && e.1 !in recorded
  {
    forall f | f in fs && Reachable(links0, first, f)
      ensures f in recorded
    {
      var n: nat :| ReachIn(links0, first, f, n);
      ClosedHolds(links0, ToSet(recorded), first, f, n);
    }
  }

  ghost function Remaining(links: Links, cut: seq<Filter>): Links {
    set e | e in links && e.1 !in cut
  }

  lemma NextLiesInside(fs: set<Filter>, f: Filter)
    requires f in fs && Symmetric(fs)
    ensures forall g :: g in NextOf(f.outPorts) <==> (f, g) in LinksOf(fs)
    ensures forall g | g in NextOf(f.outPorts) :: g in fs
  {
    NextIsLinked(fs, f);
    forall g | g in NextOf(f.outPorts)
      ensures g in fs
    {
      var o := NextPort(f.outPorts, g);
      assert o in Outs(fs) && o.nextPort in Ins(fs);
    }
  }

  // ---------- The first pass ----------

  /** The map holds the positions of the first `n` filters. */
  ghost predicate MapsTo(mapInfo: map<Filter, nat>, filters: seq<Filter>, n: nat)
    requires n <= |filters|
  {
    && mapInfo.Keys == ToSet(filters[..n])
    && (forall f | f in mapInfo :: mapInfo[f] < n && filters[mapInfo[f]] == f)
  }

  lemma NothingYet(filters: seq<Filter>)
    ensures ZerosIn([], []) && MapsTo(map[], filters, 0)
  {
  }

  lemma ZerosStep(inDegrees: seq<nat>, stack: seq<nat>, degree: nat)
    requires ZerosIn(inDegrees, stack)
    ensures ZerosIn(inDegrees + [degree], if degree == 0 then stack + [|inDegrees|] else stack)
  {
    assert |inDegrees| !in stack;
  }

  lemma MapsStep(mapInfo: map<Filter, nat>, filters: seq<Filter>, n: nat)
    requires n < |filters| && NoDuplicates(filters) && MapsTo(mapInfo, filters, n)
    ensures MapsTo(mapInfo[filters[n] := n], filters, n + 1)
  {
    assert filters[..n + 1] == filters[..n] + [filters[n]];
  }

  lemma AllMapped(mapInfo: map<Filter, nat>, filters: seq<Filter>)
    requires MapsTo(mapInfo, filters, |filters|)
    ensures forall f :: f in mapInfo <==> f in filters
    ensures forall f | f in mapInfo :: mapInfo[f] < |filters| && filters[mapInfo[f]] == f
  {
    assert filters[..|filters|] == filters;
  }

  lemma LinksCounted(filters: seq<Filter>)
    requires NoDuplicates(filters) && Symmetric(ToSet(filters))
    ensures |LinkGraph(filters)| == |filters|
    ensures forall j | 0 <= j < |filters| ::
      |PreOf(filters[j].inPorts)| == LinksInto(LinkGraph(filters), {}, j, |filters|)
  {
    GraphOfAt(filters, |filters|);
    forall j | 0 <= j < |filters|
      ensures |PreOf(filters[j].inPorts)| == LinksInto(LinkGraph(filters), {}, j, |filters|)
    {
      InDegreeIsPreCount(filters, j);
    }
  }

  lemma InitialDegrees(graph: Graph, inDegrees: seq<nat>)
    requires |inDegrees| == |graph| && forall j | 0 <= j < |graph| :: inDegrees[j] == LinksInto(graph, {}, j, |graph|)
    ensures DegreesAre(graph, inDegrees, {}, [])
  {
  }

  /** The walk's measure: linked filters first, then queue entries that nothing leads to. */
  lemma StepDecreases(links: Links, f: Filter, rest: seq<Filter>, next: seq<Filter>)
    requires forall g | g in next :: (f, g) in WithoutInto(links, f)
    ensures var links' := WithoutInto(links, f);
            || |Targets(links')| < |Targets(links)|
            || (links' == links && Unlinked(rest + next, Targets(links)) < Unlinked([f] + rest, Targets(links)))
  {
    var links' := WithoutInto(links, f);
    if f in Targets(links) {
      assert Targets(links') == Targets(links) - {f} by {
        forall g | g in Targets(links) && g != f
          ensures g in Targets(links')
        {
          var e :| e in links && e.1 == g;
          assert e in links';
        }
      }
    } else {
      assert links' == links by {
        forall e | e in links ensures e.1 != f { assert e.1 in Targets(links); }
      }
      forall g | g in next ensures g in Targets(links) { assert (f, g).1 == g; }
      UnlinkedAppend(rest, next, Targets(links));
    }
  }

  method CutLinksInto(f: Filter, ghost fs: set<Filter>)
    requires f in fs && Symmetric(fs)
    modifies Ins(fs), Outs(fs)
    ensures Symmetric(fs) && LinksOf(fs) == WithoutInto(old(LinksOf(fs)), f)
  {
    assert forall i | i in Ins(fs) :: i.filter == f <==> i in f.inPorts;
    hide NoDuplicates;
    UnlinkPrevFilters(f, Ins(fs), Outs(fs));
    assert forall o | o in Outs(fs) && o.nextPort != null :: o.nextPort == old(o.nextPort);
  }
}
