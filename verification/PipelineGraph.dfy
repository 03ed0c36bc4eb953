/** The link graph of a list of filters, and why counting in-ports gives the in-degrees of that graph. */
module PipelineGraph {
  import opened Sequences
  import opened KahnSort
  import opened PipelinePorts

  ghost function IndexOf(filters: seq<Filter>, f: Filter): (i: nat)
    requires f in filters
    ensures i < |filters| && filters[i] == f
  {
    var i :| 0 <= i < |filters| && filters[i] == f;
    i
  }

  ghost function Indices(filters: seq<Filter>, fs: seq<Filter>): seq<nat> {
    if fs == [] then []
    else
      var f := fs[|fs| - 1];
      Indices(filters, fs[..|fs| - 1]) + if f in filters then [IndexOf(filters, f)] else []
  }

  ghost function OutsOf(filters: seq<Filter>): set<OutPort>
    reads filters
  {
    set f, o | f in filters && o in f.outPorts :: o
  }

  /** Successor lists, by index, of the first `k` filters. */
  ghost function GraphOf(filters: seq<Filter>, k: nat): seq<seq<nat>>
    requires k <= |filters|
    reads filters, OutsOf(filters)
  {
    if k == 0 then []
    else
      var f := filters[k - 1];
      assert f in filters && forall o | o in f.outPorts :: o in OutsOf(filters);
      GraphOf(filters, k - 1) + [Indices(filters, NextOf(f.outPorts))]
  }

  lemma {:induction false} GraphOfAt(filters: seq<Filter>, k: nat)
    requires k <= |filters|
    ensures |GraphOf(filters, k)| == k
    ensures forall i | 0 <= i < k :: GraphOf(filters, k)[i] == Indices(filters, NextOf(filters[i].outPorts))
  {
    if k > 0 {
      GraphOfAt(filters, k - 1);
    }
  }

  lemma {:induction false} IndicesMembers(filters: seq<Filter>, fs: seq<Filter>)
    requires NoDuplicates(filters)
    ensures forall j :: j in Indices(filters, fs) <==> 0 <= j < |filters| && filters[j] in fs
  {
    if fs != [] {
      IndicesMembers(filters, fs[..|fs| - 1]);
      assert fs == fs[..|fs| - 1] + [fs[|fs| - 1]];
    }
  }

  lemma GraphClosed(filters: seq<Filter>)
    requires NoDuplicates(filters)
    ensures |GraphOf(filters, |filters|)| == |filters| && Closed(GraphOf(filters, |filters|))
    ensures forall i, j | 0 <= i < |filters| && 0 <= j < |filters| ::
      j in GraphOf(filters, |filters|)[i] <==> filters[j] in NextOf(filters[i].outPorts)
  {
    GraphOfAt(filters, |filters|);
    forall i | 0 <= i < |filters|
      ensures forall j :: j in GraphOf(filters, |filters|)[i] <==> 0 <= j < |filters| && filters[j] in NextOf(filters[i].outPorts)
    {
      IndicesMembers(filters, NextOf(filters[i].outPorts));
    }
  }

  // ---------- In-ports and links into a filter are equally many ----------

  ghost function LinkedIns(ports: seq<InPort>): set<InPort>
    reads ports
  {
    set i | i in ports && i.prevPort != null
  }

  lemma {:induction false} PreCount(ports: seq<InPort>)
    requires NoDuplicates(ports)
    ensures |PreOf(ports)| == |LinkedIns(ports)|
  {
    if ports != [] {
      var last := ports[|ports| - 1];
      PreCount(ports[..|ports| - 1]);
      assert ports == ports[..|ports| - 1] + [last];
      assert last !in ports[..|ports| - 1];
      assert LinkedIns(ports) == LinkedIns(ports[..|ports| - 1]) + if last.prevPort == null then {} else {last};
    }
  }

  ghost function OutsTo(ports: seq<OutPort>, f: Filter): set<OutPort>
    reads ports
  {
    set o | o in ports && o.nextPort != null && o.nextPort.filter == f
  }

  lemma {:induction false} CountSnoc(s: seq<nat>, x: nat, y: nat)
    ensures Count(s + [x], y) == Count(s, y) + if x == y then 1 else 0
  {
    if s != [] {
      assert (s + [x])[1..] == s[1..] + [x];
      CountSnoc(s[1..], x, y);
    }
  }

  lemma OutsToSnoc(front: seq<OutPort>, last: OutPort, f: Filter)
    requires NoDuplicates(front + [last])
    ensures |OutsTo(front + [last], f)| ==
            |OutsTo(front, f)| + if last.nextPort != null && last.nextPort.filter == f then 1 else 0
  {
    var ports := front + [last];
    assert ports[|front|] == last && forall k | 0 <= k < |front| :: ports[k] == front[k];
    assert OutsTo(ports, f) ==
           OutsTo(front, f) + if last.nextPort != null && last.nextPort.filter == f then {last} else {};
  }

  lemma IndicesSnoc(filters: seq<Filter>, fs: seq<Filter>, f: Filter, j: nat)
    requires NoDuplicates(filters) && j < |filters|
    ensures Count(Indices(filters, fs + [f]), j) == Count(Indices(filters, fs), j) + if f == filters[j] then 1 else 0
  {
    assert (fs + [f])[..|fs|] == fs;
    if f in filters {
      CountSnoc(Indices(filters, fs), IndexOf(filters, f), j);
    } else {
      assert filters[j] in filters && Indices(filters, fs + [f]) == Indices(filters, fs);
    }
  }

  lemma {:induction false} NextCount(filters: seq<Filter>, ports: seq<OutPort>, j: nat)
    requires NoDuplicates(filters) && NoDuplicates(ports) && j < |filters|
    ensures Count(Indices(filters, NextOf(ports)), j) == |OutsTo(ports, filters[j])|
  {
    if ports != [] {
      var last, front := ports[|ports| - 1], ports[..|ports| - 1];
      NextCount(filters, front, j);
      assert ports == front + [last];
      OutsToSnoc(front, last, filters[j]);
      if last.nextPort == null {
        assert NextOf(ports) == NextOf(front);
      } else {
        IndicesSnoc(filters, NextOf(front), last.nextPort.filter, j);
      }
    }
  }

  ghost function AllOutsTo(filters: seq<Filter>, k: nat, f: Filter): set<OutPort>
    requires k <= |filters|
    reads filters, OutsOf(filters)
  {
    if k == 0 then {}
    else
      var h := filters[k - 1];
      assert h in filters && forall o | o in h.outPorts :: o in OutsOf(filters);
      AllOutsTo(filters, k - 1, f) + OutsTo(h.outPorts, f)
  }

  lemma {:induction false} AllOutsToMembers(filters: seq<Filter>, k: nat, f: Filter)
    requires k <= |filters| && Wired(ToSet(filters))
    ensures forall o :: o in AllOutsTo(filters, k, f) <==>
      o.filter in filters[..k] && o in o.filter.outPorts && o.nextPort != null && o.nextPort.filter == f
  {
    if k > 0 {
      AllOutsToMembers(filters, k - 1, f);
      assert filters[..k] == filters[..k - 1] + [filters[k - 1]];
      assert filters[k - 1] in ToSet(filters);
    }
  }

  lemma OutsToDisjoint(filters: seq<Filter>, k: nat, f: Filter)
    requires NoDuplicates(filters) && Wired(ToSet(filters)) && 0 < k <= |filters|
    ensures NoDuplicates(filters[k - 1].outPorts)
    ensures |AllOutsTo(filters, k, f)| == |AllOutsTo(filters, k - 1, f)| + |OutsTo(filters[k - 1].outPorts, f)|
  {
    var h := filters[k - 1];
    assert h in ToSet(filters) && h !in filters[..k - 1];
    AllOutsToMembers(filters, k - 1, f);
    assert AllOutsTo(filters, k - 1, f) !! OutsTo(h.outPorts, f);
  }

  lemma LinksOfOne(filters: seq<Filter>, i: nat, j: nat)
    requires NoDuplicates(filters) && Wired(ToSet(filters)) && i < |filters| && j < |filters|
    ensures |GraphOf(filters, |filters|)| == |filters|
    ensures Count(GraphOf(filters, |filters|)[i], j) == |OutsTo(filters[i].outPorts, filters[j])|
  {
    GraphOfAt(filters, |filters|);
    OutsToDisjoint(filters, i + 1, filters[j]);
    hide GraphOf, Wired;
    NextCount(filters, filters[i].outPorts, j);
  }

  /** Links into a filter, counted over the graph, are its incoming out-ports. */
  lemma {:induction false} LinksIntoCount(filters: seq<Filter>, j: nat, k: nat)
    requires NoDuplicates(filters) && Wired(ToSet(filters)) && j < |filters| && k <= |filters|
    ensures |GraphOf(filters, |filters|)| == |filters|
    ensures LinksInto(GraphOf(filters, |filters|), {}, j, k) == |AllOutsTo(filters, k, filters[j])|
  {
    hide GraphOf, Wired, NoDuplicates, OutsTo, Count;
    if k > 0 {
      LinksIntoCount(filters, j, k - 1);
      LinksOfOne(filters, k - 1, j);
      OutsToDisjoint(filters, k, filters[j]);
      hide AllOutsTo;
    } else {
      LinksOfOne(filters, j, j);
    }
  }

  lemma {:induction false} InjectiveSize<X, Y>(m: map<X, Y>)
    requires forall x, y | x in m && y in m && m[x] == m[y] :: x == y
    ensures |m.Keys| == |m.Values|
  {
    if m.Keys == {} {
      assert m.Values == {};
    } else {
      var x :| x in m.Keys;
      var m' := m - {x};
      InjectiveSize(m');
      assert m.Keys == m'.Keys + {x};
      assert m.Values == m'.Values + {m[x]};
    }
  }

  /** On symmetric links, the in-ports that are linked are as many as the out-ports that lead to the filter. */
  lemma InDegreeIsPreCount(filters: seq<Filter>, j: nat)
    requires NoDuplicates(filters) && Symmetric(ToSet(filters)) && j < |filters|
    ensures |GraphOf(filters, |filters|)| == |filters|
    ensures |PreOf(filters[j].inPorts)| == LinksInto(GraphOf(filters, |filters|), {}, j, |filters|)
  {
    var f, fs := filters[j], ToSet(filters);
    assert f in fs && filters[..|filters|] == filters;
    PreCount(f.inPorts);
    LinksIntoCount(filters, j, |filters|);
    AllOutsToMembers(filters, |filters|, f);
    PeersMatch(f, fs, AllOutsTo(filters, |filters|, f));
  }

  /** Following the links backwards pairs the linked in-ports of `f` with the out-ports leading to it. */
  lemma PeersMatch(f: Filter, fs: set<Filter>, outs: set<OutPort>)
    requires f in fs && Symmetric(fs)
    requires forall o :: o in outs <==> o.filter in fs && o in o.filter.outPorts && o.nextPort != null && o.nextPort.filter == f
    ensures |LinkedIns(f.inPorts)| == |outs|
  {
    var peer := map i | i in LinkedIns(f.inPorts) :: i.prevPort;
    assert forall i | i in f.inPorts :: i in Ins(fs);
    forall i, j | i in peer && j in peer && peer[i] == peer[j]
      ensures i == j
    {
      assert i.prevPort.nextPort == i && j.prevPort.nextPort == j;
    }
    InjectiveSize(peer);
    forall o | o in outs
      ensures o in peer.Values
    {
      assert o in Outs(fs);
      assert o.nextPort in peer && peer[o.nextPort] == o;
    }
    assert peer.Values == outs;
    assert peer.Keys == LinkedIns(f.inPorts);
  }
}
