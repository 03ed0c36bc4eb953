/** Filters, their ports, and the links between ports. */
module PipelinePorts {
  import opened Sequences

  class InPort {
    const filter: Filter
    var prevPort: OutPort?

    constructor (filter: Filter)
      ensures this.filter == filter && prevPort == null
    {
      this.filter := filter;
      prevPort := null;
    }

    method Connect(port: OutPort)
      modifies this
      ensures prevPort == port
    {
      prevPort := port;
    }

    method Disconnect()
      modifies this
      ensures prevPort == null
    {
      prevPort := null;
    }
  }

  class OutPort {
    const filter: Filter
    var nextPort: InPort?

    constructor (filter: Filter)
      ensures this.filter == filter && nextPort == null
    {
      this.filter := filter;
      nextPort := null;
    }

    /** Refused unless both filters belong to one pipeline. */
    method Connect(port: InPort) returns (ok: bool)
      modifies this
      ensures ok <==> filter.pipeline != 0 && filter.pipeline == port.filter.pipeline
      ensures nextPort == if ok then port else old(nextPort)
    {
      ok := filter.pipeline != 0 && port.filter.pipeline != 0 && filter.pipeline == port.filter.pipeline;
      if ok {
        nextPort := port;
      }
    }

    method Disconnect()
      modifies this
      ensures nextPort == null
    {
      nextPort := null;
    }
  }

  class Filter {
    var inPorts: seq<InPort>
    var outPorts: seq<OutPort>
    const pipeline: int  // the owning pipeline, 0 before Init

    constructor (pipeline: int)
      ensures this.pipeline == pipeline
      ensures |inPorts| == 1 && fresh(inPorts[0]) && inPorts[0].filter == this && inPorts[0].prevPort == null
      ensures |outPorts| == 1 && fresh(outPorts[0]) && outPorts[0].filter == this && outPorts[0].nextPort == null
    {
      this.pipeline := pipeline;
      new;
      var inPort := new InPort(this);
      var outPort := new OutPort(this);
      inPorts, outPorts := [inPort], [outPort];
    }

    /** The filters behind the linked out-ports, in port order. */
    method GetNextFilters() returns (next: seq<Filter>)
      ensures next == NextOf(outPorts)
    {
      next := [];
      for k := 0 to |outPorts|
        invariant next == NextOf(outPorts[..k])
      {
        assert outPorts[..k + 1][..k] == outPorts[..k];
        var peer := outPorts[k].nextPort;
        if peer != null {
          next := next + [peer.filter];
        }
      }
      assert outPorts[..|outPorts|] == outPorts;
    }

    /** The filters before the linked in-ports, in port order. */
    method GetPreFilters() returns (pre: seq<Filter>)
      ensures pre == PreOf(inPorts)
    {
      pre := [];
      for k := 0 to |inPorts|
        invariant pre == PreOf(inPorts[..k])
      {
        assert inPorts[..k + 1][..k] == inPorts[..k];
        var peer := inPorts[k].prevPort;
        if peer != null {
          pre := pre + [peer.filter];
        }
      }
      assert inPorts[..|inPorts|] == inPorts;
    }
  }

  ghost function NextOf(ports: seq<OutPort>): seq<Filter>
    reads ports
  {
    if ports == [] then []
    else
      var o := ports[|ports| - 1];
      NextOf(ports[..|ports| - 1]) + if o.nextPort == null then [] else [o.nextPort.filter]
  }

  ghost function PreOf(ports: seq<InPort>): seq<Filter>
    reads ports
  {
    if ports == [] then []
    else
      var i := ports[|ports| - 1];
      PreOf(ports[..|ports| - 1]) + if i.prevPort == null then [] else [i.prevPort.filter]
  }

  // ---------- The link structure of a set of filters ----------

  ghost function Ins(fs: set<Filter>): set<InPort>
    reads fs
  {
    set f, i | f in fs && i in f.inPorts :: i
  }

  ghost function Outs(fs: set<Filter>): set<OutPort>
    reads fs
  {
    set f, o | f in fs && o in f.outPorts :: o
  }

  /** Every port lies once in its own filter. */
  ghost predicate Wired(fs: set<Filter>)
    reads fs
  {
    && (forall f | f in fs :: NoDuplicates(f.inPorts) && NoDuplicates(f.outPorts))
    && (forall f, i | f in fs && i in f.inPorts :: i.filter == f)
    && (forall f, o | f in fs && o in f.outPorts :: o.filter == f)
  }

  /** Links join ports of the two sets, and both ends of every link agree. */
  ghost predicate Paired(ins: set<InPort>, outs: set<OutPort>)
    reads ins, outs
  {
    && (forall i | i in ins && i.prevPort != null :: i.prevPort in outs && i.prevPort.nextPort == i)
    && (forall o | o in outs && o.nextPort != null :: o.nextPort in ins && o.nextPort.prevPort == o)
  }

  /** The link graph of `fs` is symmetric and stays inside `fs`. */
  ghost predicate Symmetric(fs: set<Filter>)
    reads fs, Ins(fs), Outs(fs)
  {
    Wired(fs) && Paired(Ins(fs), Outs(fs))
  }

  type Links = set<(Filter, Filter)>

  /** The filter pairs joined by at least one link. */
  ghost function LinksOf(fs: set<Filter>): Links
    reads fs, Outs(fs)
  {
    set f, o | f in fs && o in f.outPorts && o.nextPort != null :: (f, o.nextPort.filter)
  }

  /** The port behind a next filter. */
  lemma {:induction false} NextPort(ports: seq<OutPort>, g: Filter) returns (o: OutPort)
    requires g in NextOf(ports)
    ensures o in ports && o.nextPort != null && o.nextPort.filter == g
  {
    o := ports[|ports| - 1];
    if o.nextPort == null || o.nextPort.filter != g {
      o := NextPort(ports[..|ports| - 1], g);
    }
  }

  lemma {:induction false} NextOfPort(ports: seq<OutPort>, o: OutPort)
    requires o in ports && o.nextPort != null
    ensures o.nextPort.filter in NextOf(ports)
  {
    assert ports == ports[..|ports| - 1] + [ports[|ports| - 1]];
    if o != ports[|ports| - 1] {
      NextOfPort(ports[..|ports| - 1], o);
    }
  }

  /** A filter's next filters are exactly its link successors. */
  lemma NextIsLinked(fs: set<Filter>, f: Filter)
    requires f in fs
    ensures forall g :: g in NextOf(f.outPorts) <==> (f, g) in LinksOf(fs)
  {
    forall g | g in NextOf(f.outPorts)
      ensures (f, g) in LinksOf(fs)
    {
      var o := NextPort(f.outPorts, g);
    }
    forall g | (f, g) in LinksOf(fs)
      ensures g in NextOf(f.outPorts)
    {
      var o :| o in f.outPorts && o.nextPort != null && o.nextPort.filter == g;
      NextOfPort(f.outPorts, o);
    }
  }

  /** Cuts every link into `f`, at both ends, and nothing else. */
  method UnlinkPrevFilters(f: Filter, ghost ins: set<InPort>, ghost outs: set<OutPort>)
    requires Paired(ins, outs) && NoDuplicates(f.inPorts)
    requires forall i | i in f.inPorts :: i in ins
    requires forall i | i in ins :: i.filter == f <==> i in f.inPorts
    modifies ins, outs
    ensures Paired(ins, outs)
    ensures forall i | i in ins :: i.prevPort == if i.filter == f then null else old(i.prevPort)
    ensures forall o | o in outs :: o.nextPort == if old(o.nextPort) != null && old(o.nextPort).filter == f
                                                  then null else old(o.nextPort)
  {
    var ports := f.inPorts;
    for k := 0 to |ports|
      invariant Paired(ins, outs)
      invariant forall i | i in ins :: i.prevPort == if i in ports[..k] then null else old(i.prevPort)
      invariant forall o | o in outs ::
        o.nextPort == if old(o.nextPort) != null && old(o.nextPort) in ports[..k] then null else old(o.nextPort)
    {
      var inPort := ports[k];
      assert inPort in ins && ports[..k + 1] == ports[..k] + [inPort];
      var peer := inPort.prevPort;
      inPort.Disconnect();
      if peer != null {
        peer.Disconnect();
      }
    }
    assert ports[..|ports|] == ports;
  }

  /**
   * Linking two ports of one pipeline keeps both ends of every link in agreement exactly when each port is
   * unlinked or already linked to the other: a connect does not cut the old link of either port.
   */
  method LinkPorts(port1: OutPort, port2: InPort, ghost ins: set<InPort>, ghost outs: set<OutPort>) returns (ok: bool)
    requires Paired(ins, outs) && port1 in outs && port2 in ins
    modifies port1, port2
    ensures ok <==> port1.filter.pipeline != 0 && port1.filter.pipeline == port2.filter.pipeline
    ensures !ok ==> port1.nextPort == old(port1.nextPort) && port2.prevPort == old(port2.prevPort)
    ensures ok ==> port1.nextPort == port2 && port2.prevPort == port1
    ensures ok ==> (Paired(ins, outs) <==>
                    old(port1.nextPort) in {null, port2} && old(port2.prevPort) in {null, port1})
  {
    ok := port1.Connect(port2);
    if ok {
      port2.Connect(port1);
      ghost var x, y := old(port1.nextPort), old(port2.prevPort);
      if x != null && x != port2 {
        assert x in ins && x.prevPort == port1 && x.prevPort.nextPort != x;
      } else if y != null && y != port1 {
        assert y in outs && y.nextPort == port2 && y.nextPort.prevPort != y;
      }
    }
  }

  /** Linking a port a second time leaves its first peer pointing back at it. */
  method RelinkBreaksSymmetry(pipeline: int) returns (port: OutPort, first: InPort, second: InPort)
    requires pipeline != 0
    ensures first != second && port.nextPort == second && second.prevPort == port && first.prevPort == port
    ensures !Paired({first, second}, {port})
  {
    var a := new Filter(pipeline);
    var b := new Filter(pipeline);
    var c := new Filter(pipeline);
    port, first, second := a.outPorts[0], b.inPorts[0], c.inPorts[0];
    var _ := LinkPorts(port, first, {first, second}, {port});
    var _ := LinkPorts(port, second, {first, second}, {port});
  }

  /**
   * Linking as a chain of filters does it, without a look at whether the out-port agreed. Across pipelines the in-port
   * alone is set, and both ends agree only if they were linked before.
   */
  method LinkPair(port1: OutPort, port2: InPort, ghost ins: set<InPort>, ghost outs: set<OutPort>)
    requires Paired(ins, outs) && port1 in outs && port2 in ins
    modifies port1, port2
    ensures var joined := port1.filter.pipeline != 0 && port1.filter.pipeline == port2.filter.pipeline;
            && port2.prevPort == port1
            && port1.nextPort == (if joined then port2 else old(port1.nextPort))
            && (Paired(ins, outs) <==>
                  if joined then old(port1.nextPort) in {null, port2} && old(port2.prevPort) in {null, port1}
                  else old(port1.nextPort) == port2)
  {
    var ok := port1.Connect(port2);
    port2.Connect(port1);
    ghost var x, y := old(port1.nextPort), old(port2.prevPort);
    if ok && x != null && x != port2 {
      assert x in ins && x.prevPort == port1 && x.prevPort.nextPort != x;
    } else if ok && y != null && y != port1 {
      assert y in outs && y.nextPort == port2 && y.nextPort.prevPort != y;
    }
  }

  /** Filters of two pipelines: the in-port points at an out-port that does not know it. */
  method LinkAcrossBreaksSymmetry() returns (port1: OutPort, port2: InPort)
    ensures port1.nextPort == null && port2.prevPort == port1 && !Paired({port2}, {port1})
  {
    var a := new Filter(1);
    var b := new Filter(2);
    port1, port2 := a.outPorts[0], b.inPorts[0];
    LinkPair(port1, port2, {port2}, {port1});
  }

  /** Each filter has a default port on either side, of its own. */
  ghost predicate HasDefaultPorts(filters: seq<Filter>)
    reads filters
  {
    forall f | f in filters :: f.inPorts != [] && f.outPorts != [] && f.inPorts[0].filter == f && f.outPorts[0].filter == f
  }

  /** The default ports are linked in a chain up to filter `i`, and free from there on. */
  ghost predicate ChainedTo(filters: seq<Filter>, i: nat, ins: set<InPort>, outs: set<OutPort>)
    requires HasDefaultPorts(filters) && forall f | f in filters :: f.inPorts[0] in ins && f.outPorts[0] in outs
    reads filters, ins, outs
  {
    && (forall j | 0 <= j < i && j + 1 < |filters| ::
          && filters[j].outPorts[0].nextPort == filters[j + 1].inPorts[0]
          && filters[j + 1].inPorts[0].prevPort == filters[j].outPorts[0])
    && (forall j | i <= j < |filters| :: filters[j].outPorts[0].nextPort == null)
    && (forall j | i < j < |filters| :: filters[j].inPorts[0].prevPort == null)
  }

  /** One link of the chain. */
  method LinkNext(filters: seq<Filter>, i: nat, pipeline: int, ghost ins: set<InPort>, ghost outs: set<OutPort>)
    requires Paired(ins, outs) && NoDuplicates(filters) && HasDefaultPorts(filters) && pipeline != 0
    requires forall f | f in filters :: f.pipeline == pipeline && f.inPorts[0] in ins && f.outPorts[0] in outs
    requires i + 1 < |filters| && ChainedTo(filters, i, ins, outs)
    modifies ins, outs
    ensures Paired(ins, outs) && ChainedTo(filters, i + 1, ins, outs)
  {
    var port1, port2 := filters[i].outPorts[0], filters[i + 1].inPorts[0];
    assert forall j | 0 <= j < |filters| && j != i :: filters[j].outPorts[0] != port1;
    assert forall j | 0 <= j < |filters| && j != i + 1 :: filters[j].inPorts[0] != port2;
    hide NoDuplicates, Paired;
    LinkPair(port1, port2, ins, outs);
  }

  /** Links the default ports of filters of one pipeline in a chain. Links stay symmetric. */
  method LinkFilters(filters: seq<Filter>, pipeline: int, ghost ins: set<InPort>, ghost outs: set<OutPort>)
    requires Paired(ins, outs) && NoDuplicates(filters) && HasDefaultPorts(filters) && pipeline != 0
    requires forall f | f in filters :: f.pipeline == pipeline && f.inPorts[0] in ins && f.outPorts[0] in outs
    requires forall f | f in filters :: f.inPorts[0].prevPort == null && f.outPorts[0].nextPort == null
    modifies ins, outs
    ensures Paired(ins, outs) && ChainedTo(filters, if |filters| == 0 then 0 else |filters| - 1, ins, outs)
  {
    var count := if |filters| == 0 then 0 else |filters| - 1;
    assert ChainedTo(filters, 0, ins, outs);
    hide ChainedTo, Paired, NoDuplicates;
    for i := 0 to count
      invariant Paired(ins, outs) && ChainedTo(filters, i, ins, outs)
    {
      LinkNext(filters, i, pipeline, ins, outs);
    }
  }
}
