/** The plugin registry: a table of plugins per type, and per type the list of names in listing order. */
module PluginRegistry {
  import opened Sequences

  datatype PluginType =
    | Invalid | Source | Demuxer | Muxer | AudioDecoder | VideoDecoder | AudioEncoder | VideoEncoder
    | AudioSink | VideoSink | OutputSink | Generic | OtherType(code: int)

  /** 0 stands for no loader. */
  type Loader = nat

  datatype Definition = Definition(pluginType: PluginType, name: string, rank: int, apiVersion: int, hardware: bool)

  datatype RegInfo = RegInfo(pluginType: PluginType, loader: Loader, hardware: bool)

  datatype Status = OK | InvalidData | VersionMismatch | AlreadyExists

  type Table = map<PluginType, map<string, RegInfo>>
  type Names = map<PluginType, seq<string>>

  datatype Registry = Registry(table: Table, names: Names)

  predicate IsCodec(t: PluginType) {
    t in {AudioDecoder, VideoDecoder, AudioEncoder, VideoEncoder}
  }

  function TableOf(r: Registry, t: PluginType): map<string, RegInfo> {
    if t in r.table then r.table[t] else map[]
  }

  function NamesOf(r: Registry, t: PluginType): seq<string> {
    if t in r.names then r.names[t] else []
  }

  /** The upper half of the version must match, the lower must not exceed that of the core; generic plugins have none. */
  predicate VersionMatched(d: Definition, core: map<PluginType, int>) {
    d.pluginType == Generic ||
    var version := if d.pluginType in core then core[d.pluginType] else 0;
    && (d.apiVersion / 0x1_0000) % 0x1_0000 == (version / 0x1_0000) % 0x1_0000
    && d.apiVersion % 0x1_0000 <= version % 0x1_0000
  }

  predicate Verified(d: Definition) {
    0 <= d.rank <= 100 && d.pluginType != Invalid
  }

  /** Registration; types outside the list of known types are accepted and then dropped. */
  function Add(r: Registry, d: Definition, core: map<PluginType, int>, loader: Loader): (Status, Registry) {
    if !Verified(d) then (InvalidData, r)
    else if !VersionMatched(d, core) then (VersionMismatch, r)
    else if d.name in TableOf(r, d.pluginType) then (AlreadyExists, r)
    else if d.pluginType.OtherType? then (OK, r)
    else (OK, Insert(r, d, loader))
  }

  /** Hardware codecs go to the front of the names, everything else to the back. */
  function Insert(r: Registry, d: Definition, loader: Loader): Registry {
    var t := d.pluginType;
    var names := NamesOf(r, t);
    Registry(r.table[t := TableOf(r, t)[d.name := RegInfo(t, loader, d.hardware)]],
             r.names[t := if IsCodec(t) && d.hardware then [d.name] + names else names + [d.name]])
  }

  /** The names outside `dropped`, in order. */
  function KeepNames(names: seq<string>, dropped: set<string>): seq<string> {
    if names == [] then []
    else
      var last := names[|names| - 1];
      KeepNames(names[..|names| - 1], dropped) + if last in dropped then [] else [last]
  }

  ghost function LoadedBy(plugins: map<string, RegInfo>, loader: Loader): set<string> {
    set n | n in plugins && plugins[n].loader == loader
  }

  /** The given names leave the table and the list of one type. */
  function Drop(r: Registry, t: PluginType, dropped: set<string>): Registry {
    Registry(if t in r.table then r.table[t := r.table[t] - dropped] else r.table,
             if t in r.names then r.names[t := KeepNames(r.names[t], dropped)] else r.names)
  }

  /** Every plugin of the loader leaves its table and its list of names. */
  ghost function Erase(r: Registry, loader: Loader): Registry {
    Registry(map t | t in r.table :: r.table[t] - LoadedBy(r.table[t], loader),
             map t | t in r.names :: KeepNames(r.names[t], LoadedBy(TableOf(r, t), loader)))
  }

  // ---------- The object ----------

  class PluginRegister {
    var registerTable: Table
    var registerNames: Names

    ghost function State(): Registry
      reads this
    {
      Registry(registerTable, registerNames)
    }

    constructor ()
      ensures State() == Registry(map[], map[])
    {
      registerTable, registerNames := map[], map[];
    }

    /** Codecs are listed back to front unless hardware ones are preferred. */
    method ListPlugins(t: PluginType, preferHardware: bool) returns (names: seq<string>)
      ensures names == Listing(State(), t, preferHardware)
    {
      names := if t in registerNames then registerNames[t] else [];
      if IsCodec(t) && !preferHardware {
        names := Reverse(names);
      }
    }

    /** Removes one plugin; its own type tells the table. */
    method DeletePlugin(name: string, info: RegInfo)
      modifies this
      ensures State() == Drop(old(State()), info.pluginType, {name})
    {
      var t := info.pluginType;
      if t in registerNames {
        var names, kept := registerNames[t], [];
        for i := 0 to |names|
          invariant kept == KeepNames(names[..i], {name})
        {
          assert names[..i + 1][..i] == names[..i];
          if names[i] != name {
            kept := kept + [names[i]];
          }
        }
        assert names[..|names|] == names;
        registerNames := registerNames[t := kept];
      }
      if t in registerTable {
        registerTable := registerTable[t := registerTable[t] - {name}];
      }
    }

    /** The loop over one table, on a copy of it. */
    method EraseFromTable(t: PluginType, loader: Loader)
      requires t in registerTable && forall n | n in registerTable[t] :: registerTable[t][n].pluginType == t
      modifies this
      ensures State() == Drop(old(State()), t, LoadedBy(old(registerTable)[t], loader))
    {
      hide Drop;
      var plugins := registerTable[t];
      var rest := plugins.Keys;
      ghost var gone: set<string> := {};
      ghost var r := State();
      DropNone(r, t);
      while rest != {}
        invariant rest <= plugins.Keys
        invariant gone == LoadedBy(plugins, loader) - rest
        invariant State() == Drop(r, t, gone)
        decreases |rest|
      {
        var n :| n in rest;
        rest := rest - {n};
        if plugins[n].loader == loader {
          DeletePlugin(n, plugins[n]);
          DropTwice(r, t, gone, {n});
          gone := gone + {n};
        }
      }
      assert gone == LoadedBy(plugins, loader);
    }

    method EraseRegisteredPluginsByLoader(loader: Loader)
      requires Inv(State())
      modifies this
      ensures State() == Erase(old(State()), loader)
    {
      var rest := registerTable.Keys;
      ghost var r := State();
      while rest != {}
        invariant rest <= r.table.Keys && ErasedBut(r, State(), rest, loader)
        decreases |rest|
      {
        var t :| t in rest;
        ghost var before := State();
        EraseFromTable(t, loader);
        ErasedOneMore(r, before, State(), rest, t, loader);
        rest := rest - {t};
      }
      ErasedEverywhere(r, State(), loader);
    }
  }

  /**
   * What one package registers through. The loader is handed to the first plugin that is entered, and is gone
   * afterwards.
   */
  class RegisterImpl {
    var pluginLoader: Loader
    const registerData: PluginRegister

    constructor (data: PluginRegister, loader: Loader)
      ensures registerData == data && pluginLoader == loader
    {
      registerData, pluginLoader := data, loader;
    }

    method AddPlugin(d: Definition, core: map<PluginType, int>) returns (ret: Status)
      modifies this, registerData
      ensures (ret, registerData.State()) == Add(old(registerData.State()), d, core, old(pluginLoader))
      ensures pluginLoader == if registerData.State() == old(registerData.State()) then old(pluginLoader) else 0
    {
      if !Verified(d) {
        return InvalidData;
      }
      if !VersionMatched(d, core) {
        return VersionMismatch;
      }
      if d.pluginType in registerData.registerTable && d.name in registerData.registerTable[d.pluginType] {
        return AlreadyExists;
      }
      if d.pluginType.OtherType? {
        return OK;
      }
      UpdateRegisterTableAndRegisterNames(d);
      return OK;
    }

    method UpdateRegisterTableAndRegisterNames(d: Definition)
      requires d.name !in TableOf(registerData.State(), d.pluginType)
      modifies this, registerData
      ensures registerData.State() == Insert(old(registerData.State()), d, old(pluginLoader))
      ensures pluginLoader == 0 && registerData.State() != old(registerData.State())
    {
      var t := d.pluginType;
      var regInfo := RegInfo(t, pluginLoader, d.hardware);
      pluginLoader := 0;
      var plugins := if t in registerData.registerTable then registerData.registerTable[t] else map[];
      var names := if t in registerData.registerNames then registerData.registerNames[t] else [];
      registerData.registerTable := registerData.registerTable[t := plugins[d.name := regInfo]];
      if IsCodec(t) && d.hardware {
        registerData.registerNames := registerData.registerNames[t := [d.name] + names];
      } else {
        registerData.registerNames := registerData.registerNames[t := names + [d.name]];
      }
      assert d.name in TableOf(registerData.State(), t);
    }
  }

  function Reverse(s: seq<string>): (r: seq<string>)
    ensures |r| == |s| && forall i | 0 <= i < |s| :: r[i] == s[|s| - 1 - i]
  {
    if s == [] then [] else Reverse(s[1..]) + [s[0]]
  }

  function Listing(r: Registry, t: PluginType, preferHardware: bool): seq<string> {
    if IsCodec(t) && !preferHardware then Reverse(NamesOf(r, t)) else NamesOf(r, t)
  }

  // ---------- What registrations and erasures keep ----------

  /** The names of a type enumerate the keys of its table. */
  ghost predicate Indexed(r: Registry, t: PluginType) {
    NoDuplicates(NamesOf(r, t)) && forall n :: n in NamesOf(r, t) <==> n in TableOf(r, t)
  }

  /** No other plugin stands before a hardware plugin. */
  ghost predicate HardwareFirst(plugins: map<string, RegInfo>, names: seq<string>) {
    forall i, j | 0 <= i < j < |names| && names[i] in plugins && names[j] in plugins && plugins[names[j]].hardware ::
      plugins[names[i]].hardware
  }

  ghost predicate Inv(r: Registry) {
    && r.names.Keys <= r.table.Keys
    && (forall t :: Indexed(r, t))
    && (forall t | t in r.table :: forall n | n in r.table[t] :: r.table[t][n].pluginType == t)
    && (forall t | IsCodec(t) :: HardwareFirst(TableOf(r, t), NamesOf(r, t)))
  }

  /** All tables but those of `rest` have been erased. */
  ghost predicate ErasedBut(r: Registry, r': Registry, rest: set<PluginType>, loader: Loader) {
    && Inv(r) && r'.table.Keys == r.table.Keys && r'.names.Keys == r.names.Keys
    && (forall t | t in r.table ::
          r'.table[t] == if t in rest then r.table[t] else r.table[t] - LoadedBy(r.table[t], loader))
    && (forall t | t in r.names ::
          r'.names[t] == if t in rest then r.names[t] else KeepNames(r.names[t], LoadedBy(r.table[t], loader)))
  }

  lemma ErasedOneMore(r: Registry, before: Registry, after: Registry, rest: set<PluginType>, t: PluginType, loader: Loader)
    requires ErasedBut(r, before, rest, loader) && t in rest && rest <= r.table.Keys
    requires after == Drop(before, t, LoadedBy(before.table[t], loader))
    ensures ErasedBut(r, after, rest - {t}, loader)
  {
  }

  lemma ErasedEverywhere(r: Registry, r': Registry, loader: Loader)
    requires ErasedBut(r, r', {}, loader)
    ensures r' == Erase(r, loader)
  {
    assert r'.table == Erase(r, loader).table;
    assert r'.names == Erase(r, loader).names;
  }

  lemma InsertKeepsInv(r: Registry, d: Definition, loader: Loader)
    requires Inv(r) && d.name !in TableOf(r, d.pluginType)
    ensures Inv(Insert(r, d, loader))
  {
    var r' := Insert(r, d, loader);
    var names, plugins := NamesOf(r, d.pluginType), TableOf(r, d.pluginType);
    assert Indexed(r, d.pluginType);
    forall t
      ensures Indexed(r', t)
    {
      assert Indexed(r, t);
    }
    forall t | IsCodec(t)
      ensures HardwareFirst(TableOf(r', t), NamesOf(r', t))
    {
      assert HardwareFirst(TableOf(r, t), NamesOf(r, t));
      if t == d.pluginType {
        InsertHardwareFirst(plugins, names, d, loader);
      }
    }
  }

  lemma InsertHardwareFirst(plugins: map<string, RegInfo>, names: seq<string>, d: Definition, loader: Loader)
    requires HardwareFirst(plugins, names) && NoDuplicates(names) && d.name !in names
    requires forall n :: n in names <==> n in plugins
    ensures var plugins' := plugins[d.name := RegInfo(d.pluginType, loader, d.hardware)];
            HardwareFirst(plugins', if d.hardware then [d.name] + names else names + [d.name])
  {
    var names' := if d.hardware then [d.name] + names else names + [d.name];
    assert forall i | 0 <= i < |names'| ::
      names'[i] == d.name || names'[i] == names[if d.hardware then i - 1 else i];
  }

  lemma {:induction false} KeepNone(names: seq<string>)
    ensures KeepNames(names, {}) == names
  {
    if names != [] {
      KeepNone(names[..|names| - 1]);
    }
  }

  lemma {:induction false} KeepNamesTwice(names: seq<string>, a: set<string>, b: set<string>)
    ensures KeepNames(KeepNames(names, a), b) == KeepNames(names, a + b)
  {
    if names != [] {
      var front := names[..|names| - 1];
      KeepNamesTwice(front, a, b);
      if names[|names| - 1] in a {
        assert KeepNames(names, a) == KeepNames(front, a);
      } else {
        assert KeepNames(names, a)[..|KeepNames(names, a)| - 1] == KeepNames(front, a);
      }
    }
  }

  lemma DropNone(r: Registry, t: PluginType)
    ensures Drop(r, t, {}) == r
  {
    if t in r.names { KeepNone(r.names[t]); }
    assert t in r.table ==> r.table[t] - {} == r.table[t];
  }

  lemma DropTwice(r: Registry, t: PluginType, a: set<string>, b: set<string>)
    ensures Drop(Drop(r, t, a), t, b) == Drop(r, t, a + b)
  {
    if t in r.names { KeepNamesTwice(r.names[t], a, b); }
    assert t in r.table ==> (r.table[t] - a) - b == r.table[t] - (a + b);
  }

  /** What stays is what was not dropped, in the old order. */
  lemma {:induction false} KeepNamesOrder(names: seq<string>, dropped: set<string>)
    requires NoDuplicates(names)
    ensures NoDuplicates(KeepNames(names, dropped)) && Subsequence(KeepNames(names, dropped), names)
    ensures forall n :: n in KeepNames(names, dropped) <==> n in names && n !in dropped
  {
    if names != [] {
      var front, last := names[..|names| - 1], names[|names| - 1];
      assert names == front + [last] && last !in front;
      KeepNamesOrder(front, dropped);
      var kept := KeepNames(front, dropped);
      hide Subsequence;
      if last in dropped {
        assert KeepNames(names, dropped) == kept;
        SubsequenceExtendRight(kept, front, [last]);
      } else {
        assert KeepNames(names, dropped) == kept + [last];
        SubsequenceSnoc(kept, front, last);
      }
    }
  }

  lemma {:induction false} KeepHardwareFirst(plugins: map<string, RegInfo>, names: seq<string>, dropped: set<string>)
    requires HardwareFirst(plugins, names) && NoDuplicates(names)
    ensures HardwareFirst(plugins - dropped, KeepNames(names, dropped))
  {
    if names != [] {
      var front, last := names[..|names| - 1], names[|names| - 1];
      assert HardwareFirst(plugins, front);
      KeepHardwareFirst(plugins, front, dropped);
      KeepNamesOrder(front, dropped);
      var kept := KeepNames(names, dropped);
      forall i, j | 0 <= i < j < |kept| && kept[i] in plugins - dropped && kept[j] in plugins - dropped &&
                    plugins[kept[j]].hardware
        ensures plugins[kept[i]].hardware
      {
        assert kept[i] == KeepNames(front, dropped)[i];
        if j == |kept| - 1 && kept[j] == last {
          var k :| 0 <= k < |front| && front[k] == kept[i];
          assert names[k] == kept[i] && names[|names| - 1] == last;
        }
      }
    }
  }

  /**
   * Erasing by loader removes exactly the entries whose loader field matches, keeps the survivors' order, and
   * keeps the registry consistent.
   */
  lemma EraseRemovesExactly(r: Registry, loader: Loader)
    requires Inv(r)
    ensures Inv(Erase(r, loader))
    ensures forall t, n :: n in TableOf(Erase(r, loader), t) <==> n in TableOf(r, t) && TableOf(r, t)[n].loader != loader
    ensures forall t, n | n in TableOf(Erase(r, loader), t) :: TableOf(Erase(r, loader), t)[n] == TableOf(r, t)[n]
    ensures forall t :: Subsequence(NamesOf(Erase(r, loader), t), NamesOf(r, t))
  {
    var r' := Erase(r, loader);
    forall t
      ensures Indexed(r', t) && Subsequence(NamesOf(r', t), NamesOf(r, t))
      ensures IsCodec(t) ==> HardwareFirst(TableOf(r', t), NamesOf(r', t))
    {
      assert Indexed(r, t);
      KeepNamesOrder(NamesOf(r, t), LoadedBy(TableOf(r, t), loader));
      assert TableOf(r', t) == TableOf(r, t) - LoadedBy(TableOf(r, t), loader);
      assert NamesOf(r', t) == KeepNames(NamesOf(r, t), LoadedBy(TableOf(r, t), loader));
      if IsCodec(t) {
        KeepHardwareFirst(TableOf(r, t), NamesOf(r, t), LoadedBy(TableOf(r, t), loader));
      }
    }
  }

  // ---------- Runs ----------

  datatype Op = OpAdd(d: Definition, core: map<PluginType, int>, loader: Loader) | OpErase(loader: Loader)

  ghost function Step(r: Registry, op: Op): Registry {
    match op
    case OpAdd(d, core, loader) => Add(r, d, core, loader).1
    case OpErase(loader) => Erase(r, loader)
  }

  ghost function After(r: Registry, ops: seq<Op>): Registry
    decreases |ops|
  {
    if ops == [] then r else After(Step(r, ops[0]), ops[1..])
  }

  /** The index stays consistent over any sequence of registrations and erasures. */
  lemma {:induction false} RunKeepsInv(r: Registry, ops: seq<Op>)
    requires Inv(r)
    ensures Inv(After(r, ops))
    decreases |ops|
  {
    if ops != [] {
      match ops[0] {
        case OpAdd(d, core, loader) =>
          if Add(r, d, core, loader).1 != r {
            InsertKeepsInv(r, d, loader);
          }
        case OpErase(loader) => EraseRemovesExactly(r, loader);
      }
      RunKeepsInv(Step(r, ops[0]), ops[1..]);
    }
  }

  /**
   * After any sequence of registrations and erasures, a listing names exactly the registered plugins, once each,
   * and a codec listing without a preference for hardware puts every software plugin before every hardware one.
   */
  lemma ListingIsSoftwareFirst(ops: seq<Op>, t: PluginType)
    requires IsCodec(t)
    ensures var r := After(Registry(map[], map[]), ops);
            var names := Listing(r, t, false);
            && NoDuplicates(names) && (forall n :: n in names <==> n in TableOf(r, t))
            && forall i, j | 0 <= i < j < |names| :: TableOf(r, t)[names[i]].hardware ==> TableOf(r, t)[names[j]].hardware
  {
    var r := After(Registry(map[], map[]), ops);
    RunKeepsInv(Registry(map[], map[]), ops);
    assert Indexed(r, t) && HardwareFirst(TableOf(r, t), NamesOf(r, t));
    ReverseMembers(NamesOf(r, t));
  }

  lemma ReverseMembers(s: seq<string>)
    ensures forall x :: x in Reverse(s) <==> x in s
  {
    forall x | x in s
      ensures x in Reverse(s)
    {
      var k :| 0 <= k < |s| && s[k] == x;
      assert Reverse(s)[|s| - 1 - k] == x;
    }
  }

  /**
   * After any sequence of registrations and erasures, for every type and with either preference, a listing names
   * exactly the registered plugins, once each; with a preference for hardware, a codec listing puts it first.
   */
  lemma ListingIsComplete(ops: seq<Op>, t: PluginType, preferHardware: bool)
    ensures var r := After(Registry(map[], map[]), ops);
            var names := Listing(r, t, preferHardware);
            && NoDuplicates(names) && (forall n :: n in names <==> n in TableOf(r, t))
            && (IsCodec(t) && preferHardware ==>
                  forall i, j | 0 <= i < j < |names| :: TableOf(r, t)[names[j]].hardware ==> TableOf(r, t)[names[i]].hardware)
  {
    var r := After(Registry(map[], map[]), ops);
    RunKeepsInv(Registry(map[], map[]), ops);
    assert Indexed(r, t) && (IsCodec(t) ==> HardwareFirst(TableOf(r, t), NamesOf(r, t)));
    ReverseMembers(NamesOf(r, t));
  }

  /** Hardware decoders first when they are preferred, last when they are not. */
  lemma PreferenceDecides()
    ensures var info := (hardware: bool) => RegInfo(VideoDecoder, 0, hardware);
            var r := Registry(map[VideoDecoder := map["sw" := info(false), "hw" := info(true)]], map[VideoDecoder := ["hw", "sw"]]);
            Listing(r, VideoDecoder, true) == ["hw", "sw"] && Listing(r, VideoDecoder, false) == ["sw", "hw"]
  {
  }

  // ---------- The order of a listing ----------

  datatype Entry = Entry(name: string, info: RegInfo)

  /** What is left of the registrations of one type, in the order they were made. */
  function Others(log: seq<Entry>, loader: Loader): seq<Entry> {
    if log == [] then []
    else Others(log[..|log| - 1], loader) + if log[|log| - 1].info.loader == loader then [] else [log[|log| - 1]]
  }

  ghost function Record(r: Registry, op: Op, t: PluginType, log: seq<Entry>): seq<Entry> {
    match op
    case OpAdd(d, core, loader) =>
      if Add(r, d, core, loader).1 != r && d.pluginType == t then log + [Entry(d.name, RegInfo(t, loader, d.hardware))]
      else log
    case OpErase(loader) => Others(log, loader)
  }

  ghost function History(r: Registry, ops: seq<Op>, t: PluginType, log: seq<Entry>): seq<Entry>
    decreases |ops|
  {
    if ops == [] then log else History(Step(r, ops[0]), ops[1..], t, Record(r, ops[0], t, log))
  }

  /** The names in the order in which the registry keeps them. */
  function Arranged(t: PluginType, log: seq<Entry>): seq<string> {
    if log == [] then []
    else
      var front, last := log[..|log| - 1], log[|log| - 1];
      if IsCodec(t) && last.info.hardware then [last.name] + Arranged(t, front) else Arranged(t, front) + [last.name]
  }

  ghost predicate Told(r: Registry, t: PluginType, log: seq<Entry>) {
    && NamesOf(r, t) == Arranged(t, log)
    && forall e | e in log :: e.name in TableOf(r, t) && TableOf(r, t)[e.name] == e.info
  }

  lemma {:induction false} KeepNamesConcat(a: seq<string>, b: seq<string>, dropped: set<string>)
    ensures KeepNames(a + b, dropped) == KeepNames(a, dropped) + KeepNames(b, dropped)
  {
    if b == [] {
      assert a + b == a;
    } else {
      assert (a + b)[..|a + b| - 1] == a + b[..|b| - 1];
      KeepNamesConcat(a, b[..|b| - 1], dropped);
    }
  }

  lemma KeepOne(name: string, dropped: set<string>)
    ensures KeepNames([name], dropped) == if name in dropped then [] else [name]
  {
    assert [name][..0] == [];
  }

  lemma ArrangedSnoc(t: PluginType, log: seq<Entry>, e: Entry)
    ensures Arranged(t, log + [e]) ==
            if IsCodec(t) && e.info.hardware then [e.name] + Arranged(t, log) else Arranged(t, log) + [e.name]
  {
    assert (log + [e])[..|log|] == log;
  }

  lemma OthersSnoc(log: seq<Entry>, e: Entry, loader: Loader)
    ensures Others(log + [e], loader) == if e.info.loader == loader then Others(log, loader) else Others(log, loader) + [e]
  {
    assert (log + [e])[..|log|] == log;
  }

  lemma {:induction false} KeepArranged(t: PluginType, log: seq<Entry>, dropped: set<string>, loader: Loader)
    requires forall e | e in log :: e.name in dropped <==> e.info.loader == loader
    ensures KeepNames(Arranged(t, log), dropped) == Arranged(t, Others(log, loader))
  {
    if log != [] {
      var front, last := log[..|log| - 1], log[|log| - 1];
      assert log == front + [last];
      assert last.name in dropped <==> last.info.loader == loader;
      KeepArranged(t, front, dropped, loader);
      hide KeepNames, Others, Arranged;
      ArrangedSnoc(t, front, last);
      OthersSnoc(front, last, loader);
      ArrangedSnoc(t, Others(front, loader), last);
      KeepNamesConcat([last.name], Arranged(t, front), dropped);
      KeepNamesConcat(Arranged(t, front), [last.name], dropped);
      KeepOne(last.name, dropped);
    }
  }

  lemma {:induction false} OthersMembers(log: seq<Entry>, loader: Loader)
    ensures forall e :: e in Others(log, loader) <==> e in log && e.info.loader != loader
  {
    if log != [] {
      OthersMembers(log[..|log| - 1], loader);
      assert log == log[..|log| - 1] + [log[|log| - 1]];
    }
  }

  lemma EraseIsTold(r: Registry, t: PluginType, log: seq<Entry>, loader: Loader)
    requires Inv(r) && Told(r, t, log)
    ensures Told(Erase(r, loader), t, Others(log, loader))
  {
    var dropped := LoadedBy(TableOf(r, t), loader);
    assert TableOf(Erase(r, loader), t) == TableOf(r, t) - dropped;
    assert NamesOf(Erase(r, loader), t) == KeepNames(NamesOf(r, t), dropped);
    KeepArranged(t, log, dropped, loader);
    OthersMembers(log, loader);
  }

  lemma InsertIsTold(r: Registry, t: PluginType, log: seq<Entry>, d: Definition, loader: Loader)
    requires Told(r, t, log) && d.name !in TableOf(r, d.pluginType)
    ensures Told(Insert(r, d, loader), t,
                 if d.pluginType == t then log + [Entry(d.name, RegInfo(t, loader, d.hardware))] else log)
  {
    ArrangedSnoc(t, log, Entry(d.name, RegInfo(t, loader, d.hardware)));
    hide Arranged;
  }

  lemma AddIsTold(r: Registry, t: PluginType, log: seq<Entry>, op: Op)
    requires Told(r, t, log) && op.OpAdd?
    ensures Told(Step(r, op), t, Record(r, op, t, log))
  {
    hide Told, Add, Insert;
    AddIsInsert(r, op.d, op.core, op.loader);
    if Add(r, op.d, op.core, op.loader).1 != r {
      InsertIsTold(r, t, log, op.d, op.loader);
    }
  }

  lemma {:induction false} RunIsTold(r: Registry, ops: seq<Op>, t: PluginType, log: seq<Entry>)
    requires Inv(r) && Told(r, t, log)
    ensures Told(After(r, ops), t, History(r, ops, t, log))
    decreases |ops|
  {
    if ops != [] {
      RunKeepsInv(r, ops[..1]);
      assert ops[..1][1..] == [] && After(r, ops[..1]) == Step(r, ops[0]);
      if ops[0].OpAdd? { AddIsTold(r, t, log, ops[0]); } else { EraseIsTold(r, t, log, ops[0].loader); }
      RunIsTold(Step(r, ops[0]), ops[1..], t, Record(r, ops[0], t, log));
    }
  }

  /** The names of the hardware plugins, or of the others, in the order of registration. */
  function NamesOfKind(log: seq<Entry>, hardware: bool): seq<string> {
    if log == [] then []
    else NamesOfKind(log[..|log| - 1], hardware) + if log[|log| - 1].info.hardware == hardware then [log[|log| - 1].name] else []
  }

  function NamesInOrder(log: seq<Entry>): seq<string> {
    if log == [] then [] else NamesInOrder(log[..|log| - 1]) + [log[|log| - 1].name]
  }

  lemma {:induction false} ArrangedShape(t: PluginType, log: seq<Entry>)
    ensures Arranged(t, log) ==
            if IsCodec(t) then Reverse(NamesOfKind(log, true)) + NamesOfKind(log, false) else NamesInOrder(log)
  {
    if log != [] {
      var front, last := log[..|log| - 1], log[|log| - 1];
      ArrangedShape(t, front);
      hide Reverse;
      var hardware, software := NamesOfKind(front, true), NamesOfKind(front, false);
      if IsCodec(t) && last.info.hardware {
        ReverseSnoc(hardware, last.name);
        assert NamesOfKind(log, true) == hardware + [last.name] && NamesOfKind(log, false) == software;
      } else if IsCodec(t) {
        assert NamesOfKind(log, false) == software + [last.name] && NamesOfKind(log, true) == hardware;
      }
    }
  }

  lemma ReverseSnoc(s: seq<string>, x: string)
    ensures Reverse(s + [x]) == [x] + Reverse(s)
  {
  }

  /**
   * The order of every listing is that of the registrations that are left. With hardware preferred, a codec listing
   * has the hardware plugins, the newest first, and then the others, the oldest first; without, the same backwards.
   * Every other listing is in the order of registration, whatever is preferred.
   */
  lemma ListingFollowsHistory(ops: seq<Op>, t: PluginType)
    ensures var r := After(Registry(map[], map[]), ops);
            var log := History(Registry(map[], map[]), ops, t, []);
            var hardware, software := NamesOfKind(log, true), NamesOfKind(log, false);
            && Listing(r, t, true) == (if IsCodec(t) then Reverse(hardware) + software else NamesInOrder(log))
            && Listing(r, t, false) == (if IsCodec(t) then Reverse(software) + hardware else NamesInOrder(log))
  {
    var log := History(Registry(map[], map[]), ops, t, []);
    RunIsTold(Registry(map[], map[]), ops, t, []);
    ArrangedShape(t, log);
    hide History, After, Arranged, Reverse, NamesOfKind, NamesInOrder;
    ReverseBoth(NamesOfKind(log, true), NamesOfKind(log, false));
  }

  lemma ReverseBoth(a: seq<string>, b: seq<string>)
    ensures Reverse(Reverse(a) + b) == Reverse(b) + a
  {
    var x, y := Reverse(Reverse(a) + b), Reverse(b) + a;
    hide Reverse;
    assert |x| == |y|;
    forall i | 0 <= i < |x|
      ensures x[i] == y[i]
    {
      assert x[i] == (Reverse(a) + b)[|x| - 1 - i];
    }
  }

  // ---------- What is entered ----------

  /** A plugin is entered exactly when its rank is in range, its version suits, its name is new and its type known. */
  lemma AddEntersIff(r: Registry, d: Definition, core: map<PluginType, int>, loader: Loader)
    ensures var (status, r') := Add(r, d, core, loader);
            && (d.name in TableOf(r', d.pluginType) && d.name !in TableOf(r, d.pluginType) <==>
                  0 <= d.rank <= 100 && !d.pluginType.Invalid? && !d.pluginType.OtherType? &&
                  VersionMatched(d, core) && d.name !in TableOf(r, d.pluginType))
            && (d.name !in TableOf(r, d.pluginType) && d.name in TableOf(r', d.pluginType) ==>
                  status == OK && TableOf(r', d.pluginType)[d.name] == RegInfo(d.pluginType, loader, d.hardware))
            && (status == InvalidData <==> d.rank < 0 || 100 < d.rank || d.pluginType.Invalid?)
            && (status == VersionMismatch <==> status != InvalidData && !VersionMatched(d, core))
            && (status == AlreadyExists <==>
                  status !in {InvalidData, VersionMismatch} && d.name in TableOf(r, d.pluginType))
            && (status != OK || d.pluginType.OtherType? ==> r' == r)
            && (forall t | t != d.pluginType :: TableOf(r', t) == TableOf(r, t) && NamesOf(r', t) == NamesOf(r, t))
  {
  }

  /** Codecs are the decoders and the encoders. */
  lemma CodecTypes(t: PluginType)
    ensures IsCodec(t) <==> t.AudioDecoder? || t.VideoDecoder? || t.AudioEncoder? || t.VideoEncoder?
  {
  }

  /** Versions suit when the major numbers agree and the plugin's minor number is not ahead of the core's. */
  lemma VersionMatchedIff(d: Definition, core: map<PluginType, int>, major: int, minor: int, coreMajor: int, coreMinor: int)
    requires 0 <= minor < 0x1_0000 && 0 <= coreMinor < 0x1_0000 && 0 <= major < 0x1_0000 && 0 <= coreMajor < 0x1_0000
    requires d.apiVersion == major * 0x1_0000 + minor && d.pluginType != Generic
    requires d.pluginType in core && core[d.pluginType] == coreMajor * 0x1_0000 + coreMinor
    ensures VersionMatched(d, core) <==> major == coreMajor && minor <= coreMinor
  {
    assert d.apiVersion / 0x1_0000 == major && d.apiVersion % 0x1_0000 == minor;
    assert core[d.pluginType] / 0x1_0000 == coreMajor && core[d.pluginType] % 0x1_0000 == coreMinor;
  }

  /** A generic plugin suits every core. */
  lemma GenericSuitsEveryCore(d: Definition, core: map<PluginType, int>)
    requires d.pluginType == Generic
    ensures VersionMatched(d, core)
  {
  }

  // ---------- Whole packages ----------

  /** One package registers its plugins in turn; the loader is gone after the first that is entered. */
  function AddPackage(r: Registry, defs: seq<Definition>, core: map<PluginType, int>, loader: Loader): Registry
    decreases |defs|
  {
    if defs == [] then r
    else
      var r' := Add(r, defs[0], core, loader).1;
      AddPackage(r', defs[1..], core, if r' == r then loader else 0)
  }

  /** The plugins entered, as pairs of type and name. */
  ghost function Plugins(r: Registry): set<(PluginType, string)> {
    set t, n | t in r.table && n in r.table[t] :: (t, n)
  }

  ghost function Owned(r: Registry, loader: Loader): set<(PluginType, string)> {
    set t, n | t in r.table && n in r.table[t] && r.table[t][n].loader == loader :: (t, n)
  }

  lemma InsertOwned(r: Registry, d: Definition, loader: Loader, l: Loader)
    requires d.name !in TableOf(r, d.pluginType)
    ensures (d.pluginType, d.name) !in Plugins(r)
    ensures Plugins(Insert(r, d, loader)) == Plugins(r) + {(d.pluginType, d.name)}
    ensures Owned(Insert(r, d, loader), l) == Owned(r, l) + if l == loader then {(d.pluginType, d.name)} else {}
  {
    var r' := Insert(r, d, loader);
    forall t, n
      ensures (t, n) in Plugins(r') <==> (t, n) in Plugins(r) || (t, n) == (d.pluginType, d.name)
      ensures (t, n) in Owned(r', l) <==> (t, n) in Owned(r, l) || (l == loader && (t, n) == (d.pluginType, d.name))
    {
    }
  }

  lemma AddIsInsert(r: Registry, d: Definition, core: map<PluginType, int>, loader: Loader)
    ensures var r' := Add(r, d, core, loader).1;
            r' != r ==> d.name !in TableOf(r, d.pluginType) && r' == Insert(r, d, loader)
  {
  }

  /** Plugins entered without the loader are never owned by it. */
  lemma {:induction false} RestIsUnowned(r: Registry, defs: seq<Definition>, core: map<PluginType, int>, l: Loader)
    requires l != 0
    ensures Plugins(r) <= Plugins(AddPackage(r, defs, core, 0)) && Owned(AddPackage(r, defs, core, 0), l) == Owned(r, l)
    decreases |defs|
  {
    if defs != [] {
      hide Add, Insert, Plugins, Owned;
      var r' := Add(r, defs[0], core, 0).1;
      AddIsInsert(r, defs[0], core, 0);
      if r' != r { InsertOwned(r, defs[0], 0, l); }
      RestIsUnowned(r', defs[1..], core, l);
    }
  }

  /** However many plugins a package enters, its loader owns the first of them only. */
  lemma {:induction false} PackageOwnsOne(r: Registry, defs: seq<Definition>, core: map<PluginType, int>, loader: Loader)
    requires loader != 0 && Owned(r, loader) == {}
    ensures var r' := AddPackage(r, defs, core, loader);
            var entered := Plugins(r') - Plugins(r);
            && Plugins(r) <= Plugins(r') && Owned(r', loader) <= entered
            && |Owned(r', loader)| == if entered == {} then 0 else 1
    decreases |defs|
  {
    if defs != [] {
      hide Add, Insert, Plugins, Owned;
      var r1 := Add(r, defs[0], core, loader).1;
      AddIsInsert(r, defs[0], core, loader);
      if r1 == r {
        PackageOwnsOne(r, defs[1..], core, loader);
      } else {
        InsertOwned(r, defs[0], loader, loader);
        RestIsUnowned(r1, defs[1..], core, loader);
        assert (defs[0].pluginType, defs[0].name) in Plugins(r1);
      }
    }
  }

  lemma EraseOwned(r: Registry, loader: Loader)
    ensures Plugins(Erase(r, loader)) == Plugins(r) - Owned(r, loader)
  {
    var r' := Erase(r, loader);
    forall t, n
      ensures (t, n) in Plugins(r') <==> (t, n) in Plugins(r) && (t, n) !in Owned(r, loader)
    {
    }
  }

  /**
   * Unloading a package is meant to take its plugins out of the registry. It does, leaving what was there before,
   * exactly when the package entered at most one plugin.
   */
  lemma PackageIsErasedIff(r: Registry, defs: seq<Definition>, core: map<PluginType, int>, loader: Loader)
    requires loader != 0 && Owned(r, loader) == {}
    ensures var r' := AddPackage(r, defs, core, loader);
            Plugins(Erase(r', loader)) == Plugins(r) <==> |Plugins(r') - Plugins(r)| <= 1
  {
    var r' := AddPackage(r, defs, core, loader);
    hide Plugins, Owned, AddPackage, Erase;
    PackageOwnsOne(r, defs, core, loader);
    EraseOwned(r', loader);
    var before, after, own := Plugins(r), Plugins(r'), Owned(r', loader);
    assert after - own == before + (after - before - own);
    SubsetSize(own, after - before);
    assert after - own == before <==> own == after - before;
  }

  /**
   * A package that enters two plugins leaves the second without a loader: erasing by its loader keeps exactly the
   * second.
   */
  lemma SecondPluginOutlivesItsLoader(d1: Definition, d2: Definition, core: map<PluginType, int>, loader: Loader)
    requires d1.pluginType == d2.pluginType == Source && d1.name != d2.name && loader != 0
    requires Verified(d1) && Verified(d2) && VersionMatched(d1, core) && VersionMatched(d2, core)
    ensures var r := Add(Add(Registry(map[], map[]), d1, core, loader).1, d2, core, 0).1;
            NamesOf(Erase(r, loader), Source) == [d2.name]
  {
    var r1 := Registry(map[Source := map[d1.name := RegInfo(Source, loader, d1.hardware)]], map[Source := [d1.name]]);
    assert Add(Registry(map[], map[]), d1, core, loader).1 == r1 by {
      assert [] + [d1.name] == [d1.name];
    }
    var r2 := Insert(r1, d2, 0);
    assert Add(r1, d2, core, 0).1 == r2;
    hide Add, Erase;
    assert NamesOf(r2, Source) == [d1.name, d2.name] && LoadedBy(TableOf(r2, Source), loader) == {d1.name};
    FirstIsErased(r2, d1.name, d2.name, loader);
  }

  lemma FirstIsErased(r: Registry, first: string, second: string, loader: Loader)
    requires Source in r.names && r.names[Source] == [first, second] && first != second
    requires LoadedBy(TableOf(r, Source), loader) == {first}
    ensures NamesOf(Erase(r, loader), Source) == [second]
  {
    assert [first, second][..1] == [first] && [first][..0] == [];
    assert KeepNames([first], {first}) == [];
    assert KeepNames([first, second], {first}) == [second];
  }
}
