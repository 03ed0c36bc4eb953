/**
 * Marshalling of whole buffers: one writer and two readers. A buffer without memory reads everything;
 * a buffer that already holds the memory skips most of the memory block.
 */
module AVBufferCodec {
  import opened AVBufferCommon
  import opened Parcels
  import opened MetaCodec

  /** The memory behind a buffer. `handle` is the file descriptor, or the token of the surface. */
  datatype Memory = Memory(memType: MemoryType, name: string, capacity: int, align: int, offset: int, size: int,
                           handle: int, flags: int)

  datatype Buffer = Buffer(uid: int, pts: int, dts: int, duration: int, flag: int, meta: Entries, memory: Option<Memory>)

  function TypeCode(t: MemoryType): int {
    match t
    case VirtualMemory => 0
    case SharedMemory => 1
    case SurfaceMemory => 2
    case HardwareMemory => 3
    case UnknownMemory => 4
  }

  // ---------- Writing ----------

  function CommonBlock(m: Memory): seq<Cell> {
    [Str(m.name), I32(m.capacity), I32(m.align), I32(m.offset), I32(m.size)]
  }

  /** The part that depends on the memory type; a surface goes behind the length of its serialized form. */
  function SpecificBlock(m: Memory): seq<Cell> {
    if m.memType == SurfaceMemory then [U64(CellSize(Surface(m.handle, Size(m)))), Surface(m.handle, Size(m))]
    else [Fd(m.handle), U32(m.flags)]
  }

  function Size(m: Memory): nat {
    if m.capacity < 0 then 0 else m.capacity
  }

  function PrintMemory(m: Memory): seq<Cell> {
    [U8(TypeCode(m.memType)), U64(DataSize(CommonBlock(m)))] + CommonBlock(m) + SpecificBlock(m)
  }

  ghost function PrintBuffer(b: Buffer, keys: seq<string>): seq<Cell>
    requires forall k | k in keys :: k in b.meta
  {
    [U64(b.uid), I64(b.pts), I64(b.dts), I64(b.duration), U32(b.flag)] + PrintMeta(b.meta, keys)
      + if b.memory.None? then [] else PrintMemory(b.memory.value)
  }

  // ---------- Reading ----------

  /** The common block in full: length, name, capacity, align, offset, size. */
  function ReadCommon(t: MemoryType, cells: seq<Cell>): (Option<Memory>, seq<Cell>) {
    var (_, _, c0) := TakeU64(cells);
    var (okName, name, c1) := TakeStr(c0);
    var (okCap, capacity, c2) := if okName then TakeI32(c1) else (false, 0, c1);
    if capacity < 0 then (None, c2)
    else
      var (okAlign, align, c3) := TakeI32(c2);
      if align < 0 then (None, c3)
      else
        var (okOff, offset, c4) := TakeI32(c3);
        if offset < 0 then (None, c4)
        else
          var (okSize, size, c5) := TakeI32(c4);
          if !(size >= 0 || capacity < size) || !(okName && okCap && okAlign && okOff && okSize) then (None, c5)
          else (Some(Memory(t, name, capacity, align, offset, size, 0, 0)), c5)
  }

  /**
   * The common block with all but its last 8 bytes skipped: only offset and size are taken. A declared length below
   * 8 wraps around and skips whatever is left.
   */
  function SkipCommon(m: Memory, cells: seq<Cell>): (bool, Memory, seq<Cell>) {
    var (okLen, length, c0) := TakeU64(cells);
    var c1 := Skip(c0, Minus64(length, 8));
    var (okOff, offset, c2) := TakeI32(c1);
    if offset < 0 then (false, m.(offset := offset), c2)
    else
      var (okSize, size, c3) := TakeI32(c2);
      var m' := m.(offset := offset, size := size);
      (okLen && okOff && okSize && (size >= 0 || m.capacity < size), m', c3)
  }

  /** A serialized surface, which decides the capacity. */
  function ReadSurface(m: Memory, cells: seq<Cell>): (Option<Memory>, seq<Cell>) {
    if cells != [] && cells[0].Surface? then
      (Some(m.(handle := cells[0].token, capacity := cells[0].capacity)), cells[1..])
    else (None, cells)
  }

  /** Type-specific initialisation of a newly read memory. */
  function ReadSpecific(m: Memory, cells: seq<Cell>): (Option<Memory>, seq<Cell>) {
    if m.memType == SurfaceMemory then
      ReadSurface(m, TakeU64(cells).2)
    else if cells != [] && cells[0].Fd? && cells[0].fd > 0 then
      var (_, flags, c1) := TakeU32(cells[1..]);
      (Some(m.(handle := cells[0].fd, flags := flags)), c1)
    else (None, cells)
  }

  /** The type-specific part when the memory is already there: consumed, nothing taken. */
  function DropSpecific(m: Memory, cells: seq<Cell>): (bool, seq<Cell>) {
    if m.memType == SurfaceMemory then
      var (ok, n, c1) := TakeU64(cells);
      (ok, Skip(c1, n))
    else
      var c1 := if cells != [] && cells[0].Fd? then cells[1..] else cells;
      (true, TakeU32(c1).2)
  }

  function TypeFromCode(code: int): Option<MemoryType> {
    if code == 1 then Some(SharedMemory)
    else if code == 2 then Some(SurfaceMemory)
    else if code == 3 then Some(HardwareMemory)
    else None
  }

  function CreateMemory(cells: seq<Cell>): (Option<Memory>, seq<Cell>) {
    var (_, code, c1) := TakeU8(cells);
    var t := TypeFromCode(code);
    if t.None? then (None, c1)
    else
      var (m, c2) := ReadCommon(t.value, c1);
      if m.None? then (None, c2) else ReadSpecific(m.value, c2)
  }

  datatype Header = Header(uid: int, pts: int, dts: int, duration: int, flag: int, meta: Entries)

  function ReadHeader(defaults: Defaults, capacity: int, cells: seq<Cell>): (Option<Header>, seq<Cell>) {
    var (ok0, uid, c0) := TakeU64(cells);
    if !ok0 then (None, c0) else
    var (ok1, pts, c1) := TakeI64(c0);
    if !ok1 then (None, c1) else
    var (ok2, dts, c2) := TakeI64(c1);
    if !ok2 then (None, c2) else
    var (ok3, duration, c3) := TakeI64(c2);
    if !ok3 then (None, c3) else
    var (ok4, flag, c4) := TakeU32(c3);
    if !ok4 then (None, c4) else
    var (ok5, meta, c5) := ParseMeta(defaults, capacity, c4);
    if !ok5 then (None, c5) else (Some(Header(uid, pts, dts, duration, flag, meta)), c5)
  }

  function WithHeader(b: Buffer, h: Header): Buffer {
    b.(pts := h.pts, dts := h.dts, duration := h.duration, flag := h.flag, meta := h.meta)
  }

  /** Reading into `b`: success, the buffer afterwards, and the cells left. */
  function ReadBuffer(b: Buffer, defaults: Defaults, capacity: int, cells: seq<Cell>): (bool, Buffer, seq<Cell>) {
    var (h, c1) := ReadHeader(defaults, capacity, cells);
    if h.None? then (false, b, c1)
    else if b.memory.Some? then
      if b.uid != h.value.uid then (false, b, c1)
      else
        var (_, _, c2) := TakeU8(c1);
        var (ok1, m, c3) := SkipCommon(b.memory.value, c2);
        if !ok1 then (false, b.(memory := Some(m)), c3)
        else
          var (ok2, c4) := DropSpecific(m, c3);
          if !ok2 then (false, b.(memory := Some(m)), c4)
          else (true, WithHeader(b.(memory := Some(m)), h.value), c4)
    else if h.value.uid != 0 then
      var (m, c2) := CreateMemory(c1);
      if m.None? then (false, b.(uid := h.value.uid), c2)
      else (true, WithHeader(b.(uid := h.value.uid, memory := m), h.value), c2)
    else (true, WithHeader(b, h.value), c1)
  }

  // ---------- A bare surface ----------

  function Decimal(n: int): string
    decreases if n < 0 then 1 - n else n
  {
    if n < 0 then "-" + Decimal(-n)
    else if n < 10 then [(n as char) + '0']
    else Decimal(n / 10) + [((n % 10) as char) + '0']
  }

  /** The id a buffer answers with; the first answer of a buffer with memory takes `nextId`. */
  function AssignedId(b: Buffer, nextId: int): int {
    if b.memory.None? then 0 else if b.uid == 0 then nextId else b.uid
  }

  /** A memory that holds no surface yet. */
  const NEW_SURFACE: Memory := Memory(SurfaceMemory, "mem_null", 0, 0, 0, 0, 0, 0)

  /** Without memory there is no id; an id once assigned is kept. */
  lemma AssignedOnce(b: Buffer, nextId: int, later: int)
    ensures b.memory.None? ==> AssignedId(b, nextId) == 0
    ensures b.memory.Some? && b.uid != 0 ==> AssignedId(b, nextId) == b.uid
    ensures b.memory.Some? && b.uid == 0 ==> AssignedId(b, nextId) == nextId
    ensures nextId != 0 ==> AssignedId(b.(uid := AssignedId(b, nextId)), later) == AssignedId(b, nextId)
  {
  }

  /** A buffer without memory takes a surface, and names it after its id; one with memory refuses. */
  function ReadSurfaceBuffer(b: Buffer, nextId: int, cells: seq<Cell>): (bool, Buffer, seq<Cell>) {
    if b.memory.Some? then (false, b, cells)
    else
      var (m, rest) := ReadSurface(NEW_SURFACE, cells);
      if m.None? then (false, b, rest)
      else
        var id := AssignedId(b.(memory := m), nextId);
        (true, b.(uid := id, memory := Some(m.value.(name := Decimal(id)))), rest)
  }

  // ---------- Both readers undo the writer ----------

  /** A memory the writer sends: not virtual, with non-negative numbers and an open descriptor. */
  ghost predicate Sendable(m: Memory) {
    && m.memType in {SharedMemory, SurfaceMemory, HardwareMemory}
    && m.capacity >= 0 && m.align >= 0 && m.offset >= 0 && m.size >= 0
    && DataSize(CommonBlock(m)) < TWO_64  // a name that fits the address space
    && (m.memType == SurfaceMemory ==> m.flags == 0)
    && (m.memType != SurfaceMemory ==> m.handle > 0)
  }

  ghost predicate MetaReadable(defaults: Defaults, capacity: int, b: Buffer, keys: seq<string>) {
    && Enumerates(b.meta, keys) && |keys| <= capacity
    && Readable(defaults, b.meta)
  }

  /** The buffer with its metadata as it comes back. */
  ghost function CameBack(defaults: Defaults, b: Buffer): Buffer {
    b.(meta := ReadBackAll(defaults, b.meta))
  }

  /** With base values, defaults and enumerations of the registered types only, that is the buffer itself. */
  lemma CameBackUnchanged(defaults: Defaults, b: Buffer)
    requires Readable(defaults, b.meta)
    ensures CameBack(defaults, b) == b <==> AllRestorable(defaults, b.meta)
  {
    if AllRestorable(defaults, b.meta) {
      RestorableIsReadable(defaults, b.meta);
    } else {
      var k :| k in b.meta && !Restorable(DefaultOf(defaults, k), b.meta[k]);
      assert ReadBackAll(defaults, b.meta)[k] != b.meta[k];
    }
  }

  lemma HeaderRoundTrip(defaults: Defaults, capacity: int, b: Buffer, keys: seq<string>, rest: seq<Cell>)
    requires MetaReadable(defaults, capacity, b, keys)
    ensures var cells := [U64(b.uid), I64(b.pts), I64(b.dts), I64(b.duration), U32(b.flag)] + (PrintMeta(b.meta, keys) + rest);
            ReadHeader(defaults, capacity, cells) ==
            (Some(Header(b.uid, b.pts, b.dts, b.duration, b.flag, ReadBackAll(defaults, b.meta))), rest)
  {
    assert forall k | k in keys :: k in b.meta;
    hide ParseMeta, PrintMeta, Enumerates, ReadBackAll, Readable;
    MetaRoundTrip(defaults, capacity, b.meta, keys, rest);
    var body := PrintMeta(b.meta, keys) + rest;
    var cells := [U64(b.uid), I64(b.pts), I64(b.dts), I64(b.duration), U32(b.flag)] + body;
    assert cells[1..] == [I64(b.pts), I64(b.dts), I64(b.duration), U32(b.flag)] + body;
    assert cells[1..][1..] == [I64(b.dts), I64(b.duration), U32(b.flag)] + body;
    assert cells[1..][1..][1..] == [I64(b.duration), U32(b.flag)] + body;
    assert cells[1..][1..][1..][1..] == [U32(b.flag)] + body;
    assert cells[1..][1..][1..][1..][1..] == body;
  }

  lemma CommonRoundTrip(m: Memory, rest: seq<Cell>)
    requires m.capacity >= 0 && m.align >= 0 && m.offset >= 0 && m.size >= 0
    ensures ReadCommon(m.memType, [U64(DataSize(CommonBlock(m)))] + CommonBlock(m) + rest) ==
            (Some(m.(handle := 0, flags := 0)), rest)
  {
    hide DataSize;
    var cells := [U64(DataSize(CommonBlock(m)))] + CommonBlock(m) + rest;
    assert cells[1..] == CommonBlock(m) + rest;
    assert cells[1..][1..] == [I32(m.capacity), I32(m.align), I32(m.offset), I32(m.size)] + rest;
    assert cells[1..][1..][1..] == [I32(m.align), I32(m.offset), I32(m.size)] + rest;
    assert cells[1..][1..][1..][1..] == [I32(m.offset), I32(m.size)] + rest;
    assert cells[1..][1..][1..][1..][1..] == [I32(m.size)] + rest;
    assert cells[1..][1..][1..][1..][1..][1..] == rest;
  }

  /** Skipping finds the offset and the size of any written block. */
  lemma SkipCommonFinds(m: Memory, mine: Memory, rest: seq<Cell>)
    requires m.offset >= 0 && DataSize(CommonBlock(m)) < TWO_64
    ensures SkipCommon(mine, [U64(DataSize(CommonBlock(m)))] + CommonBlock(m) + rest) ==
            (m.size >= 0 || mine.capacity < m.size, mine.(offset := m.offset, size := m.size), rest)
  {
    SkipReaches(m, mine, rest);
    hide Skip, CommonBlock, DataSize;
    var back := [I32(m.offset), I32(m.size)];
    assert (back + rest)[1..] == [I32(m.size)] + rest;
    assert (back + rest)[1..][1..] == rest;
  }

  /** Skipping finds the same offset and size, and the same place, as the full read. */
  lemma SkipCommonAgrees(m: Memory, mine: Memory, rest: seq<Cell>)
    requires Sendable(m)
    ensures SkipCommon(mine, [U64(DataSize(CommonBlock(m)))] + CommonBlock(m) + rest) ==
            (true, mine.(offset := m.offset, size := m.size), rest)
  {
    SkipCommonFinds(m, mine, rest);
  }

  lemma SpecificRoundTrip(m: Memory, rest: seq<Cell>)
    requires Sendable(m)
    ensures ReadSpecific(m.(handle := 0, flags := 0), SpecificBlock(m) + rest) == (Some(m), rest)
    ensures DropSpecific(m, SpecificBlock(m) + rest) == (true, rest)
  {
    var cells := SpecificBlock(m) + rest;
    assert cells[1..] == SpecificBlock(m)[1..] + rest;
    assert cells[1..][1..] == rest;
    if m.memType == SurfaceMemory {
      var surface := [Surface(m.handle, Size(m))];
      SkipBlock(surface, rest);
      assert surface[1..] == [];
    }
  }

  lemma MemoryRoundTrip(m: Memory, rest: seq<Cell>)
    requires Sendable(m)
    ensures CreateMemory(PrintMemory(m) + rest) == (Some(m), rest)
  {
    var cells := PrintMemory(m) + rest;
    assert cells[1..] == [U64(DataSize(CommonBlock(m)))] + CommonBlock(m) + (SpecificBlock(m) + rest);
    CommonRoundTrip(m, SpecificBlock(m) + rest);
    SpecificRoundTrip(m, rest);
  }

  /** A fresh buffer reads back what was written, and stops exactly at the tail. */
  lemma FreshReadRoundTrip(b: Buffer, fresh0: Buffer, defaults: Defaults, capacity: int, keys: seq<string>, tail: seq<Cell>)
    requires MetaReadable(defaults, capacity, b, keys) && b.memory.Some? && b.uid != 0
    requires Sendable(b.memory.value) && fresh0.memory.None?
    ensures ReadBuffer(fresh0, defaults, capacity, PrintBuffer(b, keys) + tail) == (true, CameBack(defaults, b), tail)
  {
    SplitPrinted(b, keys, tail);
    HeaderRoundTrip(defaults, capacity, b, keys, PrintMemory(b.memory.value) + tail);
    MemoryRoundTrip(b.memory.value, tail);
  }

  lemma SplitPrinted(b: Buffer, keys: seq<string>, tail: seq<Cell>)
    requires forall k | k in keys :: k in b.meta
    ensures PrintBuffer(b, keys) + tail ==
            [U64(b.uid), I64(b.pts), I64(b.dts), I64(b.duration), U32(b.flag)]
            + (PrintMeta(b.meta, keys) + ((if b.memory.None? then [] else PrintMemory(b.memory.value)) + tail))
  {
  }

  /**
   * A buffer that already holds the memory consumes the same cells and ends with the same id, times, flag, metadata,
   * offset and size as the writer; the rest of its memory is its own.
   */
  lemma SameBufferReadAgrees(b: Buffer, mine: Buffer, defaults: Defaults, capacity: int, keys: seq<string>, tail: seq<Cell>)
    requires MetaReadable(defaults, capacity, b, keys) && b.memory.Some? && Sendable(b.memory.value)
    requires mine.memory.Some? && mine.uid == b.uid && mine.memory.value.memType == b.memory.value.memType
    ensures ReadBuffer(mine, defaults, capacity, PrintBuffer(b, keys) + tail) ==
            (true, CameBack(defaults, b).(memory := Some(mine.memory.value.(offset := b.memory.value.offset,
                                                                            size := b.memory.value.size))), tail)
  {
    assert forall k | k in keys :: k in b.meta;
    hide ReadHeader, SkipCommon, DropSpecific, CommonBlock, SpecificBlock, PrintMeta, MetaReadable;
    SplitPrinted(b, keys, tail);
    HeaderRoundTrip(defaults, capacity, b, keys, PrintMemory(b.memory.value) + tail);
    SkipMemoryAgrees(b.memory.value, mine.memory.value, tail);
  }

  lemma SkipMemoryAgrees(m: Memory, own: Memory, tail: seq<Cell>)
    requires Sendable(m) && own.memType == m.memType
    ensures var own' := own.(offset := m.offset, size := m.size);
            && SkipCommon(own, TakeU8(PrintMemory(m) + tail).2) == (true, own', SpecificBlock(m) + tail)
            && DropSpecific(own', SpecificBlock(m) + tail) == (true, tail)
  {
    var cells := PrintMemory(m) + tail;
    assert cells[0].U8?;
    assert cells[1..] == [U64(DataSize(CommonBlock(m)))] + CommonBlock(m) + (SpecificBlock(m) + tail);
    hide CommonBlock, SpecificBlock, SkipCommon;
    SkipCommonAgrees(m, own, SpecificBlock(m) + tail);
    SpecificRoundTrip(m, tail);
    DropSpecificByType(m, own.(offset := m.offset, size := m.size), SpecificBlock(m) + tail);
  }

  lemma DropSpecificByType(m: Memory, other: Memory, cells: seq<Cell>)
    requires m.memType == other.memType
    ensures DropSpecific(m, cells) == DropSpecific(other, cells)
  {
  }

  /** A buffer without memory round-trips with id 0 and no memory. */
  lemma MemorylessRoundTrip(b: Buffer, mine: Buffer, defaults: Defaults, capacity: int, keys: seq<string>, tail: seq<Cell>)
    requires MetaReadable(defaults, capacity, b, keys) && b.memory.None? && b.uid == 0
    requires mine.memory.None? && mine.uid == 0
    ensures ReadBuffer(mine, defaults, capacity, PrintBuffer(b, keys) + tail) == (true, CameBack(defaults, b), tail)
  {
    SplitPrinted(b, keys, tail);
    assert [] + tail == tail;
    HeaderRoundTrip(defaults, capacity, b, keys, tail);
  }

  /** A memory of 4 bytes that claims to hold 5 passes the guard. */
  lemma OversizedIsAccepted(rest: seq<Cell>)
    ensures var m := Memory(SharedMemory, "1", 4, 0, 0, 5, 3, 0);
            ReadCommon(SharedMemory, [U64(DataSize(CommonBlock(m)))] + CommonBlock(m) + rest) ==
            (Some(m.(handle := 0, flags := 0)), rest)
  {
    var m := Memory(SharedMemory, "1", 4, 0, 0, 5, 3, 0);
    DataSizeOfCommon(m);
    assert Sendable(m);
    hide ReadCommon, CommonBlock;
    CommonRoundTrip(m, rest);
  }

  lemma DataSizeOfCommon(m: Memory)
    ensures DataSize(CommonBlock(m)) == 20 + Padded(|m.name| + 1)
  {
    var c, a, o, s := I32(m.capacity), I32(m.align), I32(m.offset), I32(m.size);
    assert CommonBlock(m)[1..] == [c, a, o, s] && [c, a, o, s][1..] == [a, o, s];
    assert [a, o, s][1..] == [o, s] && [o, s][1..] == [s] && [s][1..] == [];
    assert DataSize([s]) == 4;
    assert DataSize([o, s]) == 4 + DataSize([o, s][1..]);
    assert DataSize([a, o, s]) == 4 + DataSize([a, o, s][1..]);
    assert DataSize([c, a, o, s]) == 4 + DataSize([c, a, o, s][1..]);
  }

  /**
   * The size guard of the full read never sees the capacity: any non-negative size is accepted. It bounds the size
   * by the capacity exactly when there was nothing to refuse.
   */
  lemma SizeGuardIff(m: Memory, rest: seq<Cell>)
    requires m.capacity >= 0 && m.align >= 0 && m.offset >= 0
    ensures var accepted := ReadCommon(m.memType, [U64(DataSize(CommonBlock(m)))] + CommonBlock(m) + rest).0.Some?;
            && (accepted <==> m.size >= 0)
            && ((accepted <==> 0 <= m.size <= m.capacity) <==> m.size <= m.capacity)
  {
    hide DataSize;
    var cells := [U64(DataSize(CommonBlock(m)))] + CommonBlock(m) + rest;
    assert cells[1..] == CommonBlock(m) + rest;
    assert cells[1..][1..] == [I32(m.capacity), I32(m.align), I32(m.offset), I32(m.size)] + rest;
    assert cells[1..][1..][1..] == [I32(m.align), I32(m.offset), I32(m.size)] + rest;
    assert cells[1..][1..][1..][1..] == [I32(m.offset), I32(m.size)] + rest;
    assert cells[1..][1..][1..][1..][1..] == [I32(m.size)] + rest;
  }

  /** The skipping read has the same guard, and is just as blind to the capacity. */
  lemma SkipGuardIff(m: Memory, mine: Memory, rest: seq<Cell>)
    requires m.offset >= 0 && mine.capacity >= 0 && DataSize(CommonBlock(m)) < TWO_64
    ensures var accepted := SkipCommon(mine, [U64(DataSize(CommonBlock(m)))] + CommonBlock(m) + rest).0;
            && (accepted <==> m.size >= 0)
            && ((accepted <==> 0 <= m.size <= mine.capacity) <==> m.size <= mine.capacity)
  {
    SkipCommonFinds(m, mine, rest);
  }

  // ---------- Refusals ----------

  /** A buffer that holds memory refuses what another buffer wrote, and stays as it was. */
  lemma OtherBufferIsRefused(b: Buffer, mine: Buffer, defaults: Defaults, capacity: int, keys: seq<string>, tail: seq<Cell>)
    requires MetaReadable(defaults, capacity, b, keys) && mine.memory.Some? && mine.uid != b.uid
    ensures ReadBuffer(mine, defaults, capacity, PrintBuffer(b, keys) + tail).0 == false
    ensures ReadBuffer(mine, defaults, capacity, PrintBuffer(b, keys) + tail).1 == mine
  {
    assert forall k | k in keys :: k in b.meta;
    hide ReadHeader, SkipCommon, DropSpecific, CommonBlock, SpecificBlock, PrintMeta, MetaReadable;
    SplitPrinted(b, keys, tail);
    HeaderRoundTrip(defaults, capacity, b, keys, (if b.memory.None? then [] else PrintMemory(b.memory.value)) + tail);
  }

  /** Without a readable header nothing changes. */
  lemma UnreadableHeaderIsRefused(mine: Buffer, defaults: Defaults, capacity: int, cells: seq<Cell>)
    requires ReadHeader(defaults, capacity, cells).0.None?
    ensures !ReadBuffer(mine, defaults, capacity, cells).0 && ReadBuffer(mine, defaults, capacity, cells).1 == mine
  {
  }

  /**
   * A buffer that holds the memory reads its own parcel successfully exactly when both parts of the memory block can
   * be passed over; when not, its times, flag and metadata stay as they were.
   */
  lemma HeldMemoryReadIff(b: Buffer, mine: Buffer, defaults: Defaults, capacity: int, keys: seq<string>, rest: seq<Cell>)
    requires MetaReadable(defaults, capacity, b, keys) && mine.memory.Some? && mine.uid == b.uid
    ensures var cells := [U64(b.uid), I64(b.pts), I64(b.dts), I64(b.duration), U32(b.flag)] + (PrintMeta(b.meta, keys) + rest);
            var skip := SkipCommon(mine.memory.value, TakeU8(rest).2);
            var r := ReadBuffer(mine, defaults, capacity, cells);
            && (r.0 <==> skip.0 && DropSpecific(skip.1, skip.2).0)
            && (!r.0 ==> r.1 == mine.(memory := r.1.memory))
  {
    assert forall k | k in keys :: k in b.meta;
    HeaderRoundTrip(defaults, capacity, b, keys, rest);
    hide ReadHeader, SkipCommon, DropSpecific, PrintMeta, MetaReadable;
  }

  /** A buffer without memory that meets an unusable one keeps its times, flag and metadata, but takes over the id. */
  lemma UnusableMemoryLeavesId(b: Buffer, mine: Buffer, defaults: Defaults, capacity: int, keys: seq<string>, rest: seq<Cell>)
    requires MetaReadable(defaults, capacity, b, keys) && mine.memory.None? && b.uid != 0 && CreateMemory(rest).0.None?
    ensures var cells := [U64(b.uid), I64(b.pts), I64(b.dts), I64(b.duration), U32(b.flag)] + (PrintMeta(b.meta, keys) + rest);
            ReadBuffer(mine, defaults, capacity, cells) == (false, mine.(uid := b.uid), CreateMemory(rest).1)
  {
    HeaderRoundTrip(defaults, capacity, b, keys, rest);
    hide ReadHeader, CreateMemory, PrintMeta, MetaReadable;
  }

  /** A written common block is accepted by the full read exactly when none of its numbers is negative. */
  lemma CommonAcceptedIff(m: Memory, rest: seq<Cell>)
    ensures ReadCommon(m.memType, [U64(DataSize(CommonBlock(m)))] + CommonBlock(m) + rest).0.Some? <==>
            0 <= m.capacity && 0 <= m.align && 0 <= m.offset && 0 <= m.size
  {
    hide DataSize;
    var cells := [U64(DataSize(CommonBlock(m)))] + CommonBlock(m) + rest;
    assert cells[1..] == CommonBlock(m) + rest;
    assert cells[1..][1..] == [I32(m.capacity), I32(m.align), I32(m.offset), I32(m.size)] + rest;
    assert cells[1..][1..][1..] == [I32(m.align), I32(m.offset), I32(m.size)] + rest;
    assert cells[1..][1..][1..][1..] == [I32(m.offset), I32(m.size)] + rest;
    assert cells[1..][1..][1..][1..][1..] == [I32(m.size)] + rest;
  }

  /** Only shared, surface and hardware memory travels, under the codes 1, 2 and 3, and only with an open descriptor. */
  lemma MemoryTravelsIff(m: Memory, rest: seq<Cell>)
    requires m.capacity >= 0 && m.align >= 0 && m.offset >= 0 && m.size >= 0 && DataSize(CommonBlock(m)) < TWO_64
    ensures CreateMemory(PrintMemory(m) + rest).0.Some? <==>
            m.memType == SurfaceMemory || (m.memType in {SharedMemory, HardwareMemory} && m.handle > 0)
    ensures m.memType == SharedMemory ==> PrintMemory(m)[0] == U8(1)
    ensures m.memType == SurfaceMemory ==> PrintMemory(m)[0] == U8(2)
    ensures m.memType == HardwareMemory ==> PrintMemory(m)[0] == U8(3)
  {
    var cells := PrintMemory(m) + rest;
    assert cells[1..] == [U64(DataSize(CommonBlock(m)))] + CommonBlock(m) + (SpecificBlock(m) + rest);
    CommonRoundTrip(m, SpecificBlock(m) + rest);
    var specific := SpecificBlock(m) + rest;
    assert specific[1..] == SpecificBlock(m)[1..] + rest;
    hide CommonBlock, ReadCommon;
  }

  /** The skipping read accepts a written block exactly when offset and size are not negative (or below its capacity). */
  lemma SkipAcceptedIff(m: Memory, mine: Memory, rest: seq<Cell>)
    requires DataSize(CommonBlock(m)) < TWO_64
    ensures SkipCommon(mine, [U64(DataSize(CommonBlock(m)))] + CommonBlock(m) + rest).0 <==>
            0 <= m.offset && (0 <= m.size || mine.capacity < m.size)
  {
    if m.offset >= 0 {
      SkipCommonFinds(m, mine, rest);
    } else {
      SkipReaches(m, mine, rest);
    }
  }

  /** The skip ends before the offset. */
  lemma SkipReaches(m: Memory, mine: Memory, rest: seq<Cell>)
    requires DataSize(CommonBlock(m)) < TWO_64
    ensures var cells := [U64(DataSize(CommonBlock(m)))] + CommonBlock(m) + rest;
            && TakeU64(cells).0
            && Skip(TakeU64(cells).2, Minus64(TakeU64(cells).1, 8)) == [I32(m.offset), I32(m.size)] + rest
  {
    var front := [Str(m.name), I32(m.capacity), I32(m.align)];
    var back := [I32(m.offset), I32(m.size)];
    var cells := [U64(DataSize(CommonBlock(m)))] + CommonBlock(m) + rest;
    assert CommonBlock(m) == front + back;
    DataSizeConcat(front, back);
    assert back[1..] == [I32(m.size)] && [I32(m.size)][1..] == [];
    assert DataSize(back[1..]) == 4;
    assert cells[1..] == front + (back + rest);
    SkipBlock(front, back + rest);
  }

  // ---------- Layout ----------

  /** Where a reader of another make finds the parts of a printed buffer. */
  lemma BufferLayout(b: Buffer, keys: seq<string>)
    requires forall k | k in keys :: k in b.meta
    ensures var cells := PrintBuffer(b, keys);
            && |cells| >= 6
            && cells[0].U64? && cells[0].u64 == b.uid && cells[1].I64? && cells[1].i64 == b.pts
            && cells[2].I64? && cells[2].i64 == b.dts && cells[3].I64? && cells[3].i64 == b.duration
            && cells[4].U32? && cells[4].u32 == b.flag && cells[5].I32? && cells[5].i32 == |keys|
  {
  }

  /** A bare surface is taken exactly by a buffer without memory, which is then named after its id. */
  lemma SurfaceTakenIff(b: Buffer, nextId: int, cells: seq<Cell>)
    ensures var (ok, b', rest) := ReadSurfaceBuffer(b, nextId, cells);
            && (ok <==> b.memory.None? && cells != [] && cells[0].Surface?)
            && (!ok ==> b' == b && rest == cells)
            && (ok ==> b'.memory.Some? && b'.uid == (if b.uid == 0 then nextId else b.uid) && rest == cells[1..] &&
                       b' == b.(uid := b'.uid, memory := b'.memory) &&
                       b'.memory.value.memType == SurfaceMemory && b'.memory.value.name == Decimal(b'.uid) &&
                       b'.memory.value.handle == cells[0].token && b'.memory.value.capacity == cells[0].capacity &&
                       b'.memory.value.size == 0)
  {
  }

  /** The number that a string of digits stands for. */
  function NumberOf(s: string): int {
    if s == "" then 0 else NumberOf(s[..|s| - 1]) * 10 + (s[|s| - 1] as int - '0' as int)
  }

  /** Names tell ids apart: the digits give back the number. */
  lemma {:induction false} DecimalIsNumber(n: nat)
    ensures NumberOf(Decimal(n)) == n
  {
    if n >= 10 {
      DecimalIsNumber(n / 10);
      assert Decimal(n)[..|Decimal(n)| - 1] == Decimal(n / 10);
    } else {
      assert Decimal(n)[..0] == "" && |Decimal(n)| == 1;
    }
  }
}
