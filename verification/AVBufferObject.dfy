/** The buffer object: its writer and its reader, section by section. */
module AVBufferObject {
  import opened AVBufferCommon
  import opened Parcels
  import opened MetaCodec
  import opened AVBufferCodec
  import opened AVBufferIds

  method WriteCommon(m: Memory, parcel: MessageParcel)
    modifies parcel`cells
    ensures parcel.cells == old(parcel.cells) + [U64(DataSize(CommonBlock(m)))] + CommonBlock(m)
  {
    var bufferParcel := new MessageParcel(parcel.rawDataCapacity);
    bufferParcel.Write(Str(m.name));
    bufferParcel.Write(I32(m.capacity));
    bufferParcel.Write(I32(m.align));
    bufferParcel.Write(I32(m.offset));
    bufferParcel.Write(I32(m.size));
    assert bufferParcel.cells == CommonBlock(m);
    var size := bufferParcel.GetDataSize();
    parcel.Write(U64(size));
    parcel.Append(bufferParcel);
  }

  method WriteSpecific(m: Memory, parcel: MessageParcel)
    modifies parcel`cells
    ensures parcel.cells == old(parcel.cells) + SpecificBlock(m)
  {
    if m.memType == SurfaceMemory {
      var surface := Surface(m.handle, Size(m));
      parcel.Write(U64(CellSize(surface)));
      parcel.Write(surface);
    } else {
      parcel.Write(Fd(m.handle));
      parcel.Write(U32(m.flags));
    }
  }

  method WriteMemory(m: Memory, parcel: MessageParcel)
    modifies parcel`cells
    ensures parcel.cells == old(parcel.cells) + PrintMemory(m)
  {
    parcel.Write(U8(TypeCode(m.memType)));
    WriteCommon(m, parcel);
    WriteSpecific(m, parcel);
  }

  method ReadCommonFromMessageParcel(t: MemoryType, parcel: MessageParcel) returns (m: Option<Memory>)
    requires parcel.Valid()
    modifies parcel`cursor
    ensures parcel.Valid() && (m, parcel.Rest()) == ReadCommon(t, old(parcel.Rest()))
  {
    var _, _ := parcel.ReadUint64();
    var ret, name := parcel.ReadString();
    var capacity := 0;
    if ret {
      ret, capacity := parcel.ReadInt32();
    }
    if capacity < 0 {
      return None;
    }
    var okAlign, align := parcel.ReadInt32();
    if align < 0 {
      return None;
    }
    var okOffset, offset := parcel.ReadInt32();
    if offset < 0 {
      return None;
    }
    var okSize, size := parcel.ReadInt32();
    if !(size >= 0 || capacity < size) {
      return None;
    }
    return if ret && okAlign && okOffset && okSize then Some(Memory(t, name, capacity, align, offset, size, 0, 0)) else None;
  }

  method SkipCommonFromMessageParcel(mine: Memory, parcel: MessageParcel) returns (ok: bool, m: Memory)
    requires parcel.Valid()
    modifies parcel`cursor
    ensures parcel.Valid() && (ok, m, parcel.Rest()) == SkipCommon(mine, old(parcel.Rest()))
  {
    var length, offset, size;
    ok, length := parcel.ReadUint64();
    parcel.SkipBytes(Minus64(length, 8));
    var ret;
    ret, offset := parcel.ReadInt32();
    ok := ok && ret;
    m := mine.(offset := offset);
    if offset < 0 {
      return false, m;
    }
    ret, size := parcel.ReadInt32();
    ok := ok && ret;
    m := m.(size := size);
    if !(size >= 0 || mine.capacity < size) {
      return false, m;
    }
  }

  method InitSurfaceBuffer(m0: Memory, parcel: MessageParcel) returns (m: Option<Memory>)
    requires parcel.Valid()
    modifies parcel`cursor
    ensures parcel.Valid() && (m, parcel.Rest()) == ReadSurface(m0, old(parcel.Rest()))
  {
    var found, c := parcel.Peek();
    if !found || !c.Surface? {
      return None;
    }
    parcel.Advance();
    return Some(m0.(handle := c.token, capacity := c.capacity));
  }

  method InitFromParcel(m0: Memory, parcel: MessageParcel) returns (m: Option<Memory>)
    requires parcel.Valid()
    modifies parcel`cursor
    ensures parcel.Valid() && (m, parcel.Rest()) == ReadSpecific(m0, old(parcel.Rest()))
  {
    if m0.memType == SurfaceMemory {
      var _, _ := parcel.ReadUint64();
      m := InitSurfaceBuffer(m0, parcel);
      return;
    }
    var found, c := parcel.Peek();
    if !found || !c.Fd? || c.fd <= 0 {
      return None;
    }
    parcel.Advance();
    var _, flags := parcel.ReadUint32();
    return Some(m0.(handle := c.fd, flags := flags));
  }

  method DropFromParcel(m: Memory, parcel: MessageParcel) returns (ok: bool)
    requires parcel.Valid()
    modifies parcel`cursor
    ensures parcel.Valid() && (ok, parcel.Rest()) == DropSpecific(m, old(parcel.Rest()))
  {
    if m.memType == SurfaceMemory {
      var size;
      ok, size := parcel.ReadUint64();
      parcel.SkipBytes(size);
      return;
    }
    var found, c := parcel.Peek();
    if found && c.Fd? {
      parcel.Advance();
    }
    var _, _ := parcel.ReadUint32();
    ok := true;
  }

  method CreateAVMemory(parcel: MessageParcel, isSurfaceBuffer: bool) returns (m: Option<Memory>)
    requires parcel.Valid()
    modifies parcel`cursor
    ensures parcel.Valid() && (m, parcel.Rest()) ==
            if isSurfaceBuffer then ReadSurface(NEW_SURFACE, old(parcel.Rest())) else CreateMemory(old(parcel.Rest()))
  {
    if isSurfaceBuffer {
      m := InitSurfaceBuffer(NEW_SURFACE, parcel);
      return;
    }
    var _, code := parcel.ReadUint8();
    var t := TypeFromCode(code);
    if t.None? {
      return None;
    }
    m := ReadCommonFromMessageParcel(t.value, parcel);
    if m.Some? {
      m := InitFromParcel(m.value, parcel);
    }
  }

  class AVBufferObj {
    var uid_: int
    var pts_: int
    var dts_: int
    var duration_: int
    var flag_: int
    var meta_: Entries
    var memory_: Option<Memory>

    ghost function Value(): Buffer
      reads this
    {
      Buffer(uid_, pts_, dts_, duration_, flag_, meta_, memory_)
    }

    constructor ()
      ensures Value() == Buffer(0, 0, 0, 0, 0, map[], None)
    {
      uid_, pts_, dts_, duration_, flag_ := 0, 0, 0, 0, 0;
      meta_, memory_ := map[], None;
    }

    /** A buffer without memory has id 0; one with memory takes the next free id when it has none yet. */
    method GetUniqueId(ids: IdSource) returns (uid: int)
      modifies this`uid_, ids
      ensures uid == uid_ == AssignedId(old(Value()), old(ids.NextId()))
      ensures ids.bufferId == if memory_.Some? && old(uid_) == 0 then NextCount(old(ids.bufferId)) else old(ids.bufferId)
    {
      if memory_.None? {
        uid_ := 0;
      } else if uid_ == 0 {
        uid_ := ids.Take();
      }
      uid := uid_;
    }

    /**
     * Writes the whole buffer or nothing: virtual memory and metadata that cannot be marshalled are refused.
     * `keys` is the order of the metadata.
     */
    method WriteToMessageParcel(parcel: MessageParcel, ids: IdSource) returns (ok: bool, ghost keys: seq<string>)
      requires forall k | k in meta_ :: InRange(meta_[k])
      requires parcel != this as object
      modifies this`uid_, ids, parcel`cells
      ensures Value() == old(Value()).(uid := AssignedId(old(Value()), old(ids.NextId())))
      ensures ok <==> (forall k | k in meta_ :: Marshals(meta_[k])) && !(memory_.Some? && memory_.value.memType == VirtualMemory)
      ensures ok ==> Enumerates(meta_, keys) && parcel.cells == old(parcel.cells) + PrintBuffer(Value(), keys)
      ensures !ok ==> parcel.cells == old(parcel.cells)
    {
      hide PrintMeta, PrintMemory, Enumerates, Marshals;
      var uid := GetUniqueId(ids);
      var bufferParcel := new MessageParcel(parcel.rawDataCapacity);
      ok, keys := WriteHeader(uid, bufferParcel);
      if memory_.Some? {
        if memory_.value.memType == VirtualMemory {
          return false, keys;
        }
        if ok {
          WriteMemory(memory_.value, bufferParcel);
        }
      }
      if ok {
        parcel.Append(bufferParcel);
      }
    }

    /** The fixed fields and the metadata, into an empty parcel. */
    method WriteHeader(uid: int, parcel: MessageParcel) returns (ok: bool, ghost keys: seq<string>)
      requires parcel.cells == [] && forall k | k in meta_ :: InRange(meta_[k])
      modifies parcel`cells
      ensures ok <==> forall k | k in meta_ :: Marshals(meta_[k])
      ensures ok ==> Enumerates(meta_, keys)
      ensures ok ==>
        parcel.cells == [U64(uid), I64(pts_), I64(dts_), I64(duration_), U32(flag_)] + PrintMeta(meta_, keys)
    {
      parcel.Write(U64(uid));
      parcel.Write(I64(pts_));
      parcel.Write(I64(dts_));
      parcel.Write(I64(duration_));
      parcel.Write(U32(flag_));
      var meta := new MetaObject();
      meta.map_ := meta_;
      ok, keys := meta.ToParcel(parcel);
    }

    method ReadHeaderFrom(parcel: MessageParcel, defaults: Defaults) returns (h: Option<Header>)
      requires parcel.Valid()
      modifies parcel`cursor
      ensures parcel.Valid() && (h, parcel.Rest()) == ReadHeader(defaults, parcel.rawDataCapacity, old(parcel.Rest()))
    {
      hide ParseMeta;
      var ok, uid := parcel.ReadUint64();
      if !ok { return None; }
      var pts, dts, duration, flag;
      ok, pts := parcel.ReadInt64();
      if !ok { return None; }
      ok, dts := parcel.ReadInt64();
      if !ok { return None; }
      ok, duration := parcel.ReadInt64();
      if !ok { return None; }
      ok, flag := parcel.ReadUint32();
      if !ok { return None; }
      var meta := new MetaObject();
      ok := meta.FromParcel(parcel, defaults);
      return if ok then Some(Header(uid, pts, dts, duration, flag, meta.map_)) else None;
    }

    /** When the header can be read and there is memory, the buffer has an id before the ids are compared. */
    method ReadFromMessageParcel(parcel: MessageParcel, defaults: Defaults, ids: IdSource, isSurfaceBuffer: bool)
      returns (ok: bool)
      requires parcel.Valid()
      modifies this, ids, parcel`cursor
      ensures parcel.Valid()
      ensures !isSurfaceBuffer ==>
        var capacity, cells := parcel.rawDataCapacity, old(parcel.Rest());
        var b := if ReadHeader(defaults, capacity, cells).0.None? || old(memory_).None? then old(Value())
                 else old(Value()).(uid := AssignedId(old(Value()), old(ids.NextId())));
        (ok, Value(), parcel.Rest()) == ReadBuffer(b, defaults, capacity, cells)
      ensures isSurfaceBuffer ==>
        (ok, Value(), parcel.Rest()) == ReadSurfaceBuffer(old(Value()), old(ids.NextId()), old(parcel.Rest()))
    {
      if isSurfaceBuffer {
        ok := ReadSurfaceFrom(parcel, ids);
        return;
      }
      ok := ReadAttributesFrom(parcel, defaults, ids);
    }

    /** The surface branch. */
    method ReadSurfaceFrom(parcel: MessageParcel, ids: IdSource) returns (ok: bool)
      requires parcel.Valid()
      modifies this, ids, parcel`cursor
      ensures parcel.Valid()
      ensures (ok, Value(), parcel.Rest()) == ReadSurfaceBuffer(old(Value()), old(ids.NextId()), old(parcel.Rest()))
    {
      hide Decimal;
      if memory_.Some? {
        return false;
      }
      memory_ := CreateAVMemory(parcel, true);
      if memory_.None? {
        return false;
      }
      var uid := GetUniqueId(ids);
      memory_ := Some(memory_.value.(name := Decimal(uid)));
      return true;
    }

    /** The other cases. */
    method ReadAttributesFrom(parcel: MessageParcel, defaults: Defaults, ids: IdSource) returns (ok: bool)
      requires parcel.Valid()
      modifies this, ids, parcel`cursor
      ensures parcel.Valid()
      ensures var capacity, cells := parcel.rawDataCapacity, old(parcel.Rest());
              var b := if ReadHeader(defaults, capacity, cells).0.None? || old(memory_).None? then old(Value())
                       else old(Value()).(uid := AssignedId(old(Value()), old(ids.NextId())));
              (ok, Value(), parcel.Rest()) == ReadBuffer(b, defaults, capacity, cells)
    {
      hide ReadHeader, SkipCommon, DropSpecific, CreateMemory;
      var h := ReadHeaderFrom(parcel, defaults);
      if h.None? {
        return false;
      }
      if memory_.Some? {
        var uid := GetUniqueId(ids);
        if uid != h.value.uid {
          return false;
        }
        var _, _ := parcel.ReadUint8();
        var m;
        ok, m := SkipCommonFromMessageParcel(memory_.value, parcel);
        memory_ := Some(m);
        if ok {
          ok := DropFromParcel(m, parcel);
        }
        if !ok {
          return;
        }
      } else if h.value.uid != 0 {
        uid_ := h.value.uid;
        memory_ := CreateAVMemory(parcel, false);
        if memory_.None? {
          return false;
        }
      }
      pts_, dts_, duration_ := h.value.pts, h.value.dts, h.value.duration;
      flag_, meta_ := h.value.flag, h.value.meta;
      ok := true;
    }
  }
}
