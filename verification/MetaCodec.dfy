/**
 * Marshalling of metadata: tagged values of any type, written and read back through a parcel.
 * The table of default values, which decides how an enumeration is read, is an input.
 */
module MetaCodec {
  import opened Parcels
  import opened Sequences

  /** An enumeration type: width in bytes (1, 2, 4 or 8) and signedness. */
  datatype EnumType = EnumType(name: string, width: nat, signed: bool)

  datatype AnyValue =
    | BoolV(b: bool) | Int32V(i: int) | Int64V(l: int) | FloatV(f: int) | DoubleV(d: int)
    | StringV(s: string) | BytesV(bytes: seq<int>)
    | EnumV(enumType: EnumType, e: int)
    | OtherV(typeName: string, size: nat, payload: int)  // any other type of the given size

  type Defaults = map<string, AnyValue>

  /** Unregistered tags default to a string. */
  function DefaultOf(defaults: Defaults, tag: string): AnyValue {
    if tag in defaults then defaults[tag] else StringV("")
  }

  // Type codes.
  const INVALID_TYPE: int := 1
  const BOOL: int := 2
  const INT32: int := 4
  const INT64: int := 6
  const FLOAT: int := 8
  const DOUBLE: int := 9
  const VECTOR_UINT8: int := 10
  const STRING: int := 12

  predicate IsBase(v: AnyValue) {
    !v.EnumV? && !v.OtherV?
  }

  // ---------- Integer conversions ----------

  function Span(width: nat): int {
    if width == 1 then 0x100 else if width == 2 then 0x1_0000
    else if width == 4 then 0x1_0000_0000 else 0x1_0000_0000_0000_0000
  }

  function Lowest(t: EnumType): int {
    if t.signed then -(Span(t.width) / 2) else 0
  }

  /** Conversion to the underlying type of the enumeration. */
  function Into(t: EnumType, x: int): int {
    Lowest(t) + (x - Lowest(t)) % Span(t.width)
  }

  ghost predicate InRange(v: AnyValue) {
    v.EnumV? ==> v.enumType.width in {1, 2, 4, 8} && Lowest(v.enumType) <= v.e < Lowest(v.enumType) + Span(v.enumType.width)
  }

  const INT32_TYPE: EnumType := EnumType("int32_t", 4, true)
  const INT64_TYPE: EnumType := EnumType("int64_t", 8, true)

  /** Converting to int32 and back loses nothing of an enumeration of at most four bytes. */
  lemma ThroughInt32(t: EnumType, x: int)
    requires t.width in {1, 2, 4} && Lowest(t) <= x < Lowest(t) + Span(t.width)
    ensures Into(t, Into(INT32_TYPE, x)) == x
  {
    var y := Into(INT32_TYPE, x);
    assert y == x || y == x - 0x1_0000_0000;
  }

  lemma ThroughInt64(t: EnumType, x: int)
    requires t.width == 8 && Lowest(t) <= x < Lowest(t) + Span(8)
    ensures Into(t, Into(INT64_TYPE, x)) == x
  {
    var y := Into(INT64_TYPE, x);
    assert y == x || y == x - Span(8);
  }

  // ---------- One value ----------

  /** False for values whose type the writer refuses. */
  predicate Marshals(v: AnyValue) {
    v.OtherV? ==> v.size <= 8
  }

  /** The cells of a value. A small value of a foreign type leaves its type code and no payload. */
  function Print(v: AnyValue): seq<Cell> {
    match v
    case BoolV(b) => [I32(BOOL), Bool(b)]
    case Int32V(i) => [I32(INT32), I32(i)]
    case Int64V(l) => [I32(INT64), I64(l)]
    case FloatV(f) => [I32(FLOAT), F32(f)]
    case DoubleV(d) => [I32(DOUBLE), F64(d)]
    case StringV(s) => [I32(STRING), Str(s)]
    case BytesV(bytes) => [I32(VECTOR_UINT8), Bytes(bytes)]
    case EnumV(t, e) => [I32(INVALID_TYPE), if t.width == 8 then I64(Into(INT64_TYPE, e)) else I32(Into(INT32_TYPE, e))]
    case OtherV(_, _, _) => [I32(INVALID_TYPE)]
  }

  /** Reads one value over the default `d`; reading never fails. */
  function Parse(d: AnyValue, cells: seq<Cell>): (AnyValue, seq<Cell>) {
    var (_, code, rest) := TakeI32(cells);
    var head := if rest == [] then I32(0) else rest[0];
    var tail := if rest == [] then [] else rest[1..];
    if code == BOOL then (if head.Bool? then (BoolV(head.b), tail) else (BoolV(false), rest))
    else if code == INT32 then (Int32V(TakeI32(rest).1), TakeI32(rest).2)
    else if code == INT64 then (Int64V(TakeI64(rest).1), TakeI64(rest).2)
    else if code == FLOAT then (if head.F32? then (FloatV(head.f32), tail) else (FloatV(0), rest))
    else if code == DOUBLE then (if head.F64? then (DoubleV(head.f64), tail) else (DoubleV(0), rest))
    else if code == STRING then (StringV(TakeStr(rest).1), TakeStr(rest).2)
    else if code == VECTOR_UINT8 then (if head.Bytes? then (BytesV(head.bytes), tail) else (BytesV([]), rest))
    else if d.EnumV? && d.enumType.width == 8 then (EnumV(d.enumType, Into(d.enumType, TakeI64(rest).1)), TakeI64(rest).2)
    else if d.EnumV? then (EnumV(d.enumType, Into(d.enumType, TakeI32(rest).1)), TakeI32(rest).2)
    else (d, rest)
  }

  /** Writer and reader agree on the cells of `v` when its tag defaults to `d`. */
  predicate Aligned(d: AnyValue, v: AnyValue) {
    match v
    case EnumV(t, _) => d.EnumV? && (t.width == 8 <==> d.enumType.width == 8)
    case OtherV(_, _, _) => !d.EnumV?
    case _ => true
  }

  /** The value that comes back. */
  function ReadBack(d: AnyValue, v: AnyValue): AnyValue {
    match v
    case EnumV(t, e) => if d.EnumV? && d.enumType != t
                        then EnumV(d.enumType, Into(d.enumType, Into(if t.width == 8 then INT64_TYPE else INT32_TYPE, e)))
                        else v
    case OtherV(_, _, _) => d
    case _ => v
  }

  lemma ValueRoundTrip(d: AnyValue, v: AnyValue, tail: seq<Cell>)
    requires InRange(v) && Marshals(v) && Aligned(d, v)
    ensures Parse(d, Print(v) + tail) == (ReadBack(d, v), tail)
  {
    var cells := Print(v) + tail;
    assert cells[1..] == Print(v)[1..] + tail;
    if v.EnumV? {
      if v.enumType.width == 8 { ThroughInt64(v.enumType, v.e); } else { ThroughInt32(v.enumType, v.e); }
    }
    if |Print(v)| == 2 {
      assert cells[1..][1..] == tail;
    }
  }

  /** The reader follows the writer, whatever comes behind the value, exactly when the two are aligned. */
  lemma ValueFollowedIff(d: AnyValue, v: AnyValue)
    requires InRange(v) && Marshals(v)
    ensures (forall tail :: Parse(d, Print(v) + tail) == (ReadBack(d, v), tail)) <==> Aligned(d, v)
  {
    if Aligned(d, v) {
      forall tail
        ensures Parse(d, Print(v) + tail) == (ReadBack(d, v), tail)
      {
        ValueRoundTrip(d, v, tail);
      }
    } else {
      var tail := if v.OtherV? then (if d.enumType.width == 8 then [I64(0)] else [I32(0)]) else [];
      assert |Parse(d, Print(v) + tail).1| != |tail|;
    }
  }

  predicate IsBaseCode(code: int) {
    code in {BOOL, INT32, INT64, FLOAT, DOUBLE, STRING, VECTOR_UINT8}
  }

  /** The next cell is an integer of the width that the enumeration is written in. */
  predicate EnumCellNext(t: EnumType, cells: seq<Cell>) {
    cells != [] && if t.width == 8 then cells[0].I64? else cells[0].I32?
  }

  /**
   * A code that is neither a base code nor that of an enumeration is meant to be refused without another try. It
   * leaves the operand and the parcel alone exactly when the operand is no enumeration, or is the one that an
   * empty read gives and no integer follows.
   */
  lemma UnknownCodeIsRefusedIff(d: AnyValue, code: int, rest: seq<Cell>)
    requires code != INVALID_TYPE && !IsBaseCode(code)
    ensures Parse(d, [I32(code)] + rest) == (d, rest) <==>
            !d.EnumV? || (!EnumCellNext(d.enumType, rest) && d.e == Into(d.enumType, 0))
  {
    hide Into;
    assert ([I32(code)] + rest)[1..] == rest;
    if d.EnumV? && EnumCellNext(d.enumType, rest) {
      assert |Parse(d, [I32(code)] + rest).1| == |rest| - 1;
    }
  }

  /** Over an enumeration, the unknown code 7 takes the integer behind it, which belongs to somebody else. */
  lemma UnknownCodeTakesNextInteger(name: string, tail: seq<Cell>)
    ensures var t := EnumType(name, 4, true);
            Parse(EnumV(t, 0), [I32(7), I32(9)] + tail) == (EnumV(t, 9), tail)
  {
    var cells := [I32(7), I32(9)] + tail;
    assert cells[1..] == [I32(9)] + tail;
    assert cells[1..][1..] == tail;
  }

  /** A base value, or an enumeration of the type registered for its tag. */
  predicate Faithful(d: AnyValue, v: AnyValue) {
    IsBase(v) || (v.EnumV? && d.EnumV? && v.enumType == d.enumType)
  }

  // ---------- Whole metadata ----------

  type Entries = map<string, AnyValue>

  ghost function PrintEntries(m: Entries, keys: seq<string>): seq<Cell>
    requires forall k | k in keys :: k in m
  {
    if keys == [] then [] else [Str(keys[0])] + Print(m[keys[0]]) + PrintEntries(m, keys[1..])
  }

  /** The entries in some order of the keys, behind their number. */
  ghost function PrintMeta(m: Entries, keys: seq<string>): seq<Cell>
    requires forall k | k in keys :: k in m
  {
    [I32(|keys|)] + PrintEntries(m, keys)
  }

  /** `keys` lists the keys of `m`, once each. */
  ghost predicate Enumerates(m: Entries, keys: seq<string>) {
    NoDuplicates(keys) && forall k :: k in keys <==> k in m
  }

  function ParseEntries(defaults: Defaults, n: nat, m: Entries, cells: seq<Cell>): (Entries, seq<Cell>) {
    if n == 0 then (m, cells)
    else
      var (_, key, rest) := TakeStr(cells);
      var (v, rest') := Parse(DefaultOf(defaults, key), rest);
      ParseEntries(defaults, n - 1, m[key := v], rest')
  }

  /** Refuses a negative count and one above the parcel's raw data capacity. */
  function ParseMeta(defaults: Defaults, capacity: int, cells: seq<Cell>): (bool, Entries, seq<Cell>) {
    var (_, size, rest) := TakeI32(cells);
    if size < 0 || size > capacity then (false, map[], rest)
    else
      var (m, rest') := ParseEntries(defaults, size, map[], rest);
      (true, m, rest')
  }

  ghost predicate Readable(defaults: Defaults, m: Entries) {
    forall k | k in m :: InRange(m[k]) && Marshals(m[k]) && Aligned(DefaultOf(defaults, k), m[k])
  }

  ghost function ReadBackAll(defaults: Defaults, m: Entries): Entries {
    map k | k in m :: ReadBack(DefaultOf(defaults, k), m[k])
  }

  ghost function Restrict(m: Entries, keys: seq<string>): Entries {
    map k | k in m && k in keys :: m[k]
  }

  lemma {:induction false} EntriesRoundTrip(defaults: Defaults, m: Entries, keys: seq<string>, acc: Entries, tail: seq<Cell>)
    requires Readable(defaults, m) && NoDuplicates(keys) && forall k | k in keys :: k in m
    ensures ParseEntries(defaults, |keys|, acc, PrintEntries(m, keys) + tail) ==
            (acc + Restrict(ReadBackAll(defaults, m), keys), tail)
    decreases |keys|
  {
    if keys == [] {
      assert PrintEntries(m, keys) + tail == tail;
      assert acc + Restrict(ReadBackAll(defaults, m), keys) == acc;
    } else {
      hide Parse, Print, ReadBack, Restrict, Aligned, InRange;
      var k := keys[0];
      var v := ReadBack(DefaultOf(defaults, k), m[k]);
      FirstEntry(defaults, m, keys, tail);
      EntriesRoundTrip(defaults, m, keys[1..], acc[k := v], tail);
      RestrictStep(ReadBackAll(defaults, m), keys, acc);
    }
  }

  lemma RestrictStep(m: Entries, keys: seq<string>, acc: Entries)
    requires keys != [] && keys[0] in m
    ensures acc[keys[0] := m[keys[0]]] + Restrict(m, keys[1..]) == acc + Restrict(m, keys)
  {
    assert keys == [keys[0]] + keys[1..];
  }

  lemma FirstEntry(defaults: Defaults, m: Entries, keys: seq<string>, tail: seq<Cell>)
    requires Readable(defaults, m) && keys != [] && forall k | k in keys :: k in m
    ensures var (_, key, rest) := TakeStr(PrintEntries(m, keys) + tail);
            key == keys[0] &&
            Parse(DefaultOf(defaults, key), rest) ==
            (ReadBack(DefaultOf(defaults, key), m[key]), PrintEntries(m, keys[1..]) + tail)
  {
    var k, rest := keys[0], PrintEntries(m, keys[1..]) + tail;
    assert PrintEntries(m, keys) + tail == [Str(k)] + (Print(m[k]) + rest);
    assert (PrintEntries(m, keys) + tail)[1..] == Print(m[k]) + rest;
    ValueRoundTrip(DefaultOf(defaults, k), m[k], rest);
  }

  /** Reading printed metadata yields the values that come back, and stops exactly at the tail. */
  lemma MetaRoundTrip(defaults: Defaults, capacity: int, m: Entries, keys: seq<string>, tail: seq<Cell>)
    requires Readable(defaults, m) && Enumerates(m, keys) && |keys| <= capacity
    ensures ParseMeta(defaults, capacity, PrintMeta(m, keys) + tail) == (true, ReadBackAll(defaults, m), tail)
  {
    var back := ReadBackAll(defaults, m);
    assert forall k :: k in keys <==> k in back;
    assert (forall k | k in keys :: k in m) && NoDuplicates(keys);
    hide ParseMeta, ParseEntries, PrintEntries, ReadBackAll, Restrict, Readable, Enumerates, NoDuplicates;
    EntriesRoundTrip(defaults, m, keys, map[], tail);
    RestrictAll(back, keys);
    CountedEntries(defaults, capacity, |keys|, PrintEntries(m, keys) + tail);
    assert PrintMeta(m, keys) + tail == [I32(|keys|)] + (PrintEntries(m, keys) + tail);
  }

  lemma CountedEntries(defaults: Defaults, capacity: int, n: nat, cells: seq<Cell>)
    requires n <= capacity
    ensures var (m, rest) := ParseEntries(defaults, n, map[], cells);
            ParseMeta(defaults, capacity, [I32(n)] + cells) == (true, m, rest)
  {
    hide ParseEntries;
    assert ([I32(n)] + cells)[1..] == cells;
  }

  lemma RestrictAll(m: Entries, keys: seq<string>)
    requires forall k :: k in keys <==> k in m
    ensures map[] + Restrict(m, keys) == m
  {
  }

  /** Metadata of base values and registered enumerations comes back unchanged. */
  lemma FaithfulMetaRoundTrip(defaults: Defaults, capacity: int, m: Entries, keys: seq<string>, tail: seq<Cell>)
    requires Enumerates(m, keys) && |keys| <= capacity
    requires forall k | k in m :: InRange(m[k]) && Faithful(DefaultOf(defaults, k), m[k])
    ensures ParseMeta(defaults, capacity, PrintMeta(m, keys) + tail) == (true, m, tail)
  {
    MetaRoundTrip(defaults, capacity, m, keys, tail);
    assert ReadBackAll(defaults, m) == m;
  }

  /** What a reader can put under a tag with default `d`: a base value, the default, or an enumeration of its type. */
  predicate Restorable(d: AnyValue, v: AnyValue) {
    && (v.OtherV? ==> v == d)
    && (v.EnumV? ==> d.EnumV? && v.enumType == d.enumType)
  }

  predicate AllRestorable(defaults: Defaults, m: Entries) {
    forall k | k in m :: Restorable(DefaultOf(defaults, k), m[k])
  }

  lemma ParsedIsRestorable(d: AnyValue, cells: seq<Cell>)
    ensures Restorable(d, Parse(d, cells).0)
  {
  }

  /** Whatever the parcel holds, only such values are ever stored. */
  lemma {:induction false} ParsedAreRestorable(defaults: Defaults, n: nat, m: Entries, cells: seq<Cell>)
    requires AllRestorable(defaults, m)
    ensures AllRestorable(defaults, ParseEntries(defaults, n, m, cells).0)
  {
    if n > 0 {
      hide Restorable, Parse;
      var (_, key, rest) := TakeStr(cells);
      ParsedIsRestorable(DefaultOf(defaults, key), rest);
      var (v, rest') := Parse(DefaultOf(defaults, key), rest);
      ParsedAreRestorable(defaults, n - 1, m[key := v], rest');
    }
  }

  /**
   * Metadata that the writer accepts comes back unchanged exactly when every foreign value equals its tag's default
   * and every enumeration has the type of its tag's default; and then the reader stops exactly at the tail.
   */
  lemma MetaUnchangedIff(defaults: Defaults, capacity: int, m: Entries, keys: seq<string>, tail: seq<Cell>)
    requires forall k | k in m :: InRange(m[k]) && Marshals(m[k])
    requires Enumerates(m, keys) && |keys| <= capacity
    ensures ParseMeta(defaults, capacity, PrintMeta(m, keys) + tail).1 == m <==> AllRestorable(defaults, m)
    ensures AllRestorable(defaults, m) ==> ParseMeta(defaults, capacity, PrintMeta(m, keys) + tail) == (true, m, tail)
  {
    if AllRestorable(defaults, m) {
      RestorableIsReadable(defaults, m);
      hide ParseMeta, ReadBackAll;
      MetaRoundTrip(defaults, capacity, m, keys, tail);
    } else {
      hide ParseEntries, AllRestorable;
      var rest := TakeI32(PrintMeta(m, keys) + tail).2;
      NothingIsRestorable(defaults);
      ParsedAreRestorable(defaults, |keys|, map[], rest);
    }
  }

  lemma NothingIsRestorable(defaults: Defaults)
    ensures AllRestorable(defaults, map[])
  {
  }

  lemma RestorableIsReadable(defaults: Defaults, m: Entries)
    requires AllRestorable(defaults, m) && forall k | k in m :: InRange(m[k]) && Marshals(m[k])
    ensures Readable(defaults, m) && ReadBackAll(defaults, m) == m
  {
    assert forall k | k in m :: Restorable(DefaultOf(defaults, k), m[k]);
  }

  /**
   * An enumeration under a tag that is not registered is reported as written. It comes back as the empty string, and
   * the reader stops before the integer that was written for it, out of step with everything that follows.
   */
  lemma UnregisteredEnumerationLosesPlace(defaults: Defaults, e: int, tail: seq<Cell>)
    requires "mine" !in defaults && -0x8000_0000 <= e < 0x8000_0000
    ensures var m: Entries := map["mine" := EnumV(EnumType("Mine", 4, true), e)];
            && InRange(m["mine"]) && Marshals(m["mine"])
            && ParseMeta(defaults, 1, PrintMeta(m, ["mine"]) + tail) == (true, map["mine" := StringV("")], [I32(e)] + tail)
  {
    var m: Entries := map["mine" := EnumV(EnumType("Mine", 4, true), e)];
    var cells := [Str("mine"), I32(INVALID_TYPE), I32(e)] + tail;
    assert Into(INT32_TYPE, e) == e;
    assert PrintEntries(m, ["mine"]) == [Str("mine"), I32(INVALID_TYPE), I32(e)] by {
      assert ["mine"][1..] == [];
    }
    assert PrintMeta(m, ["mine"]) + tail == [I32(1)] + cells;
    CountedEntries(defaults, 1, 1, cells);
    assert cells[1..] == [I32(INVALID_TYPE), I32(e)] + tail;
    assert cells[1..][1..] == [I32(e)] + tail;
    var v := Parse(StringV(""), cells[1..]);
    assert v == (StringV(""), [I32(e)] + tail);
    assert ParseEntries(defaults, 1, map[], cells) == ParseEntries(defaults, 0, map["mine" := v.0], v.1);
  }

  /** A 64-bit unsigned entry is reported as written, and comes back as its tag's default. */
  lemma UnsignedEntryIsLost(defaults: Defaults, tail: seq<Cell>)
    requires "media.file.size" in defaults && defaults["media.file.size"] == OtherV("uint64_t", 8, 0)
    ensures var m: Entries := map["media.file.size" := OtherV("uint64_t", 8, 4096)];
            Marshals(m["media.file.size"]) &&
            ParseMeta(defaults, 1, PrintMeta(m, ["media.file.size"]) + tail) == (true, map["media.file.size" := OtherV("uint64_t", 8, 0)], tail)
  {
    var m: Entries := map["media.file.size" := OtherV("uint64_t", 8, 4096)];
    MetaRoundTrip(defaults, 1, m, ["media.file.size"], tail);
    assert ReadBackAll(defaults, m) == map["media.file.size" := OtherV("uint64_t", 8, 0)];
  }

  /** Too many entries for the guard are refused by the reader, whatever they are. */
  lemma GuardRefusesIff(defaults: Defaults, capacity: int, m: Entries, keys: seq<string>, tail: seq<Cell>)
    requires Enumerates(m, keys)
    ensures ParseMeta(defaults, capacity, PrintMeta(m, keys) + tail).0 <==> |keys| <= capacity
  {
    assert (PrintMeta(m, keys) + tail)[0] == I32(|keys|);
  }

  /** The reader accepts a count exactly when it is not negative and within the capacity; else it takes no entry. */
  lemma CountAcceptedIff(defaults: Defaults, capacity: int, n: int, cells: seq<Cell>)
    ensures var r := ParseMeta(defaults, capacity, [I32(n)] + cells);
            && (r.0 <==> 0 <= n <= capacity)
            && (!r.0 ==> r.1 == map[] && r.2 == cells)
  {
    hide ParseEntries;
    assert ([I32(n)] + cells)[1..] == cells;
  }

  /** The codes on the wire, and what stands behind them. */
  lemma WireFormat(i: int, s: string, bytes: seq<int>)
    ensures Print(BoolV(true)) == [I32(2), Bool(true)] && Print(Int32V(i)) == [I32(4), I32(i)]
    ensures Print(Int64V(i)) == [I32(6), I64(i)] && Print(FloatV(i)) == [I32(8), F32(i)]
    ensures Print(DoubleV(i)) == [I32(9), F64(i)] && Print(BytesV(bytes)) == [I32(10), Bytes(bytes)]
    ensures Print(StringV(s)) == [I32(12), Str(s)]
    ensures Print(OtherV("uint64_t", 8, i)) == [I32(1)]
  {
  }

  /** An enumeration of eight bytes travels as one integer, every narrower one as a shorter one. */
  lemma EnumerationWireFormat(t: EnumType, e: int)
    requires -0x8000_0000 <= e < 0x8000_0000
    ensures Print(EnumV(t, e)) == [I32(1), if t.width == 8 then I64(e) else I32(e)]
  {
    assert Into(INT32_TYPE, e) == e && Into(INT64_TYPE, e) == e;
  }

  /** A parcel that ends behind a base code reads as zero or empty, whatever the default. */
  lemma TruncatedReadsZero(d: AnyValue)
    ensures Parse(d, [I32(2)]) == (BoolV(false), []) && Parse(d, [I32(4)]) == (Int32V(0), [])
    ensures Parse(d, [I32(6)]) == (Int64V(0), []) && Parse(d, [I32(8)]) == (FloatV(0), [])
    ensures Parse(d, [I32(9)]) == (DoubleV(0), []) && Parse(d, [I32(10)]) == (BytesV([]), [])
    ensures Parse(d, [I32(12)]) == (StringV(""), [])
  {
  }

  // ---------- The objects ----------

  method BaseTypesToParcel(operand: AnyValue, parcel: MessageParcel) returns (ok: bool)
    modifies parcel`cells
    ensures ok <==> IsBase(operand)
    ensures parcel.cells == old(parcel.cells) + if ok then Print(operand) else [I32(INVALID_TYPE)]
  {
    match operand {
      case BoolV(b) => parcel.Write(I32(BOOL)); parcel.Write(Bool(b));
      case Int32V(i) => parcel.Write(I32(INT32)); parcel.Write(I32(i));
      case Int64V(l) => parcel.Write(I32(INT64)); parcel.Write(I64(l));
      case FloatV(f) => parcel.Write(I32(FLOAT)); parcel.Write(F32(f));
      case DoubleV(d) => parcel.Write(I32(DOUBLE)); parcel.Write(F64(d));
      case StringV(s) => parcel.Write(I32(STRING)); parcel.Write(Str(s));
      case BytesV(bytes) => parcel.Write(I32(VECTOR_UINT8)); parcel.Write(Bytes(bytes));
      case _ => parcel.Write(I32(INVALID_TYPE)); return false;
    }
    return true;
  }

  /** Base types first; then enumerations as integers; types of more than eight bytes are refused. */
  method AnyToParcel(operand: AnyValue, parcel: MessageParcel) returns (ok: bool)
    requires InRange(operand)
    modifies parcel`cells
    ensures ok <==> Marshals(operand)
    ensures ok ==> parcel.cells == old(parcel.cells) + Print(operand)
  {
    ok := BaseTypesToParcel(operand, parcel);
    if ok {
      return;
    }
    var size := if operand.EnumV? then operand.enumType.width else operand.size;
    if size > 8 {
      return false;
    }
    if operand.EnumV? {
      if size == 8 {
        parcel.Write(I64(Into(INT64_TYPE, operand.e)));
      } else {
        parcel.Write(I32(Into(INT32_TYPE, operand.e)));
      }
    }
    return true;
  }

  method EntryToParcel(key: string, value: AnyValue, parcel: MessageParcel) returns (ok: bool)
    requires InRange(value)
    modifies parcel`cells
    ensures ok <==> Marshals(value)
    ensures ok ==> parcel.cells == old(parcel.cells) + [Str(key)] + Print(value)
  {
    hide Print, InRange, Marshals;
    parcel.Write(Str(key));
    ok := AnyToParcel(value, parcel);
  }

  method AnyFromParcel(operand: AnyValue, parcel: MessageParcel) returns (value: AnyValue)
    requires parcel.Valid()
    modifies parcel`cursor
    ensures parcel.Valid() && (value, parcel.Rest()) == Parse(operand, old(parcel.Rest()))
  {
    var _, code := parcel.ReadInt32();
    if code == INT32 {
      var _, i := parcel.ReadInt32();
      return Int32V(i);
    } else if code == INT64 {
      var _, l := parcel.ReadInt64();
      return Int64V(l);
    } else if code == STRING {
      var _, s := parcel.ReadString();
      return StringV(s);
    } else if code in {BOOL, FLOAT, DOUBLE, VECTOR_UINT8} {
      value := ReadOpaque(code, parcel);
      return;
    }
    // not a base type, or an unknown code: read an enumeration of the operand's type, if it is one
    if !operand.EnumV? {
      return operand;
    }
    var x;
    if operand.enumType.width == 8 {
      var _, l := parcel.ReadInt64();
      x := l;
    } else {
      var _, i := parcel.ReadInt32();
      x := i;
    }
    return EnumV(operand.enumType, Into(operand.enumType, x));
  }

  method ReadOpaque(code: int, parcel: MessageParcel) returns (value: AnyValue)
    requires parcel.Valid() && code in {BOOL, FLOAT, DOUBLE, VECTOR_UINT8}
    modifies parcel`cursor
    ensures parcel.Valid()
    ensures var rest := old(parcel.Rest());
            var hit := rest != [] && (if code == BOOL then rest[0].Bool? else if code == FLOAT then rest[0].F32?
                                      else if code == DOUBLE then rest[0].F64? else rest[0].Bytes?);
            && parcel.Rest() == (if hit then rest[1..] else rest)
            && value == if code == BOOL then BoolV(hit && rest[0].b)
                        else if code == FLOAT then FloatV(if hit then rest[0].f32 else 0)
                        else if code == DOUBLE then DoubleV(if hit then rest[0].f64 else 0)
                        else BytesV(if hit then rest[0].bytes else [])
  {
    var found, c := parcel.Peek();
    var hit := found && (if code == BOOL then c.Bool? else if code == FLOAT then c.F32?
                         else if code == DOUBLE then c.F64? else c.Bytes?);
    value := if code == BOOL then BoolV(hit && c.b)
             else if code == FLOAT then FloatV(if hit then c.f32 else 0)
             else if code == DOUBLE then DoubleV(if hit then c.f64 else 0)
             else BytesV(if hit then c.bytes else []);
    if hit {
      parcel.Advance();
    }
  }

  class MetaObject {
    var map_: Entries

    constructor ()
      ensures map_ == map[]
    {
      map_ := map[];
    }

    /** Writes all entries or, when one cannot be marshalled, nothing. `keys` is the order of the map. */
    method ToParcel(parcel: MessageParcel) returns (ok: bool, ghost keys: seq<string>)
      requires forall k | k in map_ :: InRange(map_[k])
      modifies parcel`cells
      ensures ok <==> forall k | k in map_ :: Marshals(map_[k])
      ensures ok ==> Enumerates(map_, keys) && parcel.cells == old(parcel.cells) + PrintMeta(map_, keys)
      ensures !ok ==> parcel.cells == old(parcel.cells)
    {
      hide PrintEntries, Marshals, InRange, Enumerates;
      var metaParcel := new MessageParcel(parcel.rawDataCapacity);
      var metaSize;
      ok, metaSize, keys := EntriesToParcel(metaParcel);
      if ok {
        parcel.Write(I32(metaSize));
        parcel.Append(metaParcel);
      }
    }

    /** The loop over the entries, into an empty parcel. */
    method EntriesToParcel(metaParcel: MessageParcel) returns (ok: bool, metaSize: int, ghost keys: seq<string>)
      requires metaParcel.cells == [] && forall k | k in map_ :: InRange(map_[k])
      modifies metaParcel`cells
      ensures ok <==> forall k | k in map_ :: Marshals(map_[k])
      ensures ok ==> Enumerates(map_, keys) && metaSize == |keys| && metaParcel.cells == PrintEntries(map_, keys)
    {
      assert PrintEntries(map_, []) == [];
      hide PrintEntries, Print, InRange, Marshals, NoDuplicates;
      metaSize := 0;
      var rest := map_.Keys;
      keys := [];
      EmptyHasNoDuplicates();
      while rest != {}
        invariant rest <= map_.Keys && metaSize == |keys|
        invariant NoDuplicates(keys) && forall k :: k in keys <==> k in map_ && k !in rest
        invariant forall k | k in keys :: Marshals(map_[k])
        invariant metaParcel.cells == PrintEntries(map_, keys)
        decreases |rest|
      {
        var key :| key in rest;
        rest := rest - {key};
        metaSize := metaSize + 1;
        ok := EntryToParcel(key, map_[key], metaParcel);
        if !ok {
          return;
        }
        PrintEntriesSnoc(map_, keys, key);
        NoDuplicatesSnoc(keys, key);
        keys := keys + [key];
      }
      ok := true;
    }

    method FromParcel(parcel: MessageParcel, defaults: Defaults) returns (ok: bool)
      requires parcel.Valid()
      modifies this, parcel`cursor
      ensures parcel.Valid() && (ok, map_, parcel.Rest()) == ParseMeta(defaults, parcel.rawDataCapacity, old(parcel.Rest()))
    {
      hide Parse;
      map_ := map[];
      var _, size := parcel.ReadInt32();
      if size < 0 || size > parcel.rawDataCapacity {
        return false;
      }
      ghost var cells := parcel.Rest();
      var index := 0;
      while index < size
        invariant 0 <= index <= size && parcel.Valid()
        invariant ParseEntries(defaults, size - index, map_, parcel.Rest()) == ParseEntries(defaults, size, map[], cells)
      {
        var _, key := parcel.ReadString();
        var value := AnyFromParcel(DefaultOf(defaults, key), parcel);
        map_ := map_[key := value];
        index := index + 1;
      }
      return true;
    }
  }

  lemma EmptyHasNoDuplicates()
    ensures NoDuplicates<string>([])
  {
  }

  lemma NoDuplicatesSnoc(keys: seq<string>, key: string)
    requires NoDuplicates(keys) && key !in keys
    ensures NoDuplicates(keys + [key])
  {
  }

  lemma {:induction false} PrintEntriesSnoc(m: Entries, keys: seq<string>, key: string)
    requires key in m && forall k | k in keys :: k in m
    ensures forall k | k in keys + [key] :: k in m
    ensures PrintEntries(m, keys + [key]) == PrintEntries(m, keys) + [Str(key)] + Print(m[key])
  {
    if keys == [] {
      assert keys + [key] == [key];
    } else {
      assert (keys + [key])[1..] == keys[1..] + [key];
      PrintEntriesSnoc(m, keys[1..], key);
    }
  }
}
