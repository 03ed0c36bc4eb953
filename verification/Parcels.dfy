/** A message parcel as a sequence of typed cells with a read cursor. */
module Parcels {

  /** One written item. Floats are opaque bit patterns; descriptors and serialized surfaces are opaque tokens. */
  datatype Cell =
    | I32(i32: int) | I64(i64: int) | U8(u8: int) | U32(u32: int) | U64(u64: int)
    | Bool(b: bool) | F32(f32: int) | F64(f64: int)
    | Str(s: string) | Bytes(bytes: seq<int>)
    | Fd(fd: int) | Surface(token: int, capacity: nat)

  function Padded(n: nat): nat {
    (n + 3) / 4 * 4
  }

  /** Bytes a cell takes. Only the 4 bytes of an I32 matter to the properties proved. */
  function CellSize(c: Cell): nat {
    match c
    case I64(_) => 8
    case U64(_) => 8
    case F64(_) => 8
    case Str(s) => 4 + Padded(|s| + 1)
    case Bytes(s) => 4 + Padded(|s|)
    case Surface(_, n) => 4 + n
    case _ => 4
  }

  function DataSize(cells: seq<Cell>): nat {
    if cells == [] then 0 else CellSize(cells[0]) + DataSize(cells[1..])
  }

  lemma {:induction false} DataSizeConcat(a: seq<Cell>, b: seq<Cell>)
    ensures DataSize(a + b) == DataSize(a) + DataSize(b)
  {
    if a == [] {
      assert a + b == b;
    } else {
      assert (a + b)[1..] == a[1..] + b;
      DataSizeConcat(a[1..], b);
    }
  }

  /** What is left after skipping `n` bytes, cell by cell. */
  function Skip(cells: seq<Cell>, n: int): seq<Cell> {
    if cells == [] || n <= 0 || CellSize(cells[0]) > n then cells
    else Skip(cells[1..], n - CellSize(cells[0]))
  }

  const TWO_64: int := 0x1_0000_0000_0000_0000

  /** Subtraction of 64-bit unsigned numbers. */
  function Minus64(a: int, b: int): int {
    (a - b) % TWO_64
  }

  ghost predicate NoEmptyCell(cells: seq<Cell>) {
    forall i | 0 <= i < |cells| :: CellSize(cells[i]) > 0
  }

  /** Skipping the size of a block skips the block. */
  lemma {:induction false} SkipBlock(a: seq<Cell>, b: seq<Cell>)
    requires NoEmptyCell(a)
    ensures Skip(a + b, DataSize(a)) == b
  {
    if a == [] {
      assert a + b == b;
    } else {
      assert (a + b)[1..] == a[1..] + b;
      assert CellSize(a[0]) > 0;
      SkipBlock(a[1..], b);
    }
  }

  class MessageParcel {
    var cells: seq<Cell>
    var cursor: nat
    const rawDataCapacity: int

    constructor (capacity: int)
      ensures cells == [] && cursor == 0 && rawDataCapacity == capacity
    {
      cells, cursor, rawDataCapacity := [], 0, capacity;
    }

    ghost predicate Valid()
      reads this
    {
      cursor <= |cells|
    }

    /** The cells still to be read. */
    ghost function Rest(): seq<Cell>
      requires Valid()
      reads this
    {
      cells[cursor..]
    }

    method Write(c: Cell)
      modifies this`cells
      ensures cells == old(cells) + [c]
    {
      cells := cells + [c];
    }

    method Append(other: MessageParcel)
      modifies this`cells
      ensures cells == old(cells) + old(other.cells)
    {
      cells := cells + other.cells;
    }

    method GetDataSize() returns (n: nat)
      ensures n == DataSize(cells)
    {
      n := 0;
      for i := 0 to |cells|
        invariant n == DataSize(cells[..i])
      {
        assert cells[..i + 1] == cells[..i] + [cells[i]];
        DataSizeConcat(cells[..i], [cells[i]]);
        n := n + CellSize(cells[i]);
      }
      assert cells[..|cells|] == cells;
    }

    method SkipBytes(n: int)
      requires Valid()
      modifies this`cursor
      ensures Valid() && Rest() == Skip(old(Rest()), n)
    {
      var left := n;
      while cursor < |cells| && left > 0 && CellSize(cells[cursor]) <= left
        invariant Valid()
        invariant Skip(Rest(), left) == Skip(old(Rest()), n)
        decreases |cells| - cursor
      {
        assert Rest()[1..] == cells[cursor + 1..];
        left := left - CellSize(cells[cursor]);
        cursor := cursor + 1;
      }
    }

    /** The next cell, without moving. */
    method Peek() returns (found: bool, c: Cell)
      requires Valid()
      ensures found <==> Rest() != []
      ensures found ==> c == Rest()[0]
    {
      found := cursor < |cells|;
      c := if found then cells[cursor] else I32(0);
    }

    method Advance()
      requires Valid() && Rest() != []
      modifies this`cursor
      ensures Valid() && Rest() == old(Rest())[1..]
    {
      cursor := cursor + 1;
    }

    // Reads. A read that does not find its kind of cell fails, yields a zero value and moves nothing.

    method ReadInt32() returns (ok: bool, v: int)
      requires Valid()
      modifies this`cursor
      ensures Valid() && (ok, v, Rest()) == TakeI32(old(Rest()))
    {
      var found, c := Peek();
      ok, v := found && c.I32?, 0;
      if ok { v := c.i32; Advance(); }
    }

    method ReadInt64() returns (ok: bool, v: int)
      requires Valid()
      modifies this`cursor
      ensures Valid() && (ok, v, Rest()) == TakeI64(old(Rest()))
    {
      var found, c := Peek();
      ok, v := found && c.I64?, 0;
      if ok { v := c.i64; Advance(); }
    }

    method ReadUint64() returns (ok: bool, v: int)
      requires Valid()
      modifies this`cursor
      ensures Valid() && (ok, v, Rest()) == TakeU64(old(Rest()))
    {
      var found, c := Peek();
      ok, v := found && c.U64?, 0;
      if ok { v := c.u64; Advance(); }
    }

    method ReadUint32() returns (ok: bool, v: int)
      requires Valid()
      modifies this`cursor
      ensures Valid() && (ok, v, Rest()) == TakeU32(old(Rest()))
    {
      var found, c := Peek();
      ok, v := found && c.U32?, 0;
      if ok { v := c.u32; Advance(); }
    }

    method ReadUint8() returns (ok: bool, v: int)
      requires Valid()
      modifies this`cursor
      ensures Valid() && (ok, v, Rest()) == TakeU8(old(Rest()))
    {
      var found, c := Peek();
      ok, v := found && c.U8?, 0;
      if ok { v := c.u8; Advance(); }
    }

    method ReadString() returns (ok: bool, v: string)
      requires Valid()
      modifies this`cursor
      ensures Valid() && (ok, v, Rest()) == TakeStr(old(Rest()))
    {
      var found, c := Peek();
      ok, v := found && c.Str?, "";
      if ok { v := c.s; Advance(); }
    }
  }

  function TakeI32(cells: seq<Cell>): (bool, int, seq<Cell>) {
    if cells != [] && cells[0].I32? then (true, cells[0].i32, cells[1..]) else (false, 0, cells)
  }

  function TakeI64(cells: seq<Cell>): (bool, int, seq<Cell>) {
    if cells != [] && cells[0].I64? then (true, cells[0].i64, cells[1..]) else (false, 0, cells)
  }

  function TakeU64(cells: seq<Cell>): (bool, int, seq<Cell>) {
    if cells != [] && cells[0].U64? then (true, cells[0].u64, cells[1..]) else (false, 0, cells)
  }

  function TakeU32(cells: seq<Cell>): (bool, int, seq<Cell>) {
    if cells != [] && cells[0].U32? then (true, cells[0].u32, cells[1..]) else (false, 0, cells)
  }

  function TakeU8(cells: seq<Cell>): (bool, int, seq<Cell>) {
    if cells != [] && cells[0].U8? then (true, cells[0].u8, cells[1..]) else (false, 0, cells)
  }

  function TakeStr(cells: seq<Cell>): (bool, string, seq<Cell>) {
    if cells != [] && cells[0].Str? then (true, cells[0].s, cells[1..]) else (false, "", cells)
  }
}
