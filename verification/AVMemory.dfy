/** Buffer memory: positional and appending writes into a fixed block of bytes. */
module AVMemoryModel {
  import opened AVBufferCommon

  type Byte = int

  /** Bytes a write of `n` bytes transfers when it starts at `start`. */
  function Fits(n: int, start: int, capacity: int): int {
    if n < capacity - start then n else capacity - start
  }

  class AVMemory {
    const capacity_: nat
    const base_: array<Byte>
    const flag_: MemoryFlag
    // whether the library's bounded copy accepts a copy of no bytes
    const emptyCopyAccepted: bool
    var size_: int
    var offset_: int

    ghost predicate Valid()
      reads this
    {
      base_.Length == capacity_ && 0 <= size_ <= capacity_ && 0 <= offset_ <= capacity_
    }

    /** The bytes in use. */
    ghost function Contents(): seq<Byte>
      requires Valid()
      reads this, base_
    {
      base_[..size_]
    }

    constructor (capacity: nat, flag: MemoryFlag, emptyCopyAccepted: bool)
      ensures Valid() && fresh(base_) && capacity_ == capacity && flag_ == flag && size_ == 0 && offset_ == 0
      ensures this.emptyCopyAccepted == emptyCopyAccepted
    {
      capacity_, flag_, this.emptyCopyAccepted := capacity, flag, emptyCopyAccepted;
      base_ := new Byte[capacity](_ => 0);
      size_, offset_ := 0, 0;
    }

    method SetSize(size: int)
      requires Valid()
      modifies this`size_
      ensures Valid() && size_ == if size < 0 then 0 else if size > capacity_ then capacity_ else size
    {
      size_ := if size < 0 then 0 else size;
      size_ := if capacity_ < size_ then capacity_ else size_;
    }

    method SetOffset(offset: int)
      requires Valid()
      modifies this`offset_
      ensures Valid() && offset_ == if offset < 0 then 0 else if offset > capacity_ then capacity_ else offset
    {
      offset_ := if offset < 0 then 0 else offset;
      offset_ := if capacity_ < offset_ then capacity_ else offset_;
    }

    method Reset()
      requires Valid()
      modifies this`size_
      ensures Valid() && Contents() == []
    {
      size_ := 0;
    }

    /**
     * Copies as much of `input` as fits from `position` on, or from the end of the used bytes when the position is
     * negative. The used size ends behind the copied bytes; bytes before the start are kept.
     */
    method Write(input: array<Byte>, writeSize: int, position: int) returns (length: int)
      requires Valid() && writeSize <= input.Length && input != base_
      modifies this`size_, base_
      ensures Valid()
      ensures writeSize <= 0 || flag_ == ReadOnly ==>
        length == 0 && size_ == old(size_) && base_[..] == old(base_[..])
      ensures writeSize > 0 && flag_ != ReadOnly ==>
        var start := if position < 0 then old(size_) else if position < capacity_ then position else capacity_;
        && length == Fits(writeSize, start, capacity_)
        && size_ == (if length == 0 && !emptyCopyAccepted then old(size_) else start + length)
        && base_[..] == old(base_[..])[..start] + input[..length] + old(base_[..])[start + length..]
      ensures writeSize > 0 && flag_ != ReadOnly && position < 0 ==>
        Contents() == Append(old(Contents()), input[..writeSize], capacity_)
    {
      if writeSize <= 0 || flag_ == ReadOnly {
        return 0;
      }
      var start: int;
      if position <= -1 {
        start := size_;
      } else {
        start := if position < capacity_ then position else capacity_;
      }
      var unusedSize := capacity_ - start;
      length := if writeSize < unusedSize then writeSize else unusedSize;
      if length == 0 && !emptyCopyAccepted {
        return;
      }
      ghost var before := base_[..];
      for i := 0 to length
        invariant forall k :: 0 <= k < |before| ==>
          base_[k] == if start <= k < start + i then input[k - start] else before[k]
      {
        base_[start + i] := input[i];
      }
      size_ := start + length;
      assert base_[..] == before[..start] + input[..length] + before[start + length..];
      assert Contents() == before[..start] + input[..length];
    }

    /** Copies out up to `readSize` used bytes, from `position` or, when it is negative, from the beginning. */
    method Read(output: array<Byte>, readSize: int, position: int) returns (length: int)
      requires Valid() && readSize <= output.Length && output != base_
      modifies output
      ensures readSize <= 0 || flag_ == WriteOnly ==> length == 0 && output[..] == old(output[..])
      ensures readSize > 0 && flag_ != WriteOnly ==>
        var start := if position < 0 then 0 else if position < size_ then position else size_;
        && length == Fits(readSize, start, size_)
        && output[..length] == ReadAt(Contents(), start, readSize)
        && output[length..] == old(output[length..])
    {
      if readSize <= 0 || flag_ == WriteOnly {
        return 0;
      }
      ghost var used := Contents();
      var start := 0;
      var maxLength := size_;
      if position > -1 {
        start := if position < size_ then position else size_;
        maxLength := size_ - start;
      }
      length := if readSize < maxLength then readSize else maxLength;
      for i := 0 to length
        invariant forall k :: 0 <= k < output.Length ==>
          output[k] == if k < i then used[start + k] else old(output[k])
      {
        output[i] := base_[start + i];
      }
      assert output[..length] == used[start..start + length];
    }
  }

  // ---------- The log that appending writes keep ----------

  /** One append to a log that holds at most `capacity` bytes. */
  function Append(log: seq<Byte>, chunk: seq<Byte>, capacity: nat): seq<Byte>
    requires |log| <= capacity
  {
    log + chunk[..Fits(|chunk|, |log|, capacity)]
  }

  function Logged(log: seq<Byte>, chunks: seq<seq<Byte>>, capacity: nat): (r: seq<Byte>)
    requires |log| <= capacity
    ensures |log| <= |r| <= capacity
  {
    if chunks == [] then log
    else Append(Logged(log, chunks[..|chunks| - 1], capacity), chunks[|chunks| - 1], capacity)
  }

  function Flatten(chunks: seq<seq<Byte>>): seq<Byte> {
    if chunks == [] then [] else Flatten(chunks[..|chunks| - 1]) + chunks[|chunks| - 1]
  }

  /** Appending any chunks leaves exactly the first `capacity` bytes of their concatenation. */
  lemma {:induction false} AppendsKeepPrefix(log: seq<Byte>, chunks: seq<seq<Byte>>, capacity: nat)
    requires |log| <= capacity
    ensures var all := log + Flatten(chunks);
            Logged(log, chunks, capacity) == if |all| <= capacity then all else all[..capacity]
  {
    if chunks == [] {
      assert log + Flatten(chunks) == log;
    } else {
      var front, last := chunks[..|chunks| - 1], chunks[|chunks| - 1];
      AppendsKeepPrefix(log, front, capacity);
      var all := log + Flatten(front);
      assert log + Flatten(chunks) == all + last;
      if |all| <= capacity {
        var n := Fits(|last|, |all|, capacity);
        assert all + last[..n] == if |all + last| <= capacity then all + last else (all + last)[..capacity];
      } else {
        assert last[..0] == [];
        assert (all + last)[..capacity] == all[..capacity];
      }
    }
  }

  /** The sum of what the appending writes return. */
  function Returned(log: seq<Byte>, chunks: seq<seq<Byte>>, capacity: nat): int
    requires |log| <= capacity
  {
    if chunks == [] then 0
    else
      var front := chunks[..|chunks| - 1];
      Returned(log, front, capacity) + Fits(|chunks[|chunks| - 1]|, |Logged(log, front, capacity)|, capacity)
  }

  /** The returned lengths add up to what the log has gained. */
  lemma {:induction false} ReturnsAddUp(log: seq<Byte>, chunks: seq<seq<Byte>>, capacity: nat)
    requires |log| <= capacity
    ensures |Logged(log, chunks, capacity)| == |log| + Returned(log, chunks, capacity)
  {
    if chunks != [] {
      ReturnsAddUp(log, chunks[..|chunks| - 1], capacity);
    }
  }

  /** What a positional read of `n` bytes yields. */
  function ReadAt(contents: seq<Byte>, start: nat, n: nat): seq<Byte>
    requires start <= |contents|
  {
    contents[start..start + Fits(n, start, |contents|)]
  }

  /** Reads of `step` bytes each, every one starting where the last ended, until nothing is left. */
  function ReadOn(contents: seq<Byte>, start: nat, step: nat): seq<Byte>
    requires start <= |contents| && step > 0
    decreases |contents| - start
  {
    var piece := ReadAt(contents, start, step);
    if piece == [] then [] else piece + ReadOn(contents, start + |piece|, step)
  }

  /** Positional reads in pieces of any size put the contents together again. */
  lemma {:induction false} PiecesReassemble(contents: seq<Byte>, start: nat, step: nat)
    requires start <= |contents| && step > 0
    ensures ReadOn(contents, start, step) == contents[start..]
    decreases |contents| - start
  {
    var piece := ReadAt(contents, start, step);
    var next := start + |piece|;
    assert piece == contents[start..next] && (piece == [] ==> start == |contents|);
    if piece != [] {
      PiecesReassemble(contents, next, step);
      hide ReadAt;
      assert contents[start..] == contents[start..next] + contents[next..];
    }
  }
}
