/**
 * The buffer queue as a value, one function per mutex-held section, and what every section keeps.
 * Identifiers of freshly created buffers and the configuration a shared buffer shows
 * at the moment it is inspected are inputs.
 */
module BufferQueueSpec {
  import opened AVBufferCommon
  import opened Sequences

  type Id = nat

  const MAX_QUEUE_SIZE: nat := 32
  const TWO_32: nat := 0x1_0000_0000

  datatype BufferState = Released | Requested | Pushed | Returned | Acquired | Attached

  datatype Status =
    | OK
    | InvalidBufferSize
    | InvalidBufferId
    | InvalidBufferState
    | NoFreeBuffer
    | NoDirtyBuffer
    | CreateBufferFailed
    | UnexpectedMemoryType
    | OutOfRange
    | NoConsumerListener
    | MustWait  // the section ended in the condition wait, not a status of the interface

  datatype AVBuffer = AVBuffer(uid: Id)

  datatype Element = Element(config: Config, state: BufferState, isDeleting: bool, buffer: AVBuffer)

  type BufferMap = map<Id, Element>

  datatype Queue = Queue(size: nat, memoryType: MemoryType, cached: BufferMap, free: seq<Id>, dirty: seq<Id>)

  /** What a section hands back: its status, the buffer it yields, and the queue it leaves. */
  datatype Outcome = Outcome(status: Status, buffer: Option<AVBuffer>, queue: Queue)

  // ---------- The invariant ----------

  /** `ids` lists, once each, exactly the cached ids in state `st`. */
  ghost predicate ListsState(cached: BufferMap, ids: seq<Id>, st: BufferState) {
    && NoDuplicates(ids)
    && forall id :: id in ids <==> id in cached && cached[id].state == st
  }

  /** Capacities do not decrease along the list. */
  ghost predicate SortedByCapacity(cached: BufferMap, ids: seq<Id>) {
    forall i, j :: 0 <= i < j < |ids| && ids[i] in cached && ids[j] in cached ==>
      cached[ids[i]].config.capacity <= cached[ids[j]].config.capacity
  }

  /** The map and the two lists tell the same story about every buffer. */
  ghost predicate Agree(cached: BufferMap, free: seq<Id>, dirty: seq<Id>) {
    && ListsState(cached, free, Released)
    && ListsState(cached, dirty, Returned)
    && SortedByCapacity(cached, free)
    && (forall id | id in cached :: cached[id].buffer.uid == id)
    && (forall id | id in cached && cached[id].isDeleting :: cached[id].state !in {Released, Returned})
  }

  ghost predicate Inv(q: Queue) {
    Agree(q.cached, q.free, q.dirty)
  }

  // ---------- The sections ----------

  /** Index of the first free buffer that can serve the request, or the length of the list. */
  function FirstFit(cached: BufferMap, free: seq<Id>, request: Config): (i: nat)
    requires forall id | id in free :: id in cached
    ensures i <= |free|
    ensures forall j :: 0 <= j < i ==> !FitsIn(request, cached[free[j]].config)
    ensures i < |free| ==> FitsIn(request, cached[free[i]].config)
  {
    if free == [] || FitsIn(request, cached[free[0]].config) then 0
    else 1 + FirstFit(cached, free[1..], request)
  }

  /** Index of the free buffer to take: the first that fits, else the head. */
  function PopIndex(q: Queue, request: Config): (i: nat)
    requires q.free != [] && forall id | id in q.free :: id in q.cached
    ensures i < |q.free|
  {
    var i := FirstFit(q.cached, q.free, request);
    if i < |q.free| then i else 0
  }

  /** Index before which an id of the given capacity is inserted. */
  function InsertPos(cached: BufferMap, free: seq<Id>, id: Id): (i: nat)
    requires id in cached && forall x | x in free :: x in cached
    ensures i <= |free|
    ensures forall j :: 0 <= j < i ==>
      free[j] == id || cached[free[j]].config.capacity < cached[id].config.capacity
    ensures i < |free| ==> free[i] != id && cached[id].config.capacity <= cached[free[i]].config.capacity
  {
    if free == [] || (free[0] != id && cached[id].config.capacity <= cached[free[0]].config.capacity) then 0
    else 1 + InsertPos(cached, free[1..], id)
  }

  function InsertInOrder(cached: BufferMap, free: seq<Id>, id: Id): seq<Id>
    requires id in cached && forall x | x in free :: x in cached
  {
    var i := InsertPos(cached, free, id);
    free[..i] + [id] + free[i..]
  }

  function SetState(cached: BufferMap, id: Id, st: BufferState): BufferMap
    requires id in cached
  {
    cached[id := cached[id].(state := st)]
  }

  /** Create and cache a buffer; `newId` is its id, or None when allocation fails. */
  function Alloc(q: Queue, config: Config, newId: Option<Id>): Outcome {
    var c := CreatedConfig(config);
    if c.None? || newId.None? then Outcome(CreateBufferFailed, None, q)
    else
      var b := AVBuffer(newId.value);
      Outcome(OK, Some(b), q.(cached := q.cached[newId.value := Element(c.value, Requested, false, b)]))
  }

  /** Hand out the popped buffer `id`, reallocating it when it cannot serve the request. */
  function Reuse(q: Queue, id: Id, config: Config, newId: Option<Id>): Outcome
    requires id in q.cached
  {
    var e := q.cached[id];
    if FitsIn(config, e.config) then
      var e' := e.(config := e.config.(size := config.size), state := Requested);
      Outcome(OK, Some(e.buffer), q.(cached := q.cached[id := e']))
    else
      Alloc(q.(cached := q.cached - {id}), config, newId)
  }

  function TakeFree(q: Queue, config: Config, newId: Option<Id>): Outcome
    requires q.free != [] && forall id | id in q.free :: id in q.cached
  {
    var i := PopIndex(q, config);
    Reuse(q.(free := RemoveAt(q.free, i)), q.free[i], config, newId)
  }

  predicate ConfigAccepted(q: Queue, config: Config) {
    config.memoryType != UnknownMemory && (q.memoryType == UnknownMemory || config.memoryType == q.memoryType)
  }

  /** A request up to the condition wait. */
  function RequestBegin(q: Queue, config: Config, newId: Option<Id>): Outcome
    requires forall id | id in q.free :: id in q.cached
  {
    if !ConfigAccepted(q, config) then Outcome(UnexpectedMemoryType, None, q)
    else
      var q1 := q.(memoryType := config.memoryType);
      if q1.free != [] then TakeFree(q1, config, newId)
      else if |q1.cached| >= q1.size then Outcome(MustWait, None, q1)
      else Alloc(q1, config, newId)
  }

  /** A request woken from the condition wait, whatever woke it. */
  function RequestResume(q: Queue, config: Config, newId: Option<Id>): Outcome
    requires forall id | id in q.free :: id in q.cached
  {
    if q.free != [] then TakeFree(q, config, newId)
    else if |q.cached| >= q.size then Outcome(NoFreeBuffer, None, q)
    else Alloc(q, config, newId)
  }

  /** `seen` is the configuration the buffer itself shows at this moment. */
  function Push(q: Queue, id: Id, available: bool, seen: Config): Outcome {
    if id !in q.cached then Outcome(InvalidBufferId, None, q)
    else
      var e := q.cached[id];
      if e.isDeleting then Outcome(OK, None, q.(cached := q.cached - {id}))
      else if available && seen.size < 0 then Outcome(InvalidBufferSize, None, q)
      else if e.state !in {Requested, Attached} then Outcome(InvalidBufferState, None, q)
      else Outcome(OK, Some(e.buffer), q.(cached := SetState(q.cached, id, Pushed)))
  }

  /** `eos` tells whether the buffer carries the end-of-stream flag. */
  function Return(q: Queue, id: Id, available: bool, seen: Config, eos: bool): Outcome
    requires forall x | x in q.free :: x in q.cached
  {
    if id !in q.cached then Outcome(InvalidBufferId, None, q)
    else
      var e := q.cached[id];
      if e.isDeleting then Outcome(OK, None, q.(cached := q.cached - {id}))
      else if e.state != Pushed then Outcome(InvalidBufferState, None, q)
      else if !available then
        Outcome(OK, Some(e.buffer), q.(free := InsertInOrder(q.cached, q.free, id),
                                       cached := SetState(q.cached, id, Released)))
      else if !eos && seen.size <= 0 then Outcome(InvalidBufferSize, None, q)
      else
        Outcome(OK, Some(e.buffer), q.(cached := q.cached[id := e.(config := seen, state := Returned)],
                                       dirty := q.dirty + [id]))
  }

  function Acquire(q: Queue): Outcome
    requires forall id | id in q.dirty :: id in q.cached
  {
    if q.dirty == [] then Outcome(NoDirtyBuffer, None, q)
    else
      var id := q.dirty[0];
      Outcome(OK, Some(q.cached[id].buffer),
              q.(cached := SetState(q.cached, id, Acquired), dirty := q.dirty[1..]))
  }

  function Release(q: Queue, id: Id): Outcome
    requires forall x | x in q.free :: x in q.cached
  {
    if id !in q.cached then Outcome(InvalidBufferId, None, q)
    else
      var e := q.cached[id];
      if e.state !in {Acquired, Attached} then Outcome(InvalidBufferState, None, q)
      else if e.isDeleting then Outcome(OK, None, q.(cached := q.cached - {id}))
      else
        Outcome(OK, Some(e.buffer), q.(free := InsertInOrder(q.cached, q.free, id),
                                       cached := SetState(q.cached, id, Released)))
  }

  function Detach(q: Queue, id: Id, force: bool): Outcome {
    if id !in q.cached then Outcome(InvalidBufferId, None, q)
    else if !force && q.cached[id].state !in {Requested, Acquired} then Outcome(InvalidBufferState, None, q)
    else Outcome(OK, None, q.(cached := q.cached - {id}))
  }

  // Deletion of `count` buffers: the free list first, then the dirty list, then marks in ascending id order.

  function Min(a: nat, b: nat): nat {
    if a < b then a else b
  }

  function FreeDrops(q: Queue, count: nat): nat { Min(count, |q.free|) }

  function DirtyDrops(q: Queue, count: nat): nat { Min(count - FreeDrops(q, count), |q.dirty|) }

  function Marks(q: Queue, count: nat): nat { count - FreeDrops(q, count) - DirtyDrops(q, count) }

  ghost function DroppedIds(q: Queue, count: nat): set<Id> {
    ToSet(q.free[..FreeDrops(q, count)]) + ToSet(q.dirty[..DirtyDrops(q, count)])
  }

  lemma {:induction false} LeastExists(ids: set<Id>)
    requires ids != {}
    ensures exists m :: m in ids && forall x | x in ids :: m <= x
    decreases |ids|
  {
    var y :| y in ids;
    if exists x :: x in ids && x < y {
      var below := set x | x in ids && x < y;
      var z :| z in ids && z < y;
      assert z in below;
      assert |below| < |ids| by {
        SubsetSize(below, ids);
        assert y !in below;
      }
      LeastExists(below);
      var m :| m in below && forall x | x in below :: m <= x;
      assert m in ids;
      forall x | x in ids
        ensures m <= x
      {
        if x < y { assert x in below; }
      }
    }
  }

  ghost function Least(ids: set<Id>): (m: Id)
    requires ids != {}
    ensures m in ids && forall x | x in ids :: m <= x
  {
    LeastExists(ids);
    var m :| m in ids && forall x | x in ids :: m <= x;
    m
  }

  /** The `n` smallest ids, or all of them. */
  ghost function Lowest(ids: set<Id>, n: nat): set<Id>
    decreases n
  {
    if n == 0 || ids == {} then {}
    else
      var m := Least(ids);
      {m} + Lowest(ids - {m}, n - 1)
  }

  lemma {:induction false} LowestSize(ids: set<Id>, n: nat)
    ensures Lowest(ids, n) <= ids && |Lowest(ids, n)| == Min(n, |ids|)
    decreases n
  {
    if n > 0 && ids != {} {
      LowestSize(ids - {Least(ids)}, n - 1);
    }
  }

  ghost function Mark(cached: BufferMap, ids: set<Id>): BufferMap {
    map id | id in cached :: if id in ids then cached[id].(isDeleting := true) else cached[id]
  }

  ghost function Delete(q: Queue, count: nat): Queue {
    var kept := q.cached - DroppedIds(q, count);
    q.(cached := Mark(kept, Lowest(kept.Keys, Marks(q, count))),
       free := q.free[FreeDrops(q, count)..],
       dirty := q.dirty[DirtyDrops(q, count)..])
  }

  /** The mutex-held part of an attach; `config` is the buffer's own configuration. */
  ghost function Attach(q: Queue, id: Id, config: Config): Outcome {
    if id in q.cached then Outcome(InvalidBufferId, None, q)
    else if !ConfigAccepted(q, config) then Outcome(UnexpectedMemoryType, None, q)
    else
      var b := AVBuffer(id);
      var e := Element(config, BufferState.Attached, false, b);
      var q1 := q.(memoryType := config.memoryType);
      if |q1.cached| < q1.size then Outcome(OK, Some(b), q1.(cached := q1.cached[id := e]))
      else
        var excess := |q1.cached| - q1.size;
        if |q1.dirty| + |q1.free| <= excess then Outcome(OutOfRange, None, q1)
        else
          var q2 := Delete(q1, excess + 1);
          Outcome(OK, Some(b), q2.(cached := q2.cached[id := e]))
  }

  function Deficit(size: nat, n: nat): nat {
    (size - n) % TWO_32
  }

  /** The mutex-held part of a shrink. The difference is a 32-bit unsigned one: other resizes may have come between. */
  ghost function Shrink(q: Queue, n: nat): Queue {
    Delete(q, Deficit(q.size, n)).(size := n)
  }

  // ---------- Steps and runs ----------

  datatype Op =
    | OpRequestBegin(config: Config, newId: Option<Id>)
    | OpRequestResume(config: Config, newId: Option<Id>)
    | OpPush(id: Id, available: bool, seen: Config)
    | OpReturn(id: Id, available: bool, seen: Config, eos: bool)
    | OpAttach(id: Id, seen: Config)
    | OpForceDetach(id: Id)
    | OpDetach(id: Id)
    | OpAcquire
    | OpRelease(id: Id)
    | OpGrow(n: nat)
    | OpShrink(n: nat)

  /** Fresh ids are newId, sizes are in range, and a forced detach meets an id that is queued nowhere. */
  ghost predicate Enabled(q: Queue, op: Op) {
    match op
    case OpRequestBegin(_, newId) => newId.Some? ==> newId.value !in q.cached
    case OpRequestResume(_, newId) => newId.Some? ==> newId.value !in q.cached
    case OpForceDetach(id) => id !in q.free && id !in q.dirty
    case OpGrow(n) => 0 < n <= MAX_QUEUE_SIZE
    case OpShrink(n) => 0 < n <= MAX_QUEUE_SIZE
    case _ => true
  }

  ghost function Step(q: Queue, op: Op): Outcome
    requires Inv(q)
  {
    match op
    case OpRequestBegin(config, newId) => RequestBegin(q, config, newId)
    case OpRequestResume(config, newId) => RequestResume(q, config, newId)
    case OpPush(id, available, seen) => Push(q, id, available, seen)
    case OpReturn(id, available, seen, eos) => Return(q, id, available, seen, eos)
    case OpAttach(id, seen) => Attach(q, id, seen)
    case OpForceDetach(id) => Detach(q, id, true)
    case OpDetach(id) => Detach(q, id, false)
    case OpAcquire => Acquire(q)
    case OpRelease(id) => Release(q, id)
    case OpGrow(n) => Outcome(OK, None, q.(size := n))
    case OpShrink(n) => Outcome(OK, None, Shrink(q, n))
  }
}
