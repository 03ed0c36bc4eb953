/** When each section does its work, when it refuses, and with which status. A refusal leaves the queue as it was. */
module BufferQueueProgress {
  import opened AVBufferCommon
  import opened Sequences
  import opened BufferQueueSpec
  import opened BufferQueueInvariant
  import opened BufferQueueProperties

  // ---------- Requests ----------

  /** The request names a memory type, and no other type has been fixed. */
  predicate TypeFits(q: Queue, config: Config) {
    config.memoryType != UnknownMemory && (q.memoryType == UnknownMemory || q.memoryType == config.memoryType)
  }

  /** A buffer can be made for the request. */
  predicate Creatable(config: Config, newId: Option<Id>) {
    config.memoryType != UnknownMemory && (0 <= config.size || 0 <= config.capacity) && 0 <= config.align && newId.Some?
  }

  /** A free buffer serves the request, or one may be made: in place of a free one, or below the queue size. */
  ghost predicate Servable(q: Queue, config: Config, newId: Option<Id>)
    requires Inv(q)
  {
    || (exists x :: x in q.free && Serves(q, x, config))
    || ((q.free != [] || |q.cached| < q.size) && Creatable(config, newId))
  }

  lemma TakeFreeServes(q: Queue, config: Config, newId: Option<Id>)
    requires Inv(q) && q.free != []
    ensures TakeFree(q, config, newId).status == if Servable(q, config, newId) then OK else CreateBufferFailed
  {
    FirstFitIsBestFit(q, config);
    assert q.free[PopIndex(q, config)] in q.free;
  }

  /** A request is served at once, waits, or is refused, each exactly when it should. */
  lemma RequestBeginServedIff(q: Queue, config: Config, newId: Option<Id>)
    requires Inv(q)
    ensures var r := RequestBegin(q, config, newId);
            && (r.status == OK <==> TypeFits(q, config) && Servable(q, config, newId))
            && (r.status == UnexpectedMemoryType <==> !TypeFits(q, config))
            && (r.status == MustWait <==> TypeFits(q, config) && q.free == [] && |q.cached| >= q.size)
            && (r.status in {OK, UnexpectedMemoryType, MustWait, CreateBufferFailed})
            && (r.status == UnexpectedMemoryType ==> r.queue == q)
            && (r.status == MustWait ==> r.queue == q.(memoryType := config.memoryType))
  {
    var q1 := q.(memoryType := config.memoryType);
    if q.free != [] { TakeFreeServes(q1, config, newId); }
    assert Servable(q1, config, newId) <==> Servable(q, config, newId);
  }

  lemma RequestResumeServedIff(q: Queue, config: Config, newId: Option<Id>)
    requires Inv(q)
    ensures var r := RequestResume(q, config, newId);
            && (r.status == OK <==> Servable(q, config, newId))
            && (r.status == NoFreeBuffer <==> q.free == [] && |q.cached| >= q.size)
            && (r.status in {OK, NoFreeBuffer, CreateBufferFailed})
            && (r.status == NoFreeBuffer ==> r.queue == q)
  {
    if q.free != [] { TakeFreeServes(q, config, newId); }
  }

  /** A new queue of size 1 serves its first request, and lets the second one wait. */
  lemma FirstRequestIsServed(config: Config)
    requires config.memoryType == VirtualMemory && config.size == 16 && config.align == 0
    ensures var q0 := Queue(1, UnknownMemory, map[], [], []);
            var r := RequestBegin(q0, config, Some(7));
            Inv(q0) && r.status == OK && r.buffer == Some(AVBuffer(7)) && Inv(r.queue) &&
            RequestBegin(r.queue, config, Some(8)).status == MustWait
  {
    var q0 := Queue(1, UnknownMemory, map[], [], []);
    RequestKeepsInv(q0, config, Some(7));
    RequestBeginServedIff(q0, config, Some(7));
    RequestBeginServedIff(RequestBegin(q0, config, Some(7)).queue, config, Some(8));
  }

  // ---------- Push, return, acquire, release, detach ----------

  lemma PushSucceedsIff(q: Queue, id: Id, available: bool, seen: Config)
    requires Inv(q)
    ensures var r := Push(q, id, available, seen);
            && (r.status == OK <==>
                  id in q.cached && (q.cached[id].isDeleting ||
                                     (q.cached[id].state in {Requested, BufferState.Attached} && (available ==> 0 <= seen.size))))
            && (r.status == OK ==> if q.cached[id].isDeleting then id !in r.queue.cached
                                   else id in r.queue.cached && r.queue.cached[id].state == Pushed)
            && (r.status == InvalidBufferId <==> id !in q.cached)
            && (r.status == InvalidBufferSize <==> id in q.cached && !q.cached[id].isDeleting && available && seen.size < 0)
            && (r.status in {OK, InvalidBufferId, InvalidBufferSize, InvalidBufferState})
            && (r.status != OK ==> r.queue == q)
  {
  }

  lemma ReturnSucceedsIff(q: Queue, id: Id, available: bool, seen: Config, eos: bool)
    requires Inv(q)
    ensures var r := Return(q, id, available, seen, eos);
            && (r.status == OK <==>
                  id in q.cached && (q.cached[id].isDeleting ||
                                     (q.cached[id].state == Pushed && (available ==> eos || 0 < seen.size))))
            && (r.status == OK ==> if q.cached[id].isDeleting then id !in r.queue.cached
                                   else if available then r.queue.dirty == q.dirty + [id]
                                   else id in r.queue.free && |r.queue.free| == |q.free| + 1 && r.queue.dirty == q.dirty)
            && (r.status == InvalidBufferId <==> id !in q.cached)
            && (r.status == InvalidBufferSize <==>
                  id in q.cached && !q.cached[id].isDeleting && q.cached[id].state == Pushed &&
                  available && !eos && seen.size <= 0)
            && (r.status in {OK, InvalidBufferId, InvalidBufferSize, InvalidBufferState})
            && (r.status != OK ==> r.queue == q)
  {
  }

  lemma AcquireSucceedsIff(q: Queue)
    requires Inv(q)
    ensures var r := Acquire(q);
            && (r.status == OK <==> exists x :: x in q.cached && q.cached[x].state == Returned)
            && (r.status == OK ==>
                  && q.dirty == [r.buffer.Extract().uid] + r.queue.dirty
                  && r.queue.cached.Keys == q.cached.Keys
                  && r.queue.cached[r.buffer.Extract().uid].state == BufferState.Acquired)
            && (r.status != OK ==> r.status == NoDirtyBuffer && r.queue == q)
  {
    assert q.dirty != [] ==> q.dirty[0] in q.dirty;
  }

  lemma ReleaseSucceedsIff(q: Queue, id: Id)
    requires Inv(q)
    ensures var r := Release(q, id);
            && (r.status == OK <==> id in q.cached && q.cached[id].state in {BufferState.Acquired, BufferState.Attached})
            && (r.status == OK ==> if q.cached[id].isDeleting then id !in r.queue.cached
                                   else id in r.queue.free && |r.queue.free| == |q.free| + 1 && r.queue.dirty == q.dirty)
            && (r.status == InvalidBufferId <==> id !in q.cached)
            && (r.status in {OK, InvalidBufferId, InvalidBufferState})
            && (r.status != OK ==> r.queue == q)
  {
  }

  lemma DetachSucceedsIff(q: Queue, id: Id)
    requires Inv(q)
    ensures var r := Detach(q, id, false);
            && (r.status == OK <==> id in q.cached && q.cached[id].state in {Requested, BufferState.Acquired})
            && (r.status == OK ==> r.queue.cached.Keys == q.cached.Keys - {id})
            && (r.status == InvalidBufferId <==> id !in q.cached)
            && (r.status in {OK, InvalidBufferId, InvalidBufferState})
            && (r.status != OK ==> r.queue == q)
  {
  }

  /** An attach is admitted below the queue size, or when the queued buffers suffice to make room for one more. */
  lemma AttachSucceedsIff(q: Queue, id: Id, seen: Config)
    requires Inv(q)
    ensures var r := Attach(q, id, seen);
            && (r.status == OK <==>
                  && id !in q.cached && TypeFits(q, seen)
                  && (|q.cached| < q.size || |q.cached| - |q.free| - |q.dirty| < q.size))
            && (r.status == InvalidBufferId <==> id in q.cached)
            && (r.status == UnexpectedMemoryType <==> id !in q.cached && !TypeFits(q, seen))
            && (r.status in {OK, InvalidBufferId, UnexpectedMemoryType, OutOfRange})
            && (r.status == OK ==> id in r.queue.cached &&
                                   r.queue.cached[id] == Element(seen, BufferState.Attached, false, AVBuffer(id)))
            && (r.status in {InvalidBufferId, UnexpectedMemoryType} ==> r.queue == q)
            && (r.status == OutOfRange ==> r.queue == q.(memoryType := seen.memoryType))
  {
    hide Delete, Inv;
  }

  /**
   * A requested buffer goes round: pushed with data, it is returned, acquired behind nothing else, released, and free
   * again with the configuration it was returned with.
   */
  lemma BufferGoesRound(q: Queue, id: Id, seen: Config, eos: bool)
    requires Inv(q) && id in q.cached && q.cached[id].state == Requested && !q.cached[id].isDeleting
    requires q.dirty == [] && 0 < seen.size
    ensures var pushed := Push(q, id, true, seen);
            pushed.status == OK && Inv(pushed.queue) &&
            var returned := Return(pushed.queue, id, true, seen, eos);
            returned.status == OK && Inv(returned.queue) &&
            var acquired := Acquire(returned.queue);
            acquired.status == OK && acquired.buffer == Some(AVBuffer(id)) && Inv(acquired.queue) &&
            var released := Release(acquired.queue, id);
            released.status == OK && id in released.queue.free && released.queue.cached[id].config == seen
  {
    PushKeepsInv(q, id, true, seen);
    var q1 := Push(q, id, true, seen).queue;
    ReturnKeepsInv(q1, id, true, seen, eos);
    var q2 := Return(q1, id, true, seen, eos).queue;
    AcquireKeepsInv(q2);
    assert q2.dirty == [id];
    var q3 := Acquire(q2).queue;
    assert q3.cached[id] == Element(seen, BufferState.Acquired, false, AVBuffer(id));
    ReleaseKeepsInv(q3, id);
    ReleaseSucceedsIff(q3, id);
  }

  // ---------- The memory type ----------

  /** A fixed memory type never changes; an accepted request or attach fixes its own. */
  lemma StepKeepsType(q: Queue, op: Op)
    requires Inv(q) && Enabled(q, op)
    ensures var r := Step(q, op);
            && (q.memoryType != UnknownMemory ==> r.queue.memoryType == q.memoryType)
            && (op.OpRequestBegin? && r.status != UnexpectedMemoryType ==>
                  r.queue.memoryType == op.config.memoryType != UnknownMemory)
            && (op.OpAttach? && r.status !in {UnexpectedMemoryType, InvalidBufferId} ==>
                  r.queue.memoryType == op.seen.memoryType != UnknownMemory)
  {
    hide Delete, Lowest, Mark;
    match op
    case OpAttach(id, seen) => AttachType(q, id, seen);
    case OpShrink(n) => DeleteKeepsType(q, Deficit(q.size, n));
    case _ =>
  }

  lemma DeleteKeepsType(q: Queue, count: nat)
    ensures Delete(q, count).memoryType == q.memoryType && Delete(q, count).size == q.size
  {
  }

  lemma AttachType(q: Queue, id: Id, seen: Config)
    ensures var r := Attach(q, id, seen);
            r.queue.memoryType == if r.status in {UnexpectedMemoryType, InvalidBufferId} then q.memoryType else seen.memoryType
    ensures TypeFits(q, seen) || Attach(q, id, seen).status in {UnexpectedMemoryType, InvalidBufferId}
  {
    if |q.cached| >= q.size {
      DeleteKeepsType(q.(memoryType := seen.memoryType), |q.cached| - q.size + 1);
    }
    hide Delete;
  }

  lemma {:induction false} RunKeepsType(q: Queue, ops: seq<Op>)
    requires Inv(q) && Executable(q, ops)
    ensures q.memoryType != UnknownMemory ==> After(q, ops).memoryType == q.memoryType
    decreases |ops|
  {
    if ops != [] {
      StepKeepsInv(q, ops[0]);
      StepKeepsType(q, ops[0]);
      RunKeepsType(Step(q, ops[0]).queue, ops[1..]);
    }
  }

  // ---------- The order of a deletion ----------

  lemma {:induction false} LowestAreLowest(ids: set<Id>, n: nat, x: Id, y: Id)
    requires x in Lowest(ids, n) && y in ids && y < x
    ensures y in Lowest(ids, n)
    decreases n
  {
    var m := Least(ids);
    if y != m {
      LowestAreLowest(ids - {m}, n - 1, x, y);
    }
  }

  /**
   * A deletion takes the smallest free buffers first, the longest queued dirty ones only when no free one is left,
   * and marks, lowest ids first, only when both lists are empty.
   */
  lemma DeletionOrder(q: Queue, count: nat)
    requires Inv(q)
    ensures var q' := Delete(q, count);
            && (exists k :: 0 <= k <= |q.free| && q'.free == q.free[k..])
            && (exists k :: 0 <= k <= |q.dirty| && q'.dirty == q.dirty[k..])
            && (q'.dirty != q.dirty ==> q'.free == [])
            && (q'.free != [] ==> |q.free| - |q'.free| == count)
            && (forall id | id in q'.cached && q'.cached[id].isDeleting && !q.cached[id].isDeleting ::
                  && q'.free == [] && q'.dirty == []
                  && forall y | y in q'.cached && y < id :: q'.cached[y].isDeleting)
  {
    var q' := Delete(q, count);
    var kept := q.cached - DroppedIds(q, count);
    assert q'.free == q.free[FreeDrops(q, count)..] && q'.dirty == q.dirty[DirtyDrops(q, count)..];
    if q'.dirty != q.dirty {
      assert DirtyDrops(q, count) > 0;
    }
    forall id, y | id in q'.cached && q'.cached[id].isDeleting && !q.cached[id].isDeleting && y in q'.cached && y < id
      ensures q'.cached[y].isDeleting
    {
      LowestAreLowest(kept.Keys, Marks(q, count), id, y);
    }
    forall id | id in q'.cached && q'.cached[id].isDeleting && !q.cached[id].isDeleting
      ensures q'.free == [] && q'.dirty == []
    {
      assert Marks(q, count) > 0;
    }
  }
}
