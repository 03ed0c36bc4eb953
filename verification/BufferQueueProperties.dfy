/** What clients of the queue rely on: best fit, capacity, lazy deletion and first-in first-out order. */
module BufferQueueProperties {
  import opened AVBufferCommon
  import opened Sequences
  import opened BufferQueueSpec
  import opened BufferQueueInvariant

  // ---------- Requests ----------

  function CapacityOf(q: Queue, id: Id): int
    requires id in q.cached
  {
    q.cached[id].config.capacity
  }

  predicate Serves(q: Queue, id: Id, config: Config)
    requires id in q.cached
  {
    FitsIn(config, q.cached[id].config)
  }

  /** Because the list is sorted by capacity, first fit is best fit, and the fallback is the smallest buffer. */
  lemma FirstFitIsBestFit(q: Queue, config: Config)
    requires Inv(q) && q.free != []
    ensures var id := q.free[PopIndex(q, config)];
            if exists x :: x in q.free && Serves(q, x, config) then
              Serves(q, id, config) && forall x | x in q.free && Serves(q, x, config) :: CapacityOf(q, id) <= CapacityOf(q, x)
            else
              forall x | x in q.free :: CapacityOf(q, id) <= CapacityOf(q, x)
  {
    var i := FirstFit(q.cached, q.free, config);
    forall x | x in q.free && Serves(q, x, config)
      ensures i < |q.free| && CapacityOf(q, q.free[i]) <= CapacityOf(q, x)
    {
      var k :| 0 <= k < |q.free| && q.free[k] == x;
    }
    forall x | x in q.free
      ensures CapacityOf(q, q.free[0]) <= CapacityOf(q, x)
    {
      var k :| 0 <= k < |q.free| && q.free[k] == x;
    }
  }

  /** What a caller may rely on after a request that reports OK. */
  ghost predicate Handed(config: Config, r: Outcome) {
    && r.buffer.Some?
    && var id := r.buffer.value.uid;
       && id in r.queue.cached && id !in r.queue.free && id !in r.queue.dirty
       && r.queue.cached[id].state == Requested && !r.queue.cached[id].isDeleting
       && r.queue.cached[id].buffer == r.buffer.value
       && FitsIn(config, r.queue.cached[id].config)
  }

  /** The ids cached after a request that found the free list non-empty. */
  ghost predicate ReusePolicy(q: Queue, config: Config, newId: Option<Id>, r: Outcome)
    requires Inv(q) && q.free != []
  {
    var id := q.free[PopIndex(q, config)];
    if Serves(q, id, config) then
      r.status == OK && r.buffer == Some(AVBuffer(id)) && r.queue.cached.Keys == q.cached.Keys
    else if r.status == OK then
      newId.Some? && r.buffer == Some(AVBuffer(newId.value)) && r.queue.cached.Keys == q.cached.Keys - {id} + {newId.value}
    else
      r.status == CreateBufferFailed && r.queue.cached.Keys == q.cached.Keys - {id}
  }

  lemma TakeFreeHands(q: Queue, config: Config, newId: Option<Id>)
    requires Inv(q) && q.free != [] && (newId.Some? ==> newId.value !in q.cached)
    ensures var r := TakeFree(q, config, newId);
            (r.status == OK ==> Handed(config, r)) && ReusePolicy(q, config, newId, r)
  {
    var i := PopIndex(q, config);
    TakeOut(q, i);
    if CreatedConfig(config).Some? {
      CreatedServesRequest(config);
    }
  }

  /**
   * Every request that reports OK hands out a buffer in state Requested, queued nowhere, whose configuration
   * serves the request; with free buffers about, it follows the reuse policy.
   */
  lemma RequestHands(q: Queue, config: Config, newId: Option<Id>)
    requires Inv(q) && (newId.Some? ==> newId.value !in q.cached)
    ensures var r := RequestBegin(q, config, newId);
            && (r.status == OK ==> Handed(config, r))
            && (q.free != [] && r.status != UnexpectedMemoryType ==> ReusePolicy(q, config, newId, r))
    ensures var r := RequestResume(q, config, newId);
            && (r.status == OK ==> Handed(config, r))
            && (q.free != [] ==> ReusePolicy(q, config, newId, r))
  {
    var q1 := q.(memoryType := config.memoryType);
    if q.free != [] {
      TakeFreeHands(q1, config, newId);
      TakeFreeHands(q, config, newId);
    } else if CreatedConfig(config).Some? {
      CreatedServesRequest(config);
    }
  }

  // ---------- Capacity ----------

  /** How many buffers a deletion really drops from the map. */
  lemma DeleteCount(q: Queue, count: nat)
    requires Inv(q)
    ensures |Delete(q, count).cached| == |q.cached| - FreeDrops(q, count) - DirtyDrops(q, count)
  {
    DroppedCount(q, count);
    DeleteShrinksMap(q, count);
    assert |Delete(q, count).cached| == |Delete(q, count).cached.Keys|;
  }

  lemma DroppedCount(q: Queue, count: nat)
    requires Inv(q)
    ensures DroppedIds(q, count) <= q.cached.Keys
    ensures |q.cached.Keys - DroppedIds(q, count)| == |q.cached| - FreeDrops(q, count) - DirtyDrops(q, count)
  {
    var f, d := q.free[..FreeDrops(q, count)], q.dirty[..DirtyDrops(q, count)];
    SetOfDistinct(f);
    SetOfDistinct(d);
    assert ToSet(f) !! ToSet(d);
    assert |DroppedIds(q, count)| == |f| + |d|;
    SubsetSize(DroppedIds(q, count), q.cached.Keys);
  }

  lemma SwapCount(keys: set<Id>, old': Id, new': Id)
    requires old' in keys && new' !in keys
    ensures |keys - {old'} + {new'}| == |keys|
    ensures |keys - {old'}| == |keys| - 1
  {
  }

  /** A request never pushes the count above the larger of the queue size and the count before it. */
  lemma RequestCount(q: Queue, config: Config, newId: Option<Id>)
    requires Inv(q) && (newId.Some? ==> newId.value !in q.cached)
    ensures |RequestBegin(q, config, newId).queue.cached| <= Max(q.size, |q.cached|)
    ensures |RequestResume(q, config, newId).queue.cached| <= Max(q.size, |q.cached|)
  {
    var q1 := q.(memoryType := config.memoryType);
    if q.free != [] {
      TakeFreeCount(q1, config, newId);
      TakeFreeCount(q, config, newId);
    }
  }

  lemma TakeFreeCount(q: Queue, config: Config, newId: Option<Id>)
    requires Inv(q) && q.free != [] && (newId.Some? ==> newId.value !in q.cached)
    ensures |TakeFree(q, config, newId).queue.cached| <= |q.cached|
  {
    var r := TakeFree(q, config, newId);
    var id := q.free[PopIndex(q, config)];
    TakeFreeHands(q, config, newId);
    if newId.Some? {
      SwapCount(q.cached.Keys, id, newId.value);
    }
    assert |r.queue.cached| == |r.queue.cached.Keys|;
    SubsetSize(q.cached.Keys - {id}, q.cached.Keys);
  }

  lemma DeleteQueuedCount(q: Queue, count: nat)
    requires Inv(q) && count <= |q.free| + |q.dirty|
    ensures |Delete(q, count).cached| == |q.cached| - count
    ensures forall x | x in q.cached && x !in Delete(q, count).cached :: x in q.free || x in q.dirty
  {
    DeleteCount(q, count);
    DeleteShrinksMap(q, count);
  }

  lemma PutCount(cached: BufferMap, id: Id, e: Element)
    requires id !in cached
    ensures |cached[id := e]| == |cached| + 1
  {
    assert cached[id := e].Keys == cached.Keys + {id};
  }

  lemma DeleteThenPutCount(q: Queue, count: nat, id: Id, e: Element)
    requires Inv(q) && id !in q.cached && count <= |q.free| + |q.dirty|
    ensures var cached := Delete(q, count).cached[id := e];
            |cached| == |q.cached| - count + 1 && forall x | x in q.cached && x !in cached :: x in q.free || x in q.dirty
  {
    DeleteQueuedCount(q, count);
    DeleteShrinksMap(q, count);
    hide Delete, Inv;
    PutCount(Delete(q, count).cached, id, e);
  }

  lemma EvictingAttachCount(q: Queue, id: Id, e: Element)
    requires Inv(q) && id !in q.cached && q.size <= |q.cached| < q.size + |q.dirty| + |q.free|
    ensures var cached := Delete(q, |q.cached| - q.size + 1).cached[id := e];
            |cached| == q.size && forall x | x in q.cached && x !in cached :: x in q.free || x in q.dirty
  {
    hide Delete, Inv;
    DeleteThenPutCount(q, |q.cached| - q.size + 1, id, e);
  }

  /** An attach below capacity adds its buffer and evicts nothing. */
  lemma AttachBelowCapacity(q: Queue, id: Id, seen: Config)
    requires Inv(q) && Attach(q, id, seen).status == OK && |q.cached| < q.size
    ensures var q' := Attach(q, id, seen).queue;
            q'.cached.Keys == q.cached.Keys + {id} && |q'.cached| == |q.cached| + 1
  {
  }

  /** An attach admitted at or above capacity evicts only queued buffers and leaves exactly the queue size cached. */
  lemma AttachAtCapacity(q: Queue, id: Id, seen: Config)
    requires Inv(q) && Attach(q, id, seen).status == OK && |q.cached| >= q.size
    ensures var q' := Attach(q, id, seen).queue;
            |q'.cached| == q.size && forall x | x in q.cached && x !in q'.cached :: x in q.free || x in q.dirty
  {
    hide Delete;
    EvictingAttachCount(q.(memoryType := seen.memoryType), id,
                        Element(seen, BufferState.Attached, false, AVBuffer(id)));
  }

  // ---------- Lazy deletion ----------

  ghost function Unmarked(cached: BufferMap): set<Id> {
    set id | id in cached && !cached[id].isDeleting
  }

  /** Nothing but a shrink lowers the size or sets marks. */
  ghost predicate NoShrinkStep(q: Queue, op: Op) {
    !op.OpShrink? && (op.OpGrow? ==> q.size <= op.n)
  }

  ghost predicate NoShrink(q: Queue, ops: seq<Op>)
    requires Inv(q) && Executable(q, ops)
    decreases |ops|
  {
    ops == [] || (NoShrinkStep(q, ops[0]) && (StepKeepsInv(q, ops[0]); NoShrink(Step(q, ops[0]).queue, ops[1..])))
  }

  lemma TakeFreeUnmarked(q: Queue, config: Config, newId: Option<Id>)
    requires Inv(q) && q.free != [] && (newId.Some? ==> newId.value !in q.cached)
    ensures |Unmarked(TakeFree(q, config, newId).queue.cached)| <= |Unmarked(q.cached)|
  {
    var id := q.free[PopIndex(q, config)];
    var q' := TakeFree(q, config, newId).queue;
    assert id in Unmarked(q.cached);
    if Serves(q, id, config) {
      assert Unmarked(q'.cached) == Unmarked(q.cached);
    } else if newId.Some? && CreatedConfig(config).Some? {
      assert Unmarked(q'.cached) == Unmarked(q.cached) - {id} + {newId.value};
      SwapCount(Unmarked(q.cached), id, newId.value);
    } else {
      assert Unmarked(q'.cached) == Unmarked(q.cached) - {id};
    }
  }

  lemma UnmarkedAtMostCached(cached: BufferMap)
    ensures |Unmarked(cached)| <= |cached|
  {
    SubsetSize(Unmarked(cached), cached.Keys);
  }

  lemma RequestUnmarked(q: Queue, config: Config, newId: Option<Id>)
    requires Inv(q) && (newId.Some? ==> newId.value !in q.cached)
    ensures |Unmarked(RequestBegin(q, config, newId).queue.cached)| <= Max(q.size, |Unmarked(q.cached)|)
    ensures |Unmarked(RequestResume(q, config, newId).queue.cached)| <= Max(q.size, |Unmarked(q.cached)|)
  {
    var q1 := q.(memoryType := config.memoryType);
    if q.free != [] {
      TakeFreeUnmarked(q1, config, newId);
      TakeFreeUnmarked(q, config, newId);
    } else {
      UnmarkedAtMostCached(RequestBegin(q, config, newId).queue.cached);
      UnmarkedAtMostCached(RequestResume(q, config, newId).queue.cached);
    }
  }

  /** Steps that neither request, attach nor resize add no id and clear no mark. */
  lemma OtherStepsAddNothing(q: Queue, op: Op)
    requires Inv(q) && Enabled(q, op)
    requires !op.OpRequestBegin? && !op.OpRequestResume? && !op.OpAttach? && !op.OpShrink?
    ensures var q' := Step(q, op).queue;
            q'.cached.Keys <= q.cached.Keys && Unmarked(q'.cached) <= Unmarked(q.cached)
  {
  }

  lemma AttachKeepsBounds(q: Queue, id: Id, seen: Config)
    requires Inv(q)
    ensures var q' := Attach(q, id, seen).queue;
            && q'.size == q.size
            && (|q.cached| <= q.size ==> |q'.cached| <= q'.size)
            && (|Unmarked(q.cached)| <= q.size ==> |Unmarked(q'.cached)| <= q'.size)
  {
    if Attach(q, id, seen).status == OK {
      if |q.cached| < q.size { AttachBelowCapacity(q, id, seen); } else { AttachAtCapacity(q, id, seen); }
      UnmarkedAtMostCached(Attach(q, id, seen).queue.cached);
    }
  }

  /** Both bounds survive every step that is not a shrink. */
  lemma StepKeepsBounds(q: Queue, op: Op)
    requires Inv(q) && Enabled(q, op) && NoShrinkStep(q, op)
    ensures var q' := Step(q, op).queue;
            && q.size <= q'.size
            && (|q.cached| <= q.size ==> |q'.cached| <= q'.size)
            && (|Unmarked(q.cached)| <= q.size ==> |Unmarked(q'.cached)| <= q'.size)
  {
    if op.OpRequestBegin? || op.OpRequestResume? {
      RequestCount(q, op.config, op.newId);
      RequestUnmarked(q, op.config, op.newId);
    } else if op.OpAttach? {
      AttachKeepsBounds(q, op.id, op.seen);
    } else {
      OtherStepsAddNothing(q, op);
      SubsetSize(Step(q, op).queue.cached.Keys, q.cached.Keys);
      SubsetSize(Unmarked(Step(q, op).queue.cached), Unmarked(q.cached));
    }
  }

  /** Over every run without a shrink, neither the cached nor the unmarked count outgrows the queue size. */
  lemma {:induction false} RunKeepsBounds(q: Queue, ops: seq<Op>)
    requires Inv(q) && Executable(q, ops) && NoShrink(q, ops)
    ensures |q.cached| <= q.size ==> |After(q, ops).cached| <= After(q, ops).size
    ensures |Unmarked(q.cached)| <= q.size ==> |Unmarked(After(q, ops).cached)| <= After(q, ops).size
    decreases |ops|
  {
    if ops != [] {
      StepKeepsInv(q, ops[0]);
      StepKeepsBounds(q, ops[0]);
      RunKeepsBounds(Step(q, ops[0]).queue, ops[1..]);
    }
  }

  /**
   * A marked buffer is queued nowhere and keeps its mark and state through every step, until it is gone;
   * a push, return, release or detach of it that reports OK makes it go.
   */
  lemma MarkedOnlyLeaves(q: Queue, op: Op, id: Id)
    requires Inv(q) && Enabled(q, op) && id in q.cached && q.cached[id].isDeleting
    ensures id !in q.free && id !in q.dirty
    ensures var r := Step(q, op);
            && (id in r.queue.cached ==> r.queue.cached[id] == q.cached[id])
            && (r.status == OK && (op.OpPush? || op.OpReturn? || op.OpRelease? || op.OpDetach?) && op.id == id ==>
                  id !in r.queue.cached)
  {
    match op
    case OpAttach(x, seen) =>
    case OpShrink(n) =>
    case _ =>
  }

  /**
   * The forced detach at work: with no listener installed, attaching a filled buffer leaves its id in the dirty
   * list after its map entry is gone.
   */
  lemma UnlistenedAttachLeavesDanglingId(config: Config)
    requires config.memoryType == VirtualMemory && config.size == 16
    ensures var q0 := Queue(1, UnknownMemory, map[], [], []);
            var q1 := Attach(q0, 7, config).queue;
            var q2 := Push(q1, 7, true, config).queue;
            Inv(q2) && var q3 := Return(q2, 7, true, config, false).queue;
            var q4 := Detach(q3, 7, true).queue;
            Inv(q0) && q4.dirty == [7] && 7 !in q4.cached && !Inv(q4)
  {
    var q0 := Queue(1, UnknownMemory, map[], [], []);
    AttachKeepsInv(q0, 7, config);
    PushKeepsInv(Attach(q0, 7, config).queue, 7, true, config);
    var q2 := Push(Attach(q0, 7, config).queue, 7, true, config).queue;
    ReturnKeepsInv(q2, 7, true, config, false);
    assert 7 in q2.cached && q2.cached[7].state == Pushed;
    ForcedDetachIff(Return(q2, 7, true, config, false).queue, 7);
  }

  // ---------- First in, first out ----------

  /** The ids queued for the consumer and the ids the consumer acquired, both in order of time. */
  datatype Log = Log(returned: seq<Id>, acquired: seq<Id>)

  ghost function Record(q: Queue, log: Log, op: Op): Log
    requires Inv(q)
  {
    var r := Step(q, op);
    if op.OpReturn? && op.available && r.status == OK && r.buffer.Some? then
      log.(returned := log.returned + [op.id])
    else if op.OpAcquire? && r.status == OK then
      log.(acquired := log.acquired + [r.buffer.Extract().uid])
    else log
  }

  ghost function LogAfter(q: Queue, log: Log, ops: seq<Op>): Log
    requires Inv(q) && Executable(q, ops)
    decreases |ops|
  {
    if ops == [] then log
    else (StepKeepsInv(q, ops[0]); LogAfter(Step(q, ops[0]).queue, Record(q, log, ops[0]), ops[1..]))
  }

  /** The dirty list is what remains of the returned history, and the acquired ids come in order from what left it. */
  ghost predicate InOrder(q: Queue, log: Log) {
    && |q.dirty| <= |log.returned|
    && var k := |log.returned| - |q.dirty|;
       q.dirty == log.returned[k..] && Subsequence(log.acquired, log.returned[..k])
  }

  /** Steps that take nothing out of the dirty list except by an acquire. */
  ghost predicate NoEvictionStep(q: Queue, op: Op) {
    !op.OpShrink? && (op.OpAttach? ==> |q.cached| < q.size)
  }

  ghost predicate NoEviction(q: Queue, ops: seq<Op>)
    requires Inv(q) && Executable(q, ops)
    decreases |ops|
  {
    ops == [] || (NoEvictionStep(q, ops[0]) && (StepKeepsInv(q, ops[0]); NoEviction(Step(q, ops[0]).queue, ops[1..])))
  }

  /** Dropping ids from the head of the dirty list keeps the order. */
  lemma HeadDropKeepsOrder(q: Queue, q': Queue, log: Log, d: nat)
    requires InOrder(q, log) && d <= |q.dirty| && q'.dirty == q.dirty[d..]
    ensures InOrder(q', log)
  {
    var k := |log.returned| - |q.dirty|;
    SubsequenceExtendRight(log.acquired, log.returned[..k], log.returned[k..k + d]);
    assert log.returned[..k + d] == log.returned[..k] + log.returned[k..k + d];
  }

  lemma AcquireKeepsOrder(q: Queue, log: Log)
    requires Inv(q) && InOrder(q, log) && q.dirty != []
    ensures InOrder(Acquire(q).queue, log.(acquired := log.acquired + [q.dirty[0]]))
  {
    var k := |log.returned| - |q.dirty|;
    SubsequenceSnoc(log.acquired, log.returned[..k], q.dirty[0]);
    assert log.returned[..k + 1] == log.returned[..k] + [q.dirty[0]];
  }

  lemma AttachDropsDirtyHead(q: Queue, id: Id, seen: Config) returns (d: nat)
    requires Inv(q)
    ensures d <= |q.dirty| && Attach(q, id, seen).queue.dirty == q.dirty[d..]
    ensures |q.cached| < q.size ==> d == 0
  {
    if Attach(q, id, seen).status == OK && |q.cached| >= q.size {
      d := DirtyDrops(q.(memoryType := seen.memoryType), |q.cached| - q.size + 1);
    } else {
      d := 0;
    }
  }

  lemma ReturnDirtyChange(q: Queue, id: Id, available: bool, seen: Config, eos: bool)
    requires Inv(q)
    ensures var r := Return(q, id, available, seen, eos);
            r.queue.dirty == if available && r.status == OK && r.buffer.Some? then q.dirty + [id] else q.dirty
  {
  }

  /** Except for a return and an acquire, a step at most drops the head of the dirty list. */
  lemma DirtyHeadDropped(q: Queue, op: Op) returns (d: nat)
    requires Inv(q) && !op.OpReturn? && !op.OpAcquire?
    ensures d <= |q.dirty| && Step(q, op).queue.dirty == q.dirty[d..]
    ensures NoEvictionStep(q, op) ==> d == 0
  {
    if op.OpAttach? {
      d := AttachDropsDirtyHead(q, op.id, op.seen);
    } else if op.OpShrink? {
      d := DirtyDrops(q, Deficit(q.size, op.n));
    } else {
      d := 0;
      RequestDirtyUnchanged(q, op);
    }
  }

  lemma RequestDirtyUnchanged(q: Queue, op: Op)
    requires Inv(q) && !op.OpReturn? && !op.OpAcquire? && !op.OpAttach? && !op.OpShrink?
    ensures Step(q, op).queue.dirty == q.dirty
  {
  }

  lemma ReturnKeepsOrder(q: Queue, q': Queue, log: Log, id: Id)
    requires InOrder(q, log) && q'.dirty == q.dirty + [id]
    ensures InOrder(q', log.(returned := log.returned + [id]))
  {
    var k := |log.returned| - |q.dirty|;
    assert (log.returned + [id])[..k] == log.returned[..k];
  }

  ghost predicate Lossless(q: Queue, log: Log) {
    log.acquired + q.dirty == log.returned
  }

  lemma RecordAcquire(q: Queue, log: Log)
    requires Inv(q) && q.dirty != []
    ensures Record(q, log, OpAcquire) == log.(acquired := log.acquired + [q.dirty[0]])
  {
    assert q.cached[q.dirty[0]].buffer.uid == q.dirty[0];
  }

  lemma AcquireStepKeepsOrder(q: Queue, log: Log)
    requires Inv(q) && InOrder(q, log)
    ensures InOrder(Acquire(q).queue, Record(q, log, OpAcquire))
    ensures Lossless(q, log) ==> Lossless(Acquire(q).queue, Record(q, log, OpAcquire))
  {
    if q.dirty != [] {
      RecordAcquire(q, log);
      AcquireKeepsOrder(q, log);
      AcquireLosesNothing(q, log);
      hide InOrder, Record, Inv, Lossless;
    }
  }

  lemma AcquireLosesNothing(q: Queue, log: Log)
    requires Inv(q) && q.dirty != []
    ensures Lossless(q, log) ==> Lossless(Acquire(q).queue, log.(acquired := log.acquired + [q.dirty[0]]))
  {
    assert Acquire(q).queue.dirty == q.dirty[1..];
    hide Inv, Acquire;
    assert log.acquired + q.dirty == log.acquired + [q.dirty[0]] + q.dirty[1..];
  }

  lemma StepKeepsOrder(q: Queue, log: Log, op: Op)
    requires Inv(q) && Enabled(q, op) && InOrder(q, log)
    ensures InOrder(Step(q, op).queue, Record(q, log, op))
    ensures NoEvictionStep(q, op) && Lossless(q, log) ==> Lossless(Step(q, op).queue, Record(q, log, op))
  {
    if op.OpAcquire? {
      AcquireStepKeepsOrder(q, log);
    } else {
      OtherStepKeepsOrder(q, Step(q, op).queue, log, op);
    }
  }

  lemma OtherStepKeepsOrder(q: Queue, q': Queue, log: Log, op: Op)
    requires Inv(q) && !op.OpAcquire? && InOrder(q, log) && q' == Step(q, op).queue
    ensures InOrder(q', Record(q, log, op))
    ensures NoEvictionStep(q, op) && Lossless(q, log) ==> Lossless(q', Record(q, log, op))
  {
    if op.OpReturn? {
      ReturnDirtyChange(q, op.id, op.available, op.seen, op.eos);
      if q'.dirty == q.dirty { HeadDropKeepsOrder(q, q', log, 0); } else { ReturnKeepsOrder(q, q', log, op.id); }
    } else {
      var d := DirtyHeadDropped(q, op);
      HeadDropKeepsOrder(q, q', log, d);
    }
  }

  /**
   * Over every run: the dirty list stays a suffix of the history of returned buffers, the acquired buffers are an
   * in-order subsequence of what left it, and without evictions acquired followed by dirty is that history.
   */
  lemma {:induction false} RunIsFifo(q: Queue, log: Log, ops: seq<Op>)
    requires Inv(q) && Executable(q, ops) && InOrder(q, log)
    ensures InOrder(After(q, ops), LogAfter(q, log, ops))
    ensures NoEviction(q, ops) && Lossless(q, log) ==> Lossless(After(q, ops), LogAfter(q, log, ops))
    decreases |ops|
  {
    if ops != [] {
      StepKeepsInv(q, ops[0]);
      StepKeepsOrder(q, log, ops[0]);
      RunIsFifo(Step(q, ops[0]).queue, Record(q, log, ops[0]), ops[1..]);
    }
  }
}
