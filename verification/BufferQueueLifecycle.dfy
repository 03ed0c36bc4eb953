/** The life of a single buffer: which step may change it, and that its holder has it alone. */
module BufferQueueLifecycle {
  import opened AVBufferCommon
  import opened Sequences
  import opened BufferQueueSpec
  import opened BufferQueueInvariant
  import opened BufferQueueProperties

  /** The step may take a buffer from one state to the other. */
  predicate Edge(op: Op, id: Id, from: BufferState, to: BufferState) {
    match op
    case OpRequestBegin(_, _) => from == Released && to == Requested
    case OpRequestResume(_, _) => from == Released && to == Requested
    case OpPush(x, _, _) => x == id && from in {Requested, BufferState.Attached} && to == Pushed
    case OpReturn(x, available, _, _) => x == id && from == Pushed && to == (if available then Returned else Released)
    case OpAcquire => from == Returned && to == BufferState.Acquired
    case OpRelease(x) => x == id && from in {BufferState.Acquired, BufferState.Attached} && to == Released
    case _ => false
  }

  /** The step may remove the buffer from the queue. */
  predicate Removes(op: Op, id: Id, e: Element) {
    match op
    case OpRequestBegin(_, _) => e.state == Released
    case OpRequestResume(_, _) => e.state == Released
    case OpPush(x, _, _) => x == id && e.isDeleting
    case OpReturn(x, _, _, _) => x == id && e.isDeleting
    case OpRelease(x) => x == id && e.isDeleting && e.state in {BufferState.Acquired, BufferState.Attached}
    case OpDetach(x) => x == id && e.state in {Requested, BufferState.Acquired}
    case OpForceDetach(x) => x == id
    case OpAttach(_, _) => e.state in {Released, Returned}
    case OpShrink(_) => e.state in {Released, Returned}
    case _ => false
  }

  /** The step may bring a buffer that was not cached. */
  predicate Brings(op: Op, id: Id, state: BufferState) {
    match op
    case OpRequestBegin(_, newId) => newId == Some(id) && state == Requested
    case OpRequestResume(_, newId) => newId == Some(id) && state == Requested
    case OpAttach(x, _) => x == id && state == BufferState.Attached
    case _ => false
  }

  /** The stored configuration: its size follows a request, all of it a filled return, and nothing else. */
  function ConfigAfter(op: Op, before: Element, state: BufferState): Config {
    if state == before.state then before.config
    else if op.OpRequestBegin? || op.OpRequestResume? then before.config.(size := op.config.size)
    else if op.OpReturn? && state == Returned then op.seen
    else before.config
  }

  /** What a step may do to the buffer `id`. */
  ghost predicate Lawful(q: Queue, op: Op, q': Queue, id: Id) {
    if id in q.cached && id in q'.cached then
      && q'.cached[id].buffer == q.cached[id].buffer
      && q'.cached[id].config == ConfigAfter(op, q.cached[id], q'.cached[id].state)
      && (q.cached[id].isDeleting ==> q'.cached[id].isDeleting)
      && (q'.cached[id].isDeleting && !q.cached[id].isDeleting ==> op.OpShrink?)
      && (q'.cached[id].state == q.cached[id].state || Edge(op, id, q.cached[id].state, q'.cached[id].state))
    else if id in q.cached then Removes(op, id, q.cached[id])
    else id in q'.cached ==>
      && Brings(op, id, q'.cached[id].state)
      && !q'.cached[id].isDeleting && q'.cached[id].buffer == AVBuffer(id)
      && (if op.OpAttach? then q'.cached[id].config == op.seen else CreatedConfig(op.config) == Some(q'.cached[id].config))
  }

  lemma DeleteIsLawful(q: Queue, count: nat, id: Id)
    requires Inv(q) && id in q.cached
    ensures var q' := Delete(q, count);
            if id in q'.cached then
              q'.cached[id].(isDeleting := q.cached[id].isDeleting) == q.cached[id] &&
              (q.cached[id].isDeleting ==> q'.cached[id].isDeleting)
            else q.cached[id].state in {Released, Returned}
  {
  }

  lemma AttachIsLawful(q: Queue, id: Id, seen: Config, x: Id)
    requires Inv(q)
    ensures var q' := Attach(q, id, seen).queue;
            if x in q.cached then
              if x in q'.cached then q'.cached[x] == q.cached[x] else q.cached[x].state in {Released, Returned}
            else x in q'.cached ==> x == id && q'.cached[x] == Element(seen, BufferState.Attached, false, AVBuffer(id))
  {
    var q1 := q.(memoryType := seen.memoryType);
    if Attach(q, id, seen).status == OK && |q.cached| >= q.size {
      if x in q.cached { DeleteIsLawful(q1, |q.cached| - q.size + 1, x); }
      DeleteShrinksMap(q1, |q.cached| - q.size + 1);
    }
  }

  lemma TakeFreeIsLawful(q: Queue, config: Config, newId: Option<Id>, x: Id)
    requires Inv(q) && q.free != [] && (newId.Some? ==> newId.value !in q.cached)
    ensures var q' := TakeFree(q, config, newId).queue;
            if x in q.cached then
              if x in q'.cached then
                q'.cached[x] == q.cached[x] ||
                (q.cached[x].state == Released &&
                 q'.cached[x] == q.cached[x].(state := Requested, config := q.cached[x].config.(size := config.size)))
              else q.cached[x].state == Released
            else x in q'.cached ==>
              && newId == Some(x) && CreatedConfig(config).Some?
              && q'.cached[x] == Element(CreatedConfig(config).value, Requested, false, AVBuffer(x))
  {
    assert q.free[PopIndex(q, config)] in q.free;
  }

  lemma RequestIsLawful(q: Queue, op: Op, id: Id)
    requires Inv(q) && Enabled(q, op) && (op.OpRequestBegin? || op.OpRequestResume?)
    ensures Lawful(q, op, Step(q, op).queue, id)
  {
    if q.free != [] {
      TakeFreeIsLawful(q.(memoryType := op.config.memoryType), op.config, op.newId, id);
      TakeFreeIsLawful(q, op.config, op.newId, id);
    }
  }

  lemma PushOrReturnIsLawful(q: Queue, op: Op, id: Id)
    requires Inv(q) && (op.OpPush? || op.OpReturn?)
    ensures Lawful(q, op, Step(q, op).queue, id)
  {
  }

  lemma ReleaseOrDetachIsLawful(q: Queue, op: Op, id: Id)
    requires Inv(q) && (op.OpRelease? || op.OpDetach? || op.OpForceDetach?)
    ensures Lawful(q, op, Step(q, op).queue, id)
  {
  }

  lemma AcquireOrGrowIsLawful(q: Queue, op: Op, id: Id)
    requires Inv(q) && (op.OpAcquire? || op.OpGrow?)
    ensures Lawful(q, op, Step(q, op).queue, id)
  {
    if op.OpAcquire? && q.dirty != [] {
      assert q.dirty[0] in q.dirty;
    }
  }

  /** Every step moves every buffer along the lifecycle, and removes, brings and marks buffers only as listed. */
  lemma StepIsLawful(q: Queue, op: Op, id: Id)
    requires Inv(q) && Enabled(q, op)
    ensures Lawful(q, op, Step(q, op).queue, id)
  {
    if op.OpRequestBegin? || op.OpRequestResume? {
      RequestIsLawful(q, op, id);
    } else if op.OpAttach? {
      AttachIsLawful(q, op.id, op.seen, id);
    } else if op.OpShrink? {
      if id in q.cached { DeleteIsLawful(q, Deficit(q.size, op.n), id); }
      DeleteShrinksMap(q, Deficit(q.size, op.n));
    } else if op.OpPush? || op.OpReturn? {
      PushOrReturnIsLawful(q, op, id);
    } else if op.OpAcquire? || op.OpGrow? {
      AcquireOrGrowIsLawful(q, op, id);
    } else {
      ReleaseOrDetachIsLawful(q, op, id);
    }
  }

  // ---------- Exclusive possession ----------

  /** Somebody outside the queue has the buffer. */
  ghost predicate Held(q: Queue, id: Id) {
    id in q.cached && q.cached[id].state !in {Released, Returned}
  }

  /** The step is an operation on this very buffer. */
  predicate Names(op: Op, id: Id) {
    (op.OpPush? || op.OpReturn? || op.OpDetach? || op.OpForceDetach? || op.OpRelease?) && op.id == id
  }

  /** The buffer that a request or an acquire gives out. */
  ghost function HandedOut(q: Queue, op: Op): Option<Id>
    requires Inv(q)
  {
    var r := Step(q, op);
    if (op.OpRequestBegin? || op.OpRequestResume? || op.OpAcquire?) && r.buffer.Some? then Some(r.buffer.value.uid) else None
  }

  /** Some step of the run gives the buffer out. */
  ghost predicate HandsOut(q: Queue, ops: seq<Op>, id: Id)
    requires Inv(q) && Executable(q, ops)
    decreases |ops|
  {
    ops != [] &&
    (HandedOut(q, ops[0]) == Some(id) || (StepKeepsInv(q, ops[0]); HandsOut(Step(q, ops[0]).queue, ops[1..], id)))
  }

  lemma HandedOutWasQueued(q: Queue, op: Op)
    requires Inv(q) && Enabled(q, op) && HandedOut(q, op).Some?
    ensures HandedOut(q, op).value in q.cached ==> q.cached[HandedOut(q, op).value].state in {Released, Returned}
  {
    if op.OpAcquire? {
      assert q.dirty[0] in q.dirty;
    } else if q.free != [] {
      var q1 := if op.OpRequestBegin? then q.(memoryType := op.config.memoryType) else q;
      assert q.free[PopIndex(q1, op.config)] in q.free;
    }
  }

  lemma StepKeepsHeld(q: Queue, op: Op, id: Id)
    requires Inv(q) && Enabled(q, op) && Held(q, id) && !Names(op, id)
    ensures Held(Step(q, op).queue, id) && HandedOut(q, op) != Some(id)
    ensures Step(q, op).queue.cached[id].state == q.cached[id].state
    ensures Step(q, op).queue.cached[id].buffer == q.cached[id].buffer
  {
    StepIsLawful(q, op, id);
    if HandedOut(q, op).Some? {
      HandedOutWasQueued(q, op);
    }
  }

  /**
   * A buffer that somebody holds stays in its state, and is given out to nobody else, over every run in which no
   * step names it: no resize, eviction or request of another thread can take it away.
   */
  lemma {:induction false} HolderHasItAlone(q: Queue, ops: seq<Op>, id: Id)
    requires Inv(q) && Executable(q, ops) && Held(q, id)
    requires forall op | op in ops :: !Names(op, id)
    ensures !HandsOut(q, ops, id) && Held(After(q, ops), id)
    ensures After(q, ops).cached[id].state == q.cached[id].state
    ensures After(q, ops).cached[id].buffer == q.cached[id].buffer
    decreases |ops|
  {
    if ops != [] {
      assert ops[0] in ops;
      StepKeepsInv(q, ops[0]);
      StepKeepsHeld(q, ops[0], id);
      HolderHasItAlone(Step(q, ops[0]).queue, ops[1..], id);
    }
  }
}
