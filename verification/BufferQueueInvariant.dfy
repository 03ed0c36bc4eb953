/** Every section keeps the three containers in agreement, over every interleaving. */
module BufferQueueInvariant {
  import opened AVBufferCommon
  import opened Sequences
  import opened BufferQueueSpec

  /** Writing an entry that is queued nowhere, before and after, keeps the invariant. */
  lemma PutUnqueued(q: Queue, id: Id, e: Element)
    requires Inv(q) && id !in q.free && id !in q.dirty
    requires e.state !in {Released, Returned} && e.buffer.uid == id
    ensures Inv(q.(cached := q.cached[id := e]))
  {
  }

  lemma RemoveUnqueued(q: Queue, id: Id)
    requires Inv(q) && id !in q.free && id !in q.dirty
    ensures Inv(q.(cached := q.cached - {id}))
  {
  }

  /** Taking one id out of the free list and out of the map. */
  lemma TakeOut(q: Queue, i: nat)
    requires Inv(q) && i < |q.free|
    ensures Inv(q.(free := RemoveAt(q.free, i), cached := q.cached - {q.free[i]}))
    ensures q.free[i] !in RemoveAt(q.free, i) && q.free[i] !in q.dirty
  {
    RemoveAtMembers(q.free, i);
    RemoveAtSorted(q.cached, q.free, i);
    hide SortedByCapacity, RemoveAt;
  }

  lemma RemoveAtSorted(cached: BufferMap, free: seq<Id>, i: nat)
    requires SortedByCapacity(cached, free) && i < |free|
    ensures SortedByCapacity(cached - {free[i]}, RemoveAt(free, i))
  {
    var r := RemoveAt(free, i);
    assert forall k :: 0 <= k < |r| ==> r[k] == free[if k < i then k else k + 1];
  }

  lemma AllocKeepsInv(q: Queue, config: Config, newId: Option<Id>)
    requires Inv(q) && (newId.Some? ==> newId.value !in q.cached)
    ensures Inv(Alloc(q, config, newId).queue)
  {
    if newId.Some? && CreatedConfig(config).Some? {
      PutUnqueued(q, newId.value, Element(CreatedConfig(config).value, Requested, false, AVBuffer(newId.value)));
    }
  }

  lemma TakeFreeKeepsInv(q: Queue, config: Config, newId: Option<Id>)
    requires Inv(q) && q.free != [] && (newId.Some? ==> newId.value !in q.cached)
    ensures Inv(TakeFree(q, config, newId).queue)
  {
    var i := PopIndex(q, config);
    var id := q.free[i];
    TakeOut(q, i);
    var out := q.(free := RemoveAt(q.free, i), cached := q.cached - {id});
    var e := q.cached[id];
    if FitsIn(config, e.config) {
      var e' := e.(config := e.config.(size := config.size), state := Requested);
      PutUnqueued(out, id, e');
      assert out.cached[id := e'] == q.cached[id := e'];
    } else {
      AllocKeepsInv(out, config, newId);
    }
  }

  lemma InsertedMembers(s: seq<Id>, i: nat, id: Id)
    requires i <= |s| && NoDuplicates(s) && id !in s
    ensures NoDuplicates(s[..i] + [id] + s[i..])
    ensures forall x :: x in s[..i] + [id] + s[i..] <==> x in s || x == id
  {
    assert s == s[..i] + s[i..];
  }

  /** Inserting in capacity order keeps the free list sorted, duplicate-free and complete. */
  lemma InsertKeepsInv(q: Queue, id: Id)
    requires Inv(q) && id in q.cached && !q.cached[id].isDeleting
    requires q.cached[id].state !in {Released, Returned}
    ensures Inv(q.(free := InsertInOrder(q.cached, q.free, id), cached := SetState(q.cached, id, Released)))
  {
    var cached := SetState(q.cached, id, Released);
    assert id !in q.free;
    InsertedMembers(q.free, InsertPos(q.cached, q.free, id), id);
    InsertSorted(q, id);
    assert ListsState(cached, InsertInOrder(q.cached, q.free, id), Released);
    assert ListsState(cached, q.dirty, Returned);
  }

  lemma InsertSorted(q: Queue, id: Id)
    requires Inv(q) && id in q.cached && id !in q.free
    ensures SortedByCapacity(SetState(q.cached, id, Released), InsertInOrder(q.cached, q.free, id))
  {
    var i := InsertPos(q.cached, q.free, id);
    var cached := SetState(q.cached, id, Released);
    var free := InsertInOrder(q.cached, q.free, id);
    var cap := q.cached[id].config.capacity;
    forall j, k | 0 <= j < k < |free|
      ensures cached[free[j]].config.capacity <= cached[free[k]].config.capacity
    {
      if k > i {
        assert free[k] == q.free[k - 1];
        assert cap <= q.cached[q.free[i]].config.capacity <= q.cached[q.free[k - 1]].config.capacity;
      }
      if j < i { assert free[j] == q.free[j]; }
    }
  }

  lemma AppendDirtyKeepsInv(q: Queue, id: Id, seen: Config)
    requires Inv(q) && id in q.cached && !q.cached[id].isDeleting && q.cached[id].state == Pushed
    ensures Inv(q.(cached := q.cached[id := q.cached[id].(config := seen, state := Returned)],
                   dirty := q.dirty + [id]))
  {
    assert id !in q.free && id !in q.dirty;
  }

  lemma AcquireKeepsInv(q: Queue)
    requires Inv(q)
    ensures Inv(Acquire(q).queue)
  {
    if q.dirty != [] {
      var id := q.dirty[0];
      var q' := Acquire(q).queue;
      assert q.dirty == [id] + q.dirty[1..];
      assert ListsState(q'.cached, q'.dirty, Returned) by {
        assert forall x :: x in q'.dirty <==> x in q.dirty && x != id;
      }
    }
  }

  /** A suffix of a duplicate-free list has exactly the members outside the prefix. */
  lemma SuffixMembers<T>(s: seq<T>, k: nat)
    requires k <= |s| && NoDuplicates(s)
    ensures NoDuplicates(s[k..])
    ensures forall x :: x in s[k..] <==> x in s && x !in s[..k]
  {
    assert s == s[..k] + s[k..];
  }

  lemma DropHeadsKeepsInv(q: Queue, f: nat, d: nat)
    requires Inv(q) && f <= |q.free| && d <= |q.dirty|
    ensures Inv(q.(cached := q.cached - (ToSet(q.free[..f]) + ToSet(q.dirty[..d])),
                   free := q.free[f..], dirty := q.dirty[d..]))
  {
    SuffixMembers(q.free, f);
    SuffixMembers(q.dirty, d);
    var cached := q.cached - (ToSet(q.free[..f]) + ToSet(q.dirty[..d]));
    assert q.free == q.free[..f] + q.free[f..];
    assert q.dirty == q.dirty[..d] + q.dirty[d..];
    assert ListsState(cached, q.free[f..], Released);
    assert ListsState(cached, q.dirty[d..], Returned);
    assert SortedByCapacity(cached, q.free[f..]);
  }

  lemma MarkKeepsInv(q: Queue, ids: set<Id>)
    requires Inv(q) && (ids == {} || (q.free == [] && q.dirty == []))
    ensures Inv(q.(cached := Mark(q.cached, ids)))
  {
    assert ListsState(Mark(q.cached, ids), q.free, Released);
    assert ListsState(Mark(q.cached, ids), q.dirty, Returned);
    assert SortedByCapacity(Mark(q.cached, ids), q.free);
  }

  lemma DeleteKeepsInv(q: Queue, count: nat)
    requires Inv(q)
    ensures Inv(Delete(q, count))
  {
    var f, d := FreeDrops(q, count), DirtyDrops(q, count);
    DropHeadsKeepsInv(q, f, d);
    var q1 := q.(cached := q.cached - DroppedIds(q, count), free := q.free[f..], dirty := q.dirty[d..]);
    var ids := Lowest(q1.cached.Keys, Marks(q, count));
    assert Marks(q, count) > 0 ==> q1.free == [] && q1.dirty == [];
    assert Marks(q, count) == 0 ==> ids == {};
    MarkKeepsInv(q1, ids);
  }

  lemma DeleteShrinksMap(q: Queue, count: nat)
    ensures Delete(q, count).cached.Keys == q.cached.Keys - DroppedIds(q, count)
  {
  }

  lemma DeleteThenPutKeepsInv(q: Queue, count: nat, id: Id, e: Element)
    requires Inv(q) && id !in q.cached && e.state == BufferState.Attached && e.buffer.uid == id
    ensures Inv(Delete(q, count).(cached := Delete(q, count).cached[id := e]))
  {
    DeleteKeepsInv(q, count);
    DeleteShrinksMap(q, count);
    assert id !in Delete(q, count).cached;
    PutUnqueued(Delete(q, count), id, e);
  }

  /** What an attach can leave behind. */
  lemma AttachCases(q: Queue, id: Id, seen: Config)
    ensures var q1 := q.(memoryType := seen.memoryType);
            var e := Element(seen, BufferState.Attached, false, AVBuffer(id));
            var r := Attach(q, id, seen).queue;
            || r == q || r == q1
            || (id !in q.cached && r == q1.(cached := q1.cached[id := e]))
            || (id !in q.cached && exists n: nat {:trigger Delete(q1, n)} ::
                  r == Delete(q1, n).(cached := Delete(q1, n).cached[id := e]))
  {
    hide Delete;
    var q1 := q.(memoryType := seen.memoryType);
    if |q.cached| >= q.size {
      var q2 := Delete(q1, |q.cached| - q.size + 1);
    }
  }

  lemma AttachKeepsInv(q: Queue, id: Id, seen: Config)
    requires Inv(q)
    ensures Inv(Attach(q, id, seen).queue)
  {
    var q1 := q.(memoryType := seen.memoryType);
    var e := Element(seen, BufferState.Attached, false, AVBuffer(id));
    assert Inv(q1);
    AttachCases(q, id, seen);
    if id !in q.cached {
      PutUnqueued(q1, id, e);
      forall n: nat
        ensures Inv(Delete(q1, n).(cached := Delete(q1, n).cached[id := e]))
      {
        DeleteThenPutKeepsInv(q1, n, id, e);
      }
    }
    hide *;
  }

  lemma RequestKeepsInv(q: Queue, config: Config, newId: Option<Id>)
    requires Inv(q) && (newId.Some? ==> newId.value !in q.cached)
    ensures Inv(RequestBegin(q, config, newId).queue)
    ensures Inv(RequestResume(q, config, newId).queue)
  {
    var q1 := q.(memoryType := config.memoryType);
    if q.free != [] {
      TakeFreeKeepsInv(q1, config, newId);
      TakeFreeKeepsInv(q, config, newId);
    } else {
      AllocKeepsInv(q1, config, newId);
      AllocKeepsInv(q, config, newId);
    }
  }

  lemma PushKeepsInv(q: Queue, id: Id, available: bool, seen: Config)
    requires Inv(q)
    ensures Inv(Push(q, id, available, seen).queue)
  {
    if id in q.cached && q.cached[id].isDeleting {
      RemoveUnqueued(q, id);
    } else if id in q.cached && q.cached[id].state in {Requested, BufferState.Attached} {
      PutUnqueued(q, id, q.cached[id].(state := Pushed));
    }
  }

  lemma ReturnKeepsInv(q: Queue, id: Id, available: bool, seen: Config, eos: bool)
    requires Inv(q)
    ensures Inv(Return(q, id, available, seen, eos).queue)
  {
    if id in q.cached && q.cached[id].isDeleting {
      RemoveUnqueued(q, id);
    } else if id in q.cached && q.cached[id].state == Pushed {
      InsertKeepsInv(q, id);
      AppendDirtyKeepsInv(q, id, seen);
    }
  }

  lemma ReleaseKeepsInv(q: Queue, id: Id)
    requires Inv(q)
    ensures Inv(Release(q, id).queue)
  {
    if id in q.cached && q.cached[id].state in {BufferState.Acquired, BufferState.Attached} {
      if q.cached[id].isDeleting { RemoveUnqueued(q, id); } else { InsertKeepsInv(q, id); }
    }
  }

  lemma DetachKeepsInv(q: Queue, id: Id)
    requires Inv(q)
    ensures Inv(Detach(q, id, false).queue)
  {
    if id in q.cached && q.cached[id].state in {Requested, BufferState.Acquired} {
      RemoveUnqueued(q, id);
    }
  }

  lemma ShrinkKeepsInv(q: Queue, n: nat)
    requires Inv(q)
    ensures Inv(Shrink(q, n))
  {
    var count := Deficit(q.size, n);
    DeleteKeepsInv(q, count);
    ResizeKeepsInv(Delete(q, count), n);
  }

  lemma ResizeKeepsInv(q: Queue, n: nat)
    requires Inv(q)
    ensures Inv(q.(size := n))
  {
  }

  /** One step of any thread keeps the invariant. */
  lemma StepKeepsInv(q: Queue, op: Op)
    requires Inv(q) && Enabled(q, op)
    ensures Inv(Step(q, op).queue)
  {
    match op
    case OpRequestBegin(config, newId) => RequestKeepsInv(q, config, newId);
    case OpRequestResume(config, newId) => RequestKeepsInv(q, config, newId);
    case OpPush(id, available, seen) => PushKeepsInv(q, id, available, seen);
    case OpReturn(id, available, seen, eos) => ReturnKeepsInv(q, id, available, seen, eos);
    case OpAttach(id, seen) => AttachKeepsInv(q, id, seen);
    case OpForceDetach(id) => RemoveUnqueued(q, id);
    case OpDetach(id) => DetachKeepsInv(q, id);
    case OpAcquire => AcquireKeepsInv(q);
    case OpRelease(id) => ReleaseKeepsInv(q, id);
    case OpGrow(n) => ResizeKeepsInv(q, n);
    case OpShrink(n) => ShrinkKeepsInv(q, n);
  }

  /** `ops` can be executed one after the other from `q`, each enabled when it is reached. */
  ghost predicate Executable(q: Queue, ops: seq<Op>)
    requires Inv(q)
    decreases |ops|
  {
    ops == [] || (Enabled(q, ops[0]) && (StepKeepsInv(q, ops[0]); Executable(Step(q, ops[0]).queue, ops[1..])))
  }

  /** The queue after a run. Its postcondition is the invariant over every interleaving. */
  ghost function After(q: Queue, ops: seq<Op>): (r: Queue)
    requires Inv(q) && Executable(q, ops)
    ensures Inv(r)
    decreases |ops|
  {
    if ops == [] then q
    else
      StepKeepsInv(q, ops[0]);
      After(Step(q, ops[0]).queue, ops[1..])
  }

  /**
   * The unlocked, forced detach after a failed attach removes the map entry only.
   * It keeps the invariant exactly when the id is queued nowhere.
   */
  lemma ForcedDetachIff(q: Queue, id: Id)
    requires Inv(q) && id in q.cached
    ensures Inv(Detach(q, id, true).queue) <==> id !in q.free && id !in q.dirty
  {
    if id !in q.free && id !in q.dirty {
      RemoveUnqueued(q, id);
    }
  }
}
