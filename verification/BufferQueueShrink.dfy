/** Shrinking the queue: how many buffers a deletion really leaves, and when a shrink does what it was asked for. */
module BufferQueueShrink {
  import opened AVBufferCommon
  import opened Sequences
  import opened BufferQueueSpec
  import opened BufferQueueInvariant
  import opened BufferQueueProperties

  // ---------- Any deletion ----------

  /** What a deletion leaves in the map, before it marks. */
  ghost function Kept(q: Queue, count: nat): BufferMap {
    q.cached - DroppedIds(q, count)
  }

  /** Buffers that a deletion marks although they are marked already: it counts them once more. */
  ghost function MarkedAgain(q: Queue, count: nat): set<Id> {
    set id | id in Kept(q, count) && id in Lowest(Kept(q, count).Keys, Marks(q, count)) && q.cached[id].isDeleting
  }

  lemma MarkLeaves(kept: BufferMap, marked: set<Id>)
    requires marked <= kept.Keys
    ensures |Unmarked(kept) - marked| == |Unmarked(kept)| - |marked| + |set id | id in marked && kept[id].isDeleting|
  {
    assert marked - Unmarked(kept) == set id | id in marked && kept[id].isDeleting;
    assert marked * Unmarked(kept) == Unmarked(kept) * marked;
    hide Mark, Unmarked;
    DifferenceSize(Unmarked(kept), marked);
    DifferenceSize(marked, Unmarked(kept));
  }

  lemma MarkUnmarked(kept: BufferMap, marked: set<Id>)
    requires marked <= kept.Keys
    ensures Unmarked(Mark(kept, marked)) == Unmarked(kept) - marked
  {
  }

  lemma SubsetDifference<T>(a: set<T>, b: set<T>)
    requires b <= a
    ensures |a - b| == |a| - |b|
  {
    DifferenceSize(a, b);
    assert a * b == b;
  }

  lemma DroppedUnmarked(q: Queue, count: nat)
    requires Inv(q)
    ensures DroppedIds(q, count) <= Unmarked(q.cached)
    ensures |DroppedIds(q, count)| == FreeDrops(q, count) + DirtyDrops(q, count)
  {
    DroppedCount(q, count);
    assert forall id | id in DroppedIds(q, count) :: id in q.free || id in q.dirty;
    hide Inv;
    SubsetDifference(q.cached.Keys, DroppedIds(q, count));
  }

  lemma KeptUnmarked(q: Queue, count: nat)
    requires Inv(q)
    ensures |Kept(q, count)| == |q.cached| - FreeDrops(q, count) - DirtyDrops(q, count)
    ensures |Unmarked(Kept(q, count))| == |Unmarked(q.cached)| - FreeDrops(q, count) - DirtyDrops(q, count)
  {
    DroppedUnmarked(q, count);
    var kept, dropped := Kept(q, count), DroppedIds(q, count);
    assert kept.Keys == q.cached.Keys - dropped && Unmarked(kept) == Unmarked(q.cached) - dropped;
    assert dropped <= q.cached.Keys;
    hide Inv, Unmarked, DroppedIds, Kept;
    SubsetDifference(Unmarked(q.cached), dropped);
    SubsetDifference(q.cached.Keys, dropped);
  }

  /** How many unmarked buffers a deletion leaves. */
  ghost function LeftUnmarked(q: Queue, count: nat): int {
    if |q.cached| <= count then 0 else |Unmarked(q.cached)| - count + |MarkedAgain(q, count)|
  }

  /**
   * A deletion of `count` leaves `count` fewer unmarked buffers, or none, but for those it marked again: each of
   * them is one unmarked buffer too many.
   */
  lemma DeleteUnmarked(q: Queue, count: nat)
    requires Inv(q)
    ensures |Unmarked(Delete(q, count).cached)| == LeftUnmarked(q, count)
  {
    KeptUnmarked(q, count);
    var kept := Kept(q, count);
    var marked := Lowest(kept.Keys, Marks(q, count));
    assert |kept.Keys| == |kept|;
    LowestSize(kept.Keys, Marks(q, count));
    assert Delete(q, count).cached == Mark(kept, marked);
    hide Delete, Lowest, Mark, DroppedIds, Inv;
    MarkLeaves(kept, marked);
    MarkUnmarked(kept, marked);
    assert MarkedAgain(q, count) == set id | id in marked && kept[id].isDeleting;
    if |q.cached| <= count {
      SubsetSize(marked, kept.Keys);
      assert Unmarked(kept) - marked == {};
    }
  }

  /** With nothing pending, nothing is marked again. */
  lemma SettledDeletion(q: Queue, count: nat)
    requires Inv(q) && Unmarked(q.cached) == q.cached.Keys
    ensures |Unmarked(Delete(q, count).cached)| == Max(0, |q.cached| - count)
  {
    DeleteUnmarked(q, count);
    assert forall id | id in q.cached :: id in Unmarked(q.cached);
    hide Delete, Lowest, DroppedIds, Inv;
    assert MarkedAgain(q, count) == {};
  }

  // ---------- A shrink ----------

  lemma DeficitValue(size: nat, n: nat)
    requires size <= MAX_QUEUE_SIZE && n <= MAX_QUEUE_SIZE
    ensures Deficit(size, n) == if n <= size then size - n else TWO_32 + size - n
  {
  }

  /** The buffers not pending, and those that the shrink would mark a second time, fit the old queue size. */
  ghost predicate ShrinkReaches(q: Queue, n: nat)
    requires n <= q.size
  {
    |q.cached| <= q.size - n || |Unmarked(q.cached)| + |MarkedAgain(q, q.size - n)| <= q.size
  }

  /** A shrink to `n` leaves at most `n` unmarked buffers exactly under that condition. */
  lemma ShrinkReachesIff(q: Queue, n: nat)
    requires Inv(q) && 0 < n <= q.size <= MAX_QUEUE_SIZE
    ensures |Unmarked(Shrink(q, n).cached)| <= n <==> ShrinkReaches(q, n)
  {
    hide Delete, MarkedAgain, Inv, Unmarked, LeftUnmarked, ShrinkReaches, Shrink;
    ShrinkDeletes(q, n);
    DeleteUnmarked(q, q.size - n);
    LeftReaches(q, n);
  }

  lemma ShrinkDeletes(q: Queue, n: nat)
    requires n <= q.size <= MAX_QUEUE_SIZE
    ensures Shrink(q, n) == Delete(q, q.size - n).(size := n)
  {
    hide Delete;
    DeficitValue(q.size, n);
  }

  lemma LeftReaches(q: Queue, n: nat)
    requires n <= q.size
    ensures LeftUnmarked(q, q.size - n) <= n <==> ShrinkReaches(q, n)
  {
    hide MarkedAgain, Unmarked;
  }

  /** With nothing pending and no more than `size` buffers cached, a shrink to `n` leaves at most `n` unmarked. */
  lemma ShrinkLimitsUnmarked(q: Queue, n: nat)
    requires Inv(q) && Unmarked(q.cached) == q.cached.Keys && |q.cached| <= q.size <= MAX_QUEUE_SIZE
    requires 0 < n <= MAX_QUEUE_SIZE
    ensures |Unmarked(Shrink(q, n).cached)| <= n
  {
    SettledDeletion(q, Deficit(q.size, n));
    DeficitValue(q.size, n);
  }

  /** The queue a shrink leaves, known to be consistent. */
  ghost function Shrunk(q: Queue, n: nat): (r: Queue)
    requires Inv(q)
    ensures Inv(r) && r == Shrink(q, n)
  {
    ShrinkKeepsInv(q, n);
    Shrink(q, n)
  }

  /** A shrink that reaches its target caps the unmarked buffers until the next shrink, whatever happens between. */
  lemma ShrinkHoldsOverRuns(q: Queue, n: nat, ops: seq<Op>)
    requires Inv(q) && 0 < n <= q.size <= MAX_QUEUE_SIZE && ShrinkReaches(q, n)
    requires Executable(Shrunk(q, n), ops) && NoShrink(Shrunk(q, n), ops)
    ensures |Unmarked(After(Shrunk(q, n), ops).cached)| <= After(Shrunk(q, n), ops).size
  {
    ShrinkReachesIff(q, n);
    RunKeepsBounds(Shrunk(q, n), ops);
  }

  /** A queue of size 3 whose buffers are all requested. */
  ghost function AllRequested(config: Config): Queue {
    Queue(3, config.memoryType, map id | id in {0, 1, 2} :: Element(config, Requested, false, AVBuffer(id)), [], [])
  }

  lemma LowestOne(ids: set<Id>)
    requires 0 in ids
    ensures Lowest(ids, 1) == {0}
  {
    assert Least(ids) == 0;
    assert Lowest(ids - {0}, 0) == {};
  }

  /** A deletion of one buffer from a queue with nothing queued marks buffer 0, marked or not. */
  lemma MarksZero(q: Queue)
    requires q.free == [] && q.dirty == [] && 0 in q.cached
    ensures Delete(q, 1) == q.(cached := Mark(q.cached, {0}))
  {
    assert DroppedIds(q, 1) == {};
    assert q.cached - {} == q.cached;
    LowestOne(q.cached.Keys);
  }

  /** Shrinking to 2 and then to 1 marks the same buffer twice, and leaves two unmarked. */
  lemma ShrinkTwiceLeavesTooMany(config: Config)
    ensures var q := AllRequested(config);
            Inv(q) && |Unmarked(Shrink(Shrink(q, 2), 1).cached)| == 2
  {
    var q := AllRequested(config);
    var q1 := Shrink(q, 2);
    MarksZero(q);
    MarksZero(q1);
    hide Delete;
    assert Unmarked(Mark(Mark(q.cached, {0}), {0})) == {1, 2};
  }

  // ---------- A shrink that comes late ----------

  /**
   * A shrink whose lock is taken after another resize made the queue smaller than its target computes a wrapped
   * difference: both lists are emptied and every remaining buffer is marked.
   */
  lemma LateShrinkDropsEverything(q: Queue, n: nat)
    requires Inv(q) && q.size < n <= MAX_QUEUE_SIZE && |q.cached| < TWO_32 - MAX_QUEUE_SIZE
    ensures var q' := Shrink(q, n);
            q'.size == n && q'.free == [] && q'.dirty == [] && Unmarked(q'.cached) == {}
  {
    DeficitValue(q.size, n);
    QueuedAtMostCached(q);
    DeleteUnmarked(q, Deficit(q.size, n));
  }

  lemma QueuedAtMostCached(q: Queue)
    requires Inv(q)
    ensures |q.free| + |q.dirty| <= |q.cached|
  {
    SetOfDistinct(q.free);
    SetOfDistinct(q.dirty);
    assert ToSet(q.free) !! ToSet(q.dirty);
    SubsetSize(ToSet(q.free) + ToSet(q.dirty), q.cached.Keys);
  }

  /**
   * With nothing pending, a shrink gives up exactly as many buffers as the size goes down by, none when it does not
   * go down, if and only if it does not come late.
   */
  lemma ShrinkIsExactIff(q: Queue, n: nat)
    requires Inv(q) && Unmarked(q.cached) == q.cached.Keys && q.cached != map[]
    requires q.size <= MAX_QUEUE_SIZE && 0 < n <= MAX_QUEUE_SIZE && |q.cached| < TWO_32 - MAX_QUEUE_SIZE
    ensures |Unmarked(Shrink(q, n).cached)| == Max(0, |q.cached| - Max(0, q.size - n)) <==> n <= q.size
  {
    SettledDeletion(q, Deficit(q.size, n));
    DeficitValue(q.size, n);
    assert |q.cached| > 0;
  }

  /** A queue of size 3 whose buffers are all free. */
  ghost function AllFree(config: Config): Queue {
    Queue(3, config.memoryType, map id | id in {0, 1, 2} :: Element(config, Released, false, AVBuffer(id)), [0, 1, 2], [])
  }

  /**
   * Two threads shrink a queue of three free buffers, one to 2 and one to 1, and both pass the test before the lock.
   * When the shrink to 1 runs first, the shrink to 2 leaves a queue of size 2 and no buffer.
   */
  lemma LateShrinkInterleaving(config: Config)
    ensures var q := AllFree(config);
            && Inv(q) && 2 < q.size && 1 < q.size
            && Shrink(q, 1).free == [2] && Shrink(q, 1).cached.Keys == {2}
            && Shrink(Shrink(q, 1), 2).size == 2 && Shrink(Shrink(q, 1), 2).cached == map[]
  {
    var q := AllFree(config);
    assert q.free[..2] == [0, 1] && q.free[2..] == [2];
    DeficitValue(3, 1);
    DeleteShrinksMap(q, 2);
    LastOneGoes(Shrink(q, 1), 2);
  }

  lemma LastOneGoes(q: Queue, id: Id)
    requires q.size == 1 && q.free == [id] && q.dirty == [] && q.cached.Keys == {id}
    ensures Shrink(q, 2).size == 2 && Shrink(q, 2).cached == map[]
  {
    DeficitValue(1, 2);
    DeleteShrinksMap(q, Deficit(1, 2));
    assert q.free[..1] == [id];
  }
}
