/** The shared memory pool: idle and busy blocks, reused by size, allocated up to a limit. */
module SharedMemoryPool {
  import opened AVBufferCommon
  import opened Sequences

  datatype Block = Block(id: nat, size: int)

  datatype Options = Options(memSize: int, maxMemCnt: nat, enableFixedSize: bool)

  /** `live` are the blocks allocated and not yet freed. */
  datatype Pool = Pool(config: Options, idle: seq<Block>, busy: seq<Block>, live: set<Block>)

  const MAX_MEM_SIZE: int := 100 * 1024 * 1024

  // ---------- One attempt to acquire ----------

  function FirstFit(idle: seq<Block>, size: int): (i: nat)
    ensures i <= |idle| && (i < |idle| ==> idle[i].size >= size)
    ensures forall j | 0 <= j < i :: idle[j].size < size
  {
    if idle == [] || idle[0].size >= size then 0 else 1 + FirstFit(idle[1..], size)
  }

  /** Index of the first block of least size. */
  function Smallest(idle: seq<Block>): (i: nat)
    requires idle != []
    ensures i < |idle| && forall j | 0 <= j < |idle| :: idle[i].size <= idle[j].size
    ensures forall j | 0 <= j < i :: idle[i].size < idle[j].size
  {
    var i := |idle| - 1;
    if i == 0 then 0
    else
      var m := Smallest(idle[..i]);
      if idle[i].size < idle[m].size then i else m
  }

  datatype Attempt =
    | Got(block: Block)
    | Empty   // nothing to hand out yet: wait, or give up
    | Failed  // an allocation failed

  /** A block allocated, but in neither list. */
  function Escape(p: Pool, b: Block): Pool {
    p.(live := p.live + {b})
  }

  /** A new block, handed out. */
  function HandNew(p: Pool, b: Block): Pool {
    p.(busy := p.busy + [b], live := p.live + {b})
  }

  /** An idle block freed. */
  function DropIdle(p: Pool, m: nat): Pool
    requires m < |p.idle|
  {
    p.(idle := RemoveAt(p.idle, m), live := p.live - {p.idle[m]})
  }

  /** An idle block handed out. */
  function HandIdle(p: Pool, i: nat): Pool
    requires i < |p.idle|
  {
    p.(idle := RemoveAt(p.idle, i), busy := p.busy + [p.idle[i]])
  }

  predicate Room(p: Pool) {
    |p.busy| + |p.idle| < p.config.maxMemCnt
  }

  /**
   * An idle block that is large enough; else a new one if there is room; and in variable-size mode, room or not,
   * the smallest idle block is freed and another one allocated. `a1` and `a2` are the new ids.
   */
  function Acquire(p: Pool, size: int, a1: Option<nat>, a2: Option<nat>): (Attempt, Pool) {
    var i := FirstFit(p.idle, size);
    if i < |p.idle| then (Got(p.idle[i]), HandIdle(p, i))
    else if Room(p) && a1.None? then (Failed, p)
    else if !p.config.enableFixedSize && p.idle != [] then
      var p1 := if Room(p) then Escape(p, Block(a1.value, size)) else p;
      var p2 := DropIdle(p1, Smallest(p.idle));
      if a2.None? then (Failed, p2) else (Got(Block(a2.value, size)), HandNew(p2, Block(a2.value, size)))
    else if Room(p) then (Got(Block(a1.value, size)), HandNew(p, Block(a1.value, size)))
    else (Empty, p)
  }

  /** What the caller of an acquire sees of an attempt. */
  datatype Acquired =
    | Handed(block: Block)
    | Refused
    | MustWait  // the condition wait is next

  function Answer(attempt: (Attempt, Pool), mayWait: bool): (Acquired, Pool) {
    var r := match attempt.0
      case Got(b) => Handed(b)
      case Failed => Refused
      case Empty => if mayWait then MustWait else Refused;
    (r, attempt.1)
  }

  /** A reset frees the idle blocks; the busy ones come back later. */
  ghost function Emptied(p: Pool): Pool {
    p.(idle := [], live := p.live - ToSet(p.idle))
  }

  function LeastOf(a: nat, b: nat): (r: nat)
    ensures r <= a && r <= b && r in {a, b}
  {
    if a < b then a else b
  }

  /** The pool with `n` more idle blocks, under the given options. */
  ghost function Prepared(p: Pool, option: Options, n: nat, ids: seq<nat>): Pool
    requires n <= |ids|
  {
    Pool(option, p.idle + Fresh(ids, n, option.memSize), p.busy, p.live + ToSet(Fresh(ids, n, option.memSize)))
  }

  lemma PreparedStep(p: Pool, option: Options, n: nat, ids: seq<nat>)
    requires n < |ids|
    ensures var b := Block(ids[n], option.memSize);
            var q := Prepared(p, option, n, ids);
            Prepared(p, option, n + 1, ids) == q.(idle := q.idle + [b], live := q.live + {b})
  {
    var fresh0, b := Fresh(ids, n, option.memSize), Block(ids[n], option.memSize);
    assert ToSet(fresh0 + [b]) == ToSet(fresh0) + {b};
    assert p.idle + (fresh0 + [b]) == p.idle + fresh0 + [b];
  }

  /** A block that is not busy here is freed. */
  function Release(p: Pool, b: Block): Pool {
    if b in p.busy then p.(busy := RemoveAt(p.busy, IndexOf(p.busy, b)), idle := p.idle + [b])
    else p.(live := p.live - {b})
  }

  function IndexOf(s: seq<Block>, b: Block): (i: nat)
    requires b in s
    ensures i < |s| && s[i] == b && b !in s[..i]
  {
    if s[0] == b then 0 else 1 + IndexOf(s[1..], b)
  }

  /** -1 stands for the fixed size. */
  predicate SizeAccepted(o: Options, size: int) {
    (size > 0 || size == -1) && (if o.enableFixedSize then size <= o.memSize else size != -1)
  }

  // ---------- The object ----------

  class AVSharedMemoryPool {
    var option_: Options
    var idleList_: seq<Block>
    var busyList_: seq<Block>
    var inited_: bool
    var forceNonBlocking_: bool
    ghost var live: set<Block>

    ghost function State(): Pool
      reads this
    {
      Pool(option_, idleList_, busyList_, live)
    }

    constructor ()
      ensures State() == Pool(Options(0, 0, true), [], [], {}) && !inited_ && !forceNonBlocking_
    {
      forceNonBlocking_ := false;
      option_ := Options(0, 0, true);
      idleList_, busyList_, inited_ := [], [], false;
      live := {};
    }

    /**
     * Preallocates up to the limit; `ids` are the new blocks, fewer if an allocation fails. The blocks allocated
     * until then stay idle in a pool that is not initialised.
     */
    method Init(option: Options, preAlloc: nat, ids: seq<nat>) returns (ret: int)
      requires NoDuplicates(ids)
      modifies this
      ensures inited_ == (old(inited_) || ret == 0)
      ensures var accepted := !old(inited_) && option.memSize < MAX_MEM_SIZE && option.maxMemCnt != 0;
              var count := LeastOf(preAlloc, option.maxMemCnt);
              && (ret == 0 <==> accepted && count <= |ids|)
              && State() == if accepted then Prepared(old(State()), option, LeastOf(count, |ids|), ids) else old(State())
    {
      if inited_ || option.memSize >= MAX_MEM_SIZE || option.maxMemCnt == 0 {
        return -1;
      }
      option_ := option;
      var count := LeastOf(preAlloc, option.maxMemCnt);
      ghost var p := State();
      assert p.idle + [] == p.idle && p.live + ToSet([]) == p.live;
      for i := 0 to count
        invariant i <= |ids| && State() == Prepared(p, option, i, ids) && !inited_
      {
        if i >= |ids| {
          return -1;
        }
        var memory := Block(ids[i], option.memSize);
        PreparedStep(p, option, i, ids);
        idleList_ := idleList_ + [memory];
        live := live + {memory};
      }
      inited_ := true;
      return 0;
    }

    /** The walk over the idle list: a block that fits, or the first of the smallest. */
    method Search(size: int) returns (i: nat, minIndex: nat)
      ensures i == FirstFit(idleList_, size)
      ensures i == |idleList_| && idleList_ != [] ==> minIndex == Smallest(idleList_)
    {
      i, minIndex := 0, 0;
      while i < |idleList_|
        invariant 0 <= i <= |idleList_|
        invariant forall j | 0 <= j < i :: idleList_[j].size < size
        invariant i > 0 ==> minIndex < i && minIndex == Smallest(idleList_[..i])
      {
        if idleList_[i].size >= size {
          return;
        }
        assert idleList_[..i + 1][..i] == idleList_[..i];
        if i == 0 || idleList_[i].size < idleList_[minIndex].size {
          minIndex := i;
        }
        i := i + 1;
      }
      assert idleList_[..|idleList_|] == idleList_;
    }

    /** One attempt under the lock, and the block put into the busy list. */
    method DoAcquireMemory(size: int, a1: Option<nat>, a2: Option<nat>) returns (r: Attempt)
      modifies this
      ensures inited_ == old(inited_) && forceNonBlocking_ == old(forceNonBlocking_)
      ensures (r, State()) == Acquire(old(State()), size, a1, a2)
    {
      var i, minIndex := Search(size);
      if i < |idleList_| {
        r := Got(idleList_[i]);
        busyList_ := busyList_ + [idleList_[i]];
        idleList_ := RemoveAt(idleList_, i);
        return;
      }
      r := Empty;
      if |busyList_| + |idleList_| < option_.maxMemCnt {
        if a1.None? {
          return Failed;
        }
        r := Got(Block(a1.value, size));
        live := live + {r.block};
      }
      if !option_.enableFixedSize && idleList_ != [] {
        live := live - {idleList_[minIndex]};
        idleList_ := RemoveAt(idleList_, minIndex);
        if a2.None? {
          return Failed;
        }
        r := Got(Block(a2.value, size));
        live := live + {r.block};
      }
      if r.Got? {
        busyList_ := busyList_ + [r.block];
      }
    }

    /** An acquire up to its first wait: the size check, the fixed size, and one attempt. */
    method AcquireMemory(size: int, blocking: bool, a1: Option<nat>, a2: Option<nat>) returns (r: Acquired)
      modifies this
      ensures forceNonBlocking_ == old(forceNonBlocking_) && inited_ == old(inited_)
      ensures !SizeAccepted(old(option_), size) ==> r == Refused && State() == old(State())
      ensures SizeAccepted(old(option_), size) ==>
        var asked := if old(option_).enableFixedSize then old(option_).memSize else size;
        (r, State()) == Answer(Acquire(old(State()), asked, a1, a2), blocking && !forceNonBlocking_)
    {
      hide Acquire;
      if !SizeAccepted(option_, size) {
        return Refused;
      }
      var asked := if option_.enableFixedSize then option_.memSize else size;
      var attempt := DoAcquireMemory(asked, a1, a2);
      r := if attempt.Got? then Handed(attempt.block)
           else if attempt.Failed? || !blocking || forceNonBlocking_ then Refused
           else MustWait;
    }

    /** One more round of a blocked acquire, after a wait that anything may have ended. */
    method AcquireResumed(asked: int, a1: Option<nat>, a2: Option<nat>) returns (r: Acquired)
      modifies this
      ensures forceNonBlocking_ == old(forceNonBlocking_) && inited_ == old(inited_)
      ensures (r, State()) == if !inited_ || forceNonBlocking_ then (Refused, old(State()))
                              else Answer(Acquire(old(State()), asked, a1, a2), true)
    {
      hide Acquire;
      if !inited_ || forceNonBlocking_ {
        return Refused;
      }
      var attempt := DoAcquireMemory(asked, a1, a2);
      r := if attempt.Got? then Handed(attempt.block) else if attempt.Failed? then Refused else MustWait;
    }

    method SetNonBlocking(enable: bool)
      modifies this`forceNonBlocking_
      ensures forceNonBlocking_ == enable
    {
      forceNonBlocking_ := enable;
    }

    method Reset()
      modifies this
      ensures State() == Emptied(old(State())) && !inited_ && !forceNonBlocking_
    {
      live := live - ToSet(idleList_);
      idleList_, inited_, forceNonBlocking_ := [], false, false;
    }

    method ReleaseMemory(memory: Block)
      modifies this
      ensures State() == Release(old(State()), memory)
    {
      var i := 0;
      while i < |busyList_|
        invariant 0 <= i <= |busyList_| && State() == old(State()) && memory !in busyList_[..i]
      {
        if busyList_[i] == memory {
          FirstIndex(busyList_, memory, i);
          busyList_ := RemoveAt(busyList_, i);
          idleList_ := idleList_ + [memory];
          return;
        }
        assert busyList_[..i + 1] == busyList_[..i] + [busyList_[i]];
        i := i + 1;
      }
      assert busyList_[..|busyList_|] == busyList_;
      live := live - {memory};
    }
  }

  lemma FirstIndex(s: seq<Block>, b: Block, i: nat)
    requires i < |s| && s[i] == b && b !in s[..i]
    ensures IndexOf(s, b) == i
  {
  }

  function Fresh(ids: seq<nat>, n: nat, size: int): seq<Block>
    requires n <= |ids|
  {
    if n == 0 then [] else Fresh(ids, n - 1, size) + [Block(ids[n - 1], size)]
  }

  // ---------- What every step keeps ----------

  ghost function Managed(p: Pool): multiset<Block> {
    multiset(p.busy) + multiset(p.idle)
  }

  /** Managed blocks are distinct, alive and within the limit; in fixed-size mode they are all of one size and all there is. */
  ghost predicate Inv(p: Pool) {
    && |p.busy| + |p.idle| <= p.config.maxMemCnt
    && (forall b :: Managed(p)[b] <= 1 && (b in Managed(p) ==> b in p.live))
    && (p.config.enableFixedSize ==> Whole(p) && forall b | b in p.live :: b.size == p.config.memSize)
  }

  /** Nothing allocated has escaped the two lists. */
  ghost predicate Whole(p: Pool) {
    forall b :: b in p.live <==> b in Managed(p)
  }

  /** New ids are new, and different from each other. */
  ghost predicate NewIds(p: Pool, a1: Option<nat>, a2: Option<nat>) {
    && (a1.Some? ==> forall b | b in p.live :: b.id != a1.value)
    && (a2.Some? ==> forall b | b in p.live :: b.id != a2.value)
    && (a1.Some? && a2.Some? ==> a1.value != a2.value)
  }

  /** In fixed-size mode the request is raised to the fixed size. */
  ghost predicate SizeAsked(p: Pool, size: int) {
    p.config.enableFixedSize ==> size == p.config.memSize
  }

  lemma RemoveAtMultiset(s: seq<Block>, i: nat)
    requires i < |s|
    ensures multiset(RemoveAt(s, i)) == multiset(s) - multiset{s[i]} && s[i] in multiset(s)
  {
    assert s == s[..i] + [s[i]] + s[i + 1..];
  }

  /** A block allocated for the request and overwritten by the exchange is lost. */
  ghost predicate Leaks(p: Pool, size: int, a1: Option<nat>) {
    && FirstFit(p.idle, size) == |p.idle| && p.idle != []
    && Room(p) && a1.Some?
    && !p.config.enableFixedSize
  }

  lemma HandNewKeeps(p: Pool, b: Block)
    requires Inv(p) && Room(p) && b !in p.live && (p.config.enableFixedSize ==> b.size == p.config.memSize)
    ensures Inv(HandNew(p, b)) && (Whole(HandNew(p, b)) <==> Whole(p))
  {
    var p' := HandNew(p, b);
    assert Managed(p') == Managed(p) + multiset{b};
    forall x
      ensures x in p'.live <==> x in p.live || x == b
      ensures x in Managed(p') <==> x in Managed(p) || x == b
    {
    }
    if Whole(p') {
      assert forall x | x in p.live :: x in Managed(p);
    }
  }

  lemma DropIdleKeeps(p: Pool, m: nat)
    requires Inv(p) && m < |p.idle| && !p.config.enableFixedSize
    ensures Inv(DropIdle(p, m)) && Room(DropIdle(p, m)) && (Whole(DropIdle(p, m)) <==> Whole(p))
  {
    var p', b := DropIdle(p, m), p.idle[m];
    RemoveAtMultiset(p.idle, m);
    assert Managed(p') == Managed(p) - multiset{b} && Managed(p)[b] == 1;
    forall x
      ensures x in p'.live <==> x in p.live && x != b
      ensures x in Managed(p') <==> x in Managed(p) && x != b
    {
    }
    assert b in p.live;
  }

  lemma HandIdleKeeps(p: Pool, i: nat)
    requires Inv(p) && i < |p.idle|
    ensures Inv(HandIdle(p, i)) && (Whole(HandIdle(p, i)) <==> Whole(p))
  {
    RemoveAtMultiset(p.idle, i);
    assert Managed(HandIdle(p, i)) == Managed(p);
  }

  lemma EscapeBreaks(p: Pool, b: Block)
    requires Inv(p) && b !in p.live && !p.config.enableFixedSize
    ensures Inv(Escape(p, b)) && !Whole(Escape(p, b))
  {
    assert b in Escape(p, b).live && b !in Managed(Escape(p, b));
  }

  /** An attempt keeps the invariant, hands out at least the size asked for, and loses a block exactly when it leaks. */
  lemma AcquireStep(p: Pool, size: int, a1: Option<nat>, a2: Option<nat>)
    requires Inv(p) && NewIds(p, a1, a2) && SizeAsked(p, size)
    ensures var (r, p') := Acquire(p, size, a1, a2);
            && Inv(p') && p'.config == p.config
            && (r.Got? ==> r.block.size >= size && p'.busy == p.busy + [r.block])
            && (Whole(p) ==> (Whole(p') <==> !Leaks(p, size, a1)))
  {
    hide Inv, Whole;
    var i := FirstFit(p.idle, size);
    if i < |p.idle| {
      HandIdleKeeps(p, i);
    } else if Room(p) && a1.None? {
    } else if !p.config.enableFixedSize && p.idle != [] {
      var p1 := if Room(p) then Escape(p, Block(a1.value, size)) else p;
      if Room(p) { EscapeBreaks(p, Block(a1.value, size)); }
      DropIdleKeeps(p1, Smallest(p.idle));
      if a2.Some? { HandNewKeeps(DropIdle(p1, Smallest(p.idle)), Block(a2.value, size)); }
    } else if Room(p) {
      HandNewKeeps(p, Block(a1.value, size));
    }
  }

  /** Some idle block is large enough. */
  ghost predicate Fitting(p: Pool, size: int) {
    exists b :: b in p.idle && size <= b.size
  }

  /**
   * What an attempt comes to. It finds a block exactly when an idle one fits, or one may be made and is: within the
   * limit, or in variable-size mode in exchange for an idle one.
   */
  lemma AcquireAnswersIff(p: Pool, size: int, a1: Option<nat>, a2: Option<nat>)
    ensures var answer := Acquire(p, size, a1, a2).0;
            var room, exchange := |p.busy| + |p.idle| < p.config.maxMemCnt, !p.config.enableFixedSize && p.idle != [];
            && (answer.Got? <==> Fitting(p, size) ||
                                 ((room || exchange) && (room ==> a1.Some?) && (exchange ==> a2.Some?)))
            && (answer.Empty? <==> !Fitting(p, size) && !room && !exchange)
  {
    var i := FirstFit(p.idle, size);
    if i < |p.idle| {
      assert p.idle[i] in p.idle;
    }
  }

  /** A caller waits exactly when it may and nothing can be made of the attempt; a failed allocation is a refusal. */
  lemma CallerWaitsIff(p: Pool, size: int, a1: Option<nat>, a2: Option<nat>, mayWait: bool)
    ensures var (r, p') := Answer(Acquire(p, size, a1, a2), mayWait);
            var room, exchange := |p.busy| + |p.idle| < p.config.maxMemCnt, !p.config.enableFixedSize && p.idle != [];
            && (r == MustWait <==> mayWait && !Fitting(p, size) && !room && !exchange)
            && (r.Handed? <==> Fitting(p, size) ||
                               ((room || exchange) && (room ==> a1.Some?) && (exchange ==> a2.Some?)))
            && (r.Handed? ==> p'.busy == p.busy + [r.block])
  {
    hide Acquire, Fitting;
    AcquireAnswersIff(p, size, a1, a2);
    GotIsBusy(p, size, a1, a2);
  }

  lemma GotIsBusy(p: Pool, size: int, a1: Option<nat>, a2: Option<nat>)
    ensures var (r, p') := Acquire(p, size, a1, a2);
            r.Got? ==> p'.busy == p.busy + [r.block]
  {
  }

  /**
   * What an attempt does to the idle blocks: the one that has been idle longest among those that fit is handed out,
   * and nothing is allocated; else none is handed out, and one is freed only in exchange, the smallest.
   */
  lemma AcquireTakes(p: Pool, size: int, a1: Option<nat>, a2: Option<nat>)
    ensures var (answer, p') := Acquire(p, size, a1, a2);
            && (Fitting(p, size) ==>
                  && p'.live == p.live
                  && exists i :: 0 <= i < |p.idle| && answer == Got(p.idle[i]) && p'.idle == RemoveAt(p.idle, i)
                                 && size <= p.idle[i].size && forall j | 0 <= j < i :: p.idle[j].size < size)
            && (!Fitting(p, size) && p'.idle != p.idle ==>
                  !p.config.enableFixedSize &&
                  exists m :: 0 <= m < |p.idle| && p'.idle == RemoveAt(p.idle, m) &&
                              forall b | b in p.idle :: p.idle[m].size <= b.size)
            && (!Fitting(p, size) && answer.Got? ==> answer.block.size == size && answer.block in p'.live)
  {
    var i := FirstFit(p.idle, size);
    if i < |p.idle| {
      assert p.idle[i] in p.idle;
    } else if !p.config.enableFixedSize && p.idle != [] {
      var m := Smallest(p.idle);
      assert forall b | b in p.idle :: p.idle[m].size <= b.size;
    }
  }

  /** In fixed-size mode, -1 and every size up to the fixed one are accepted; in variable-size mode every positive one. */
  lemma SizeAcceptedIff(o: Options, size: int)
    requires 0 < o.memSize
    ensures o.enableFixedSize ==> (SizeAccepted(o, size) <==> size == -1 || (1 <= size <= o.memSize))
    ensures !o.enableFixedSize ==> (SizeAccepted(o, size) <==> size >= 1)
  {
  }

  /** A busy block that is given back becomes the idle one that is found last, and is no longer busy. */
  lemma ReleaseGoesLast(p: Pool, b: Block)
    ensures b in p.busy ==>
      var p' := Release(p, b);
      p'.idle == p.idle + [b] && multiset(p'.busy) == multiset(p.busy) - multiset{b} && p'.live == p.live
    ensures b !in p.busy ==> Release(p, b) == p.(live := p.live - {b})
  {
    if b in p.busy {
      RemoveAtMultiset(p.busy, IndexOf(p.busy, b));
    }
  }

  /**
   * In variable-size mode with room for two blocks, an idle block of 10 and a request for 20: two blocks of 20 are
   * allocated, one is handed out, and the other is in neither list.
   */
  lemma LeakingAttempt()
    ensures var p := Pool(Options(0, 2, false), [Block(1, 10)], [], {Block(1, 10)});
            && Inv(p) && Whole(p) && Leaks(p, 20, Some(2))
            && Acquire(p, 20, Some(2), Some(3)) ==
               (Got(Block(3, 20)), Pool(p.config, [], [Block(3, 20)], {Block(2, 20), Block(3, 20)}))
            && !Whole(Acquire(p, 20, Some(2), Some(3)).1)
  {
    var p := Pool(Options(0, 2, false), [Block(1, 10)], [], {Block(1, 10)});
    assert RemoveAt(p.idle, 0) == [] && FirstFit(p.idle, 20) == 1 && Smallest(p.idle) == 0;
    assert Managed(p) == multiset{Block(1, 10)};
    var p1 := Escape(p, Block(2, 20));
    assert DropIdle(p1, 0) == Pool(p.config, [], [], {Block(2, 20)});
    assert HandNew(DropIdle(p1, 0), Block(3, 20)) == Pool(p.config, [], [Block(3, 20)], {Block(2, 20), Block(3, 20)});
    hide Inv, Whole, Acquire;
    AcquireStep(p, 20, Some(2), Some(3));
  }

  /** The caller gives back a block the pool handed out, or one it does not manage. */
  lemma ReleaseStep(p: Pool, b: Block)
    requires Inv(p) && b !in p.idle
    ensures Inv(Release(p, b)) && Release(p, b).config == p.config
    ensures Whole(p) ==> Whole(Release(p, b))
  {
    if b in p.busy {
      RemoveAtMultiset(p.busy, IndexOf(p.busy, b));
    }
  }

  /** A reset keeps the invariant, and loses nothing that had not been lost. */
  lemma ResetStep(p: Pool)
    requires Inv(p)
    ensures Inv(Emptied(p)) && (Whole(Emptied(p)) <==> Whole(p))
  {
    var p' := Emptied(p);
    forall b
      ensures b in Managed(p') <==> b in p.busy
      ensures b in Managed(p) <==> b in p.busy || b in p.idle
      ensures Managed(p')[b] <= 1
      ensures b in p.busy ==> b !in p.idle
    {
      assert Managed(p)[b] <= 1;
    }
    assert forall b :: b in p'.live <==> b in p.live && b !in p.idle;
    if Whole(p') {
      assert forall b | b in p.idle :: b in Managed(p);
    }
  }

  datatype Op = OpAcquire(size: int, a1: Option<nat>, a2: Option<nat>) | OpRelease(block: Block) | OpReset

  ghost predicate Enabled(p: Pool, op: Op) {
    match op
    case OpAcquire(size, a1, a2) => NewIds(p, a1, a2) && SizeAsked(p, size)
    case OpRelease(b) => b !in p.idle
    case OpReset => true
  }

  ghost function Step(p: Pool, op: Op): Pool {
    match op
    case OpAcquire(size, a1, a2) => Acquire(p, size, a1, a2).1
    case OpRelease(b) => Release(p, b)
    case OpReset => Emptied(p)
  }

  ghost predicate Executable(p: Pool, ops: seq<Op>)
    decreases |ops|
  {
    ops == [] || (Enabled(p, ops[0]) && Executable(Step(p, ops[0]), ops[1..]))
  }

  ghost function After(p: Pool, ops: seq<Op>): Pool
    decreases |ops|
  {
    if ops == [] then p else After(Step(p, ops[0]), ops[1..])
  }

  /**
   * Over every run after one Init: the count stays within the limit; in fixed-size mode every live block has the
   * fixed size and is busy or idle.
   */
  lemma {:induction false} RunKeepsInv(p: Pool, ops: seq<Op>)
    requires Inv(p) && Executable(p, ops)
    ensures Inv(After(p, ops)) && After(p, ops).config == p.config
    decreases |ops|
  {
    if ops != [] {
      if ops[0].OpAcquire? {
        AcquireStep(p, ops[0].size, ops[0].a1, ops[0].a2);
      } else if ops[0].OpRelease? {
        ReleaseStep(p, ops[0].block);
      } else {
        ResetStep(p);
      }
      RunKeepsInv(Step(p, ops[0]), ops[1..]);
    }
  }

  lemma {:induction false} FreshBlocks(ids: seq<nat>, n: nat, size: int)
    requires n <= |ids| && NoDuplicates(ids)
    ensures NoDuplicates(Fresh(ids, n, size)) && |Fresh(ids, n, size)| == n
    ensures forall b | b in Fresh(ids, n, size) :: b.size == size && b.id in ids[..n]
  {
    if n > 0 {
      FreshBlocks(ids, n - 1, size);
      assert ids[..n] == ids[..n - 1] + [ids[n - 1]];
      assert ids[n - 1] !in ids[..n - 1];
    }
  }

  /** A first Init establishes the invariant. */
  lemma InitEstablishes(config: Options, n: nat, ids: seq<nat>)
    requires NoDuplicates(ids) && n <= |ids| && n <= config.maxMemCnt
    ensures var blocks := Fresh(ids, n, config.memSize);
            Inv(Pool(config, blocks, [], ToSet(blocks)))
  {
    var blocks := Fresh(ids, n, config.memSize);
    FreshBlocks(ids, n, config.memSize);
    forall b
      ensures multiset(blocks)[b] <= 1
    {
      DistinctOnce(blocks, b);
    }
  }

  /** The blocks the pool manages are distinct and alive. */
  ghost predicate Sound(p: Pool) {
    forall b :: Managed(p)[b] <= 1 && (b in Managed(p) ==> b in p.live)
  }

  /**
   * Any Init, the first one, a retry after a failed one, or another one after a reset with blocks outstanding,
   * establishes the invariant exactly when the blocks found and the new ones stay within the new limit and, in
   * fixed-size mode, nothing was lost before and every block found has the new size.
   */
  lemma InitKeepsInvIff(p: Pool, option: Options, n: nat, ids: seq<nat>)
    requires Sound(p) && NoDuplicates(ids) && n <= |ids| && forall b | b in p.live :: b.id !in ids
    ensures Inv(Prepared(p, option, n, ids)) <==>
            && |p.busy| + |p.idle| + n <= option.maxMemCnt
            && (option.enableFixedSize ==> Whole(p) && forall b | b in p.live :: b.size == option.memSize)
  {
    var blocks, q := Fresh(ids, n, option.memSize), Prepared(p, option, n, ids);
    FreshBlocks(ids, n, option.memSize);
    assert forall b | b in blocks :: b !in p.live;
    assert Managed(q) == Managed(p) + multiset(blocks);
    PreparedIsSound(p, q, blocks);
    PreparedIsWhole(p, q, blocks);
    PreparedSizes(p, q, blocks, option);
    hide Whole, Sound, Fresh, Managed, Inv;
    InvIsSound(q);
  }

  lemma InvIsSound(p: Pool)
    ensures Inv(p) <==> Sound(p) && |p.busy| + |p.idle| <= p.config.maxMemCnt &&
                        (p.config.enableFixedSize ==> Whole(p) && forall b | b in p.live :: b.size == p.config.memSize)
  {
  }

  lemma PreparedIsSound(p: Pool, q: Pool, blocks: seq<Block>)
    requires Managed(q) == Managed(p) + multiset(blocks) && q.live == p.live + ToSet(blocks)
    requires Sound(p) && NoDuplicates(blocks) && forall b | b in blocks :: b !in p.live
    ensures Sound(q)
  {
    forall b
      ensures Managed(q)[b] <= 1 && (b in Managed(q) ==> b in q.live)
    {
      DistinctOnce(blocks, b);
      assert b in multiset(blocks) <==> b in blocks;
    }
  }

  lemma PreparedIsWhole(p: Pool, q: Pool, blocks: seq<Block>)
    requires Managed(q) == Managed(p) + multiset(blocks) && q.live == p.live + ToSet(blocks)
    requires Sound(p) && forall b | b in blocks :: b !in p.live
    ensures Whole(q) <==> Whole(p)
  {
    forall b
      ensures b in Managed(q) <==> b in Managed(p) || b in blocks
      ensures b in q.live <==> b in p.live || b in blocks
    {
    }
    if Whole(q) {
      assert forall b | b in p.live :: b in Managed(q);
    }
  }

  lemma PreparedSizes(p: Pool, q: Pool, blocks: seq<Block>, option: Options)
    requires q.live == p.live + ToSet(blocks) && forall b | b in blocks :: b.size == option.memSize
    ensures (forall b | b in q.live :: b.size == option.memSize) <==> (forall b | b in p.live :: b.size == option.memSize)
  {
    assert forall b | b in p.live :: b in q.live;
  }

  /** One of two preallocations fails; the retry finds its block and leaves three blocks in a pool for two. */
  lemma RetriedInitExceedsLimit()
    ensures var option := Options(10, 2, true);
            var failed := Prepared(Pool(Options(0, 0, true), [], [], {}), option, 1, [1]);
            var retried := Prepared(failed, option, 2, [2, 3]);
            Inv(failed) && |retried.idle| == 3 > option.maxMemCnt && !Inv(retried)
  {
    var option := Options(10, 2, true);
    var empty := Pool(Options(0, 0, true), [], [], {});
    assert forall b :: b !in Managed(empty);
    InitKeepsInvIff(empty, option, 1, [1]);
    var failed := Prepared(empty, option, 1, [1]);
    FreshBlocks([1], 1, 10);
    FreshBlocks([2, 3], 2, 10);
  }

  lemma {:induction false} DistinctOnce(s: seq<Block>, b: Block)
    requires NoDuplicates(s)
    ensures multiset(s)[b] <= 1
  {
    if s != [] {
      DistinctOnce(s[1..], b);
      assert s == [s[0]] + s[1..] && s[0] !in s[1..];
    }
  }
}
