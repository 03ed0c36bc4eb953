/** Waiting for a notification by id. Every section that holds the mutex is one step. */
module SynchronizerModel {
  import opened AVBufferCommon

  type Id = int
  type Result = int

  datatype Sync = Sync(waitSet: set<Id>, syncMap: map<Id, Result>)

  function Register(s: Sync, id: Id): Sync {
    s.(waitSet := s.waitSet + {id})
  }

  /** Ignored unless the id waits. */
  function Notify(s: Sync, id: Id, r: Result): Sync {
    if id !in s.waitSet then s
    else Sync(s.waitSet - {id}, if id in s.syncMap then s.syncMap else s.syncMap[id := r])
  }

  function Consume(s: Sync, id: Id): Sync {
    s.(syncMap := s.syncMap - {id})
  }

  /** A wait given up, by timeout or because its operation refused to start. */
  function GiveUp(s: Sync, id: Id): Sync {
    s.(waitSet := s.waitSet - {id})
  }

  class Synchronizer {
    var waitSet_: set<Id>
    var syncMap_: map<Id, Result>

    function State(): Sync
      reads this
    {
      Sync(waitSet_, syncMap_)
    }

    constructor ()
      ensures State() == Sync({}, map[])
    {
      waitSet_, syncMap_ := {}, map[];
    }

    /** The opening of a wait. `started` is what the operation to wait for answers. */
    method BeginWait(syncId: Id, started: bool) returns (waiting: bool)
      modifies this
      ensures waiting == started
      ensures State() == if started then Register(old(State()), syncId) else GiveUp(Register(old(State()), syncId), syncId)
    {
      waitSet_ := waitSet_ + {syncId};
      if !started {
        waitSet_ := waitSet_ - {syncId};
        return false;
      }
      return true;
    }

    /** The end of a timed wait: the result if there is one, else the wait is given up. */
    method EndWait(syncId: Id) returns (rtv: bool, result: Result)
      modifies this
      ensures rtv <==> syncId in old(syncMap_)
      ensures rtv ==> result == old(syncMap_)[syncId] && State() == Consume(old(State()), syncId)
      ensures !rtv ==> State() == GiveUp(old(State()), syncId)
    {
      rtv, result := syncId in syncMap_, 0;
      if rtv {
        result := syncMap_[syncId];
        syncMap_ := syncMap_ - {syncId};
      } else {
        waitSet_ := waitSet_ - {syncId};
      }
    }

    method NotifyWaiter(syncId: Id, result: Result)
      modifies this
      ensures State() == Notify(old(State()), syncId, result)
    {
      if syncId in waitSet_ {
        waitSet_ := waitSet_ - {syncId};
        if syncId !in syncMap_ {
          syncMap_ := syncMap_[syncId := result];
        }
      }
    }
  }

  // ---------- Interleavings ----------

  datatype Op =
    | OpRegister(id: Id)
    | OpRefused(id: Id)  // a wait whose operation refuses to start
    | OpNotify(id: Id, result: Result)
    | OpConsume(id: Id)
    | OpGiveUp(id: Id)

  function Apply(s: Sync, op: Op): Sync {
    match op
    case OpRegister(id) => Register(s, id)
    case OpRefused(id) => GiveUp(Register(s, id), id)
    case OpNotify(id, r) => Notify(s, id, r)
    case OpConsume(id) => Consume(s, id)
    case OpGiveUp(id) => GiveUp(s, id)
  }

  /**
   * The synchronizer with its history: all notifications so far, and for every pending waiter how many
   * notifications had been made when it registered.
   */
  datatype World = World(sync: Sync, notified: seq<(Id, Result)>, pending: map<Id, nat>)

  /** At most one waiter per id; a wait ends with a result if there is one, and is given up only without. */
  predicate Enabled(w: World, op: Op) {
    match op
    case OpRegister(id) => id !in w.pending
    case OpRefused(id) => id !in w.pending
    case OpNotify(_, _) => true
    case OpConsume(id) => id in w.pending && id in w.sync.syncMap
    case OpGiveUp(id) => id in w.pending && id !in w.sync.syncMap
  }

  function Step(w: World, op: Op): World {
    var w' := w.(sync := Apply(w.sync, op));
    match op
    case OpRegister(id) => w'.(pending := w.pending[id := |w.notified|])
    case OpRefused(_) => w'
    case OpNotify(id, r) => w'.(notified := w.notified + [(id, r)])
    case OpConsume(id) => w'.(pending := w.pending - {id})
    case OpGiveUp(id) => w'.(pending := w.pending - {id})
  }

  /** The first notification of `id` at or after position `from`. */
  function FirstSince(notified: seq<(Id, Result)>, id: Id, from: nat): Option<Result>
    decreases |notified| - from
  {
    if from >= |notified| then None
    else if notified[from].0 == id then Some(notified[from].1)
    else FirstSince(notified, id, from + 1)
  }

  lemma {:induction false} FirstSinceAppend(notified: seq<(Id, Result)>, e: (Id, Result), id: Id, from: nat)
    requires from <= |notified|
    ensures FirstSince(notified + [e], id, from) ==
            if FirstSince(notified, id, from).Some? then FirstSince(notified, id, from)
            else if e.0 == id then Some(e.1) else None
    decreases |notified| - from
  {
    if from < |notified| {
      FirstSinceAppend(notified, e, id, from + 1);
    } else {
      assert FirstSince(notified + [e], id, from + 1) == None;
    }
  }

  /**
   * A waiter is pending exactly while its id is in the wait set or the result map, never in both; in the map its
   * result is the first notification since it registered, and in the set there was none.
   */
  ghost predicate Inv(w: World) {
    && w.sync.waitSet !! w.sync.syncMap.Keys
    && w.sync.waitSet + w.sync.syncMap.Keys == w.pending.Keys
    && forall id | id in w.pending ::
         && w.pending[id] <= |w.notified|
         && FirstSince(w.notified, id, w.pending[id]) ==
              if id in w.sync.syncMap then Some(w.sync.syncMap[id]) else None
  }

  lemma StepKeepsInv(w: World, op: Op)
    requires Inv(w) && Enabled(w, op)
    ensures Inv(Step(w, op))
  {
    match op
    case OpNotify(id, r) =>
      forall x | x in w.pending
        ensures FirstSince(w.notified + [(id, r)], x, w.pending[x]) ==
                if FirstSince(w.notified, x, w.pending[x]).Some? then FirstSince(w.notified, x, w.pending[x])
                else if id == x then Some(r) else None
      {
        FirstSinceAppend(w.notified, (id, r), x, w.pending[x]);
      }
    case _ =>
  }

  ghost predicate Executable(w: World, ops: seq<Op>)
    decreases |ops|
  {
    ops == [] || (Enabled(w, ops[0]) && Executable(Step(w, ops[0]), ops[1..]))
  }

  ghost function After(w: World, ops: seq<Op>): World
    decreases |ops|
  {
    if ops == [] then w else After(Step(w, ops[0]), ops[1..])
  }

  lemma {:induction false} RunKeepsInv(w: World, ops: seq<Op>)
    requires Inv(w) && Executable(w, ops)
    ensures Inv(After(w, ops))
    decreases |ops|
  {
    if ops != [] {
      StepKeepsInv(w, ops[0]);
      RunKeepsInv(Step(w, ops[0]), ops[1..]);
    }
  }

  /**
   * In every interleaving, a wait that ends with a result gets the first notification made after it registered,
   * and a wait is given up only if there was none: no late or unsolicited notification satisfies a later wait.
   */
  lemma ResultIsFirstSinceRegistered(ops: seq<Op>, id: Id)
    requires Executable(World(Sync({}, map[]), [], map[]), ops)
    ensures var w := After(World(Sync({}, map[]), [], map[]), ops);
            && (Enabled(w, OpConsume(id)) ==>
                  FirstSince(w.notified, id, w.pending[id]) == Some(w.sync.syncMap[id]))
            && (Enabled(w, OpGiveUp(id)) ==> FirstSince(w.notified, id, w.pending[id]) == None)
  {
    RunKeepsInv(World(Sync({}, map[]), [], map[]), ops);
  }

  /** A notification counts exactly when the id waits; the first result stays until it is taken. */
  lemma NotifyCountsIff(s: Sync, id: Id, r: Result)
    ensures var s' := Notify(s, id, r);
            && (s' != s <==> id in s.waitSet)
            && (id in s.waitSet ==> id !in s'.waitSet && id in s'.syncMap)
            && (id in s.waitSet && id !in s.syncMap ==> s'.syncMap[id] == r)
            && (id in s.syncMap ==> id in s'.syncMap && s'.syncMap[id] == s.syncMap[id])
            && (forall x | x != id :: (x in s'.waitSet <==> x in s.waitSet) && (x in s'.syncMap <==> x in s.syncMap))
  {
  }

  // ---------- Several waiters on one id ----------

  /** A notification, present or to come, can satisfy a waiter of the id. */
  predicate Registered(s: Sync, id: Id) {
    id in s.waitSet || id in s.syncMap
  }

  /** The step by which a waiter of the id leaves: with the result if there is one, else giving up. */
  function Leaving(s: Sync, id: Id): Op {
    if id in s.syncMap then OpConsume(id) else OpGiveUp(id)
  }

  /**
   * When one of `m` waiters of an id leaves, the others stay registered exactly when there are none, or a result was
   * there to take and somebody has registered again since it came.
   */
  lemma WaitersStayRegisteredIff(s: Sync, id: Id, m: nat)
    requires m > 0 && Registered(s, id)
    ensures (m > 1 ==> Registered(Apply(s, Leaving(s, id)), id)) <==>
            m == 1 || (id in s.syncMap && id in s.waitSet)
  {
  }

  /** A refused wait takes the registration of the `m` waiters before it along, unless their result is there already. */
  lemma RefusalKeepsWaitersIff(s: Sync, id: Id, m: nat)
    requires m > 0 ==> Registered(s, id)
    ensures (m > 0 ==> Registered(Apply(s, OpRefused(id)), id)) <==> m == 0 || id in s.syncMap
  {
  }

  function ApplyAll(s: Sync, ops: seq<Op>): Sync
    decreases |ops|
  {
    if ops == [] then s else ApplyAll(Apply(s, ops[0]), ops[1..])
  }

  /**
   * An id that is registered nowhere stays so over every run, of any steps of anybody, that holds no new wait for it:
   * until then no notification reaches the waiters that are left. A new wait and a notification do.
   */
  lemma {:induction false} StrandedUntilNextWait(s: Sync, id: Id, ops: seq<Op>, r: Result)
    requires !Registered(s, id) && forall op | op in ops :: op != OpRegister(id)
    ensures !Registered(ApplyAll(s, ops), id)
    ensures id in ApplyAll(s, ops + [OpRegister(id), OpNotify(id, r)]).syncMap
    decreases |ops|
  {
    var ends := [OpRegister(id), OpNotify(id, r)];
    if ops == [] {
      assert ops + ends == ends && ends[1..] == [OpNotify(id, r)] && ends[1..][1..] == [];
      assert ApplyAll(s, ends) == ApplyAll(Register(s, id), [OpNotify(id, r)]);
      assert ApplyAll(Register(s, id), [OpNotify(id, r)]) == Notify(Register(s, id), id, r);
    } else {
      assert ops[0] in ops && forall op | op in ops[1..] :: op in ops;
      assert (ops + ends)[1..] == ops[1..] + ends;
      StrandedUntilNextWait(Apply(s, ops[0]), id, ops[1..], r);
    }
  }

  /**
   * Two waiters on one id, and nothing else: the first to wake takes the only result, and the other is out of reach
   * of every notification until the id is waited for again.
   */
  lemma SecondWaiterIsStranded(id: Id, r: Result, later: seq<Op>, again: Result)
    requires forall op | op in later :: op != OpRegister(id)
    ensures var s := Apply(Notify(Register(Register(Sync({}, map[]), id), id), id, r), OpConsume(id));
            && !Registered(s, id) && !Registered(ApplyAll(s, later), id)
            && id in ApplyAll(s, later + [OpRegister(id), OpNotify(id, again)]).syncMap
  {
    var s := Apply(Notify(Register(Register(Sync({}, map[]), id), id), id, r), OpConsume(id));
    StrandedUntilNextWait(s, id, later, again);
  }

  /** The first of two waiters times out before any notification: the other is not registered any more. */
  lemma TimeoutStrandsOther(id: Id)
    ensures !Registered(Apply(Register(Register(Sync({}, map[]), id), id), OpGiveUp(id)), id)
  {
  }
}
