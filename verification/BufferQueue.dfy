/**
 * The buffer queue object. Every mutex-held section is a method proved to act on the object's fields
 * as the corresponding function of BufferQueueSpec acts on a queue value.
 */
module BufferQueue {
  import opened AVBufferCommon
  import opened Sequences
  import opened BufferQueueSpec
  import opened BufferQueueInvariant

  class AVBufferQueueImpl {
    var size_: nat
    var memoryType_: MemoryType
    var cachedBufferMap_: BufferMap
    var freeBufferList_: seq<Id>
    var dirtyBufferList_: seq<Id>
    // whether the respective listener is installed
    var brokerListener_: bool
    var consumerListener_: bool

    ghost function State(): Queue
      reads this
    {
      Queue(size_, memoryType_, cachedBufferMap_, freeBufferList_, dirtyBufferList_)
    }

    ghost predicate Valid()
      reads this
    {
      Inv(State()) && size_ <= MAX_QUEUE_SIZE
    }

    constructor (size: nat, memoryType: MemoryType)
      ensures Valid() && cachedBufferMap_ == map[] && size_ == Min(size, MAX_QUEUE_SIZE)
      ensures memoryType_ == memoryType && !brokerListener_ && !consumerListener_
    {
      size_ := if size > MAX_QUEUE_SIZE then MAX_QUEUE_SIZE else size;
      memoryType_ := memoryType;
      cachedBufferMap_ := map[];
      freeBufferList_, dirtyBufferList_ := [], [];
      brokerListener_, consumerListener_ := false, false;
    }

    // ---------- Containers ----------

    method DeleteCachedBufferById(uniqueId: Id)
      modifies this`cachedBufferMap_
      ensures cachedBufferMap_ == old(cachedBufferMap_) - {uniqueId}
    {
      if uniqueId in cachedBufferMap_ {
        cachedBufferMap_ := cachedBufferMap_ - {uniqueId};
      }
    }

    method PopFromFreeBufferList(config: Config) returns (buffer: Option<AVBuffer>)
      requires Valid()
      modifies this`freeBufferList_
      ensures buffer.None? <==> old(freeBufferList_) == []
      ensures buffer.None? ==> freeBufferList_ == old(freeBufferList_)
      ensures buffer.Some? ==>
        var i := PopIndex(old(State()), config);
        buffer == Some(AVBuffer(old(freeBufferList_)[i])) && freeBufferList_ == RemoveAt(old(freeBufferList_), i)
    {
      var i := 0;
      while i < |freeBufferList_|
        invariant 0 <= i <= |freeBufferList_| && freeBufferList_ == old(freeBufferList_)
        invariant forall j :: 0 <= j < i ==> !FitsIn(config, cachedBufferMap_[freeBufferList_[j]].config)
      {
        var id := freeBufferList_[i];
        if FitsIn(config, cachedBufferMap_[id].config) {
          buffer := Some(cachedBufferMap_[id].buffer);
          freeBufferList_ := RemoveAt(freeBufferList_, i);
          return;
        }
        i := i + 1;
      }
      if freeBufferList_ == [] {
        return None;
      }
      buffer := Some(cachedBufferMap_[freeBufferList_[0]].buffer);
      freeBufferList_ := RemoveAt(freeBufferList_, 0);
    }

    method InsertFreeBufferInOrder(uniqueId: Id)
      requires Valid() && uniqueId in cachedBufferMap_
      modifies this`freeBufferList_
      ensures freeBufferList_ == InsertInOrder(cachedBufferMap_, old(freeBufferList_), uniqueId)
    {
      var i := 0;
      while i < |freeBufferList_|
        invariant 0 <= i <= |freeBufferList_| && freeBufferList_ == old(freeBufferList_)
        invariant forall j :: 0 <= j < i ==>
          (freeBufferList_[j] == uniqueId ||
           cachedBufferMap_[freeBufferList_[j]].config.capacity < cachedBufferMap_[uniqueId].config.capacity)
      {
        var id := freeBufferList_[i];
        if id != uniqueId && cachedBufferMap_[id].config.capacity >= cachedBufferMap_[uniqueId].config.capacity {
          freeBufferList_ := freeBufferList_[..i] + [uniqueId] + freeBufferList_[i..];
          return;
        }
        i := i + 1;
      }
      freeBufferList_ := freeBufferList_ + [uniqueId];
    }

    ghost function Without(cached: BufferMap, ids: seq<Id>): BufferMap {
      cached - ToSet(ids)
    }

    lemma WithoutOneMore(cached: BufferMap, ids: seq<Id>, k: nat)
      requires k < |ids|
      ensures Without(cached, ids[..k]) - {ids[k]} == Without(cached, ids[..k + 1])
    {
      assert ids[..k + 1] == ids[..k] + [ids[k]];
      assert ToSet(ids[..k + 1]) == ToSet(ids[..k]) + {ids[k]};
    }

    lemma WithoutNone(cached: BufferMap, ids: seq<Id>)
      ensures Without(cached, ids[..0]) == cached
    {
    }

    lemma WithoutBoth(q: Queue, count: nat)
      ensures Without(Without(q.cached, q.free[..FreeDrops(q, count)]), q.dirty[..DirtyDrops(q, count)]) ==
              q.cached - DroppedIds(q, count)
    {
    }

    method DeleteBuffers(count: nat)
      modifies this`cachedBufferMap_, this`freeBufferList_, this`dirtyBufferList_
      ensures State() == Delete(old(State()), count)
    {
      hide Mark, Lowest;
      ghost var q := State();
      var left := DropFreeHeads(count);
      left := DropDirtyHeads(left);
      WithoutBoth(q, count);
      assert left == Marks(q, count);
      assert cachedBufferMap_ == q.cached - DroppedIds(q, count);
      MarkLowest(left);
    }

    /** The first loop of a deletion. Returns how many deletions are left to do. */
    method DropFreeHeads(count: nat) returns (left: nat)
      modifies this`cachedBufferMap_, this`freeBufferList_
      ensures left == count - Min(count, |old(freeBufferList_)|)
      ensures freeBufferList_ == old(freeBufferList_)[Min(count, |old(freeBufferList_)|)..]
      ensures cachedBufferMap_ == Without(old(cachedBufferMap_), old(freeBufferList_)[..count - left])
    {
      hide Without;
      ghost var cached, free := cachedBufferMap_, freeBufferList_;
      WithoutNone(cached, free);
      left := count;
      while left > 0 && freeBufferList_ != []
        invariant 0 <= count - left <= |free| && freeBufferList_ == free[count - left..]
        invariant cachedBufferMap_ == Without(cached, free[..count - left])
      {
        WithoutOneMore(cached, free, count - left);
        DeleteCachedBufferById(freeBufferList_[0]);
        freeBufferList_ := freeBufferList_[1..];
        left := left - 1;
      }
    }

    /** The second loop of a deletion. */
    method DropDirtyHeads(count: nat) returns (left: nat)
      modifies this`cachedBufferMap_, this`dirtyBufferList_
      ensures left == count - Min(count, |old(dirtyBufferList_)|)
      ensures dirtyBufferList_ == old(dirtyBufferList_)[Min(count, |old(dirtyBufferList_)|)..]
      ensures cachedBufferMap_ == Without(old(cachedBufferMap_), old(dirtyBufferList_)[..count - left])
    {
      hide Without;
      ghost var cached, dirty := cachedBufferMap_, dirtyBufferList_;
      WithoutNone(cached, dirty);
      left := count;
      while left > 0 && dirtyBufferList_ != []
        invariant 0 <= count - left <= |dirty| && dirtyBufferList_ == dirty[count - left..]
        invariant cachedBufferMap_ == Without(cached, dirty[..count - left])
      {
        WithoutOneMore(cached, dirty, count - left);
        DeleteCachedBufferById(dirtyBufferList_[0]);
        dirtyBufferList_ := dirtyBufferList_[1..];
        left := left - 1;
      }
    }

    lemma MarkLeastFirst(cached: BufferMap, rest: set<Id>, left: nat, id: Id)
      requires left > 0 && id in rest && rest <= cached.Keys && forall x | x in rest :: id <= x
      ensures Mark(cached, Lowest(rest, left)) ==
              Mark(cached[id := cached[id].(isDeleting := true)], Lowest(rest - {id}, left - 1))
    {
      assert id == Least(rest);
    }

    lemma MarkNone(cached: BufferMap)
      ensures Mark(cached, {}) == cached
    {
    }

    /** The first key in the order of the map. */
    method FirstKey(ids: set<Id>) returns (id: Id)
      requires ids != {}
      ensures id in ids && forall x | x in ids :: id <= x
    {
      LeastExists(ids);
      id :| id in ids && forall x | x in ids :: id <= x;
    }

    /** The last loop of a deletion: marks in ascending id order, as the ordered map is walked. */
    method MarkLowest(count: nat)
      modifies this`cachedBufferMap_
      ensures cachedBufferMap_ == Mark(old(cachedBufferMap_), Lowest(old(cachedBufferMap_).Keys, count))
    {
      var rest := cachedBufferMap_.Keys;
      var left := count;
      hide Mark;
      while left > 0 && rest != {}
        invariant rest <= cachedBufferMap_.Keys
        invariant Mark(cachedBufferMap_, Lowest(rest, left)) ==
                  Mark(old(cachedBufferMap_), Lowest(old(cachedBufferMap_).Keys, count))
        decreases left
      {
        var id := FirstKey(rest);
        MarkLeastFirst(cachedBufferMap_, rest, left, id);
        cachedBufferMap_ := cachedBufferMap_[id := cachedBufferMap_[id].(isDeleting := true)];
        rest, left := rest - {id}, left - 1;
      }
      MarkNone(cachedBufferMap_);
    }

    // ---------- Producer sections ----------

    method CheckConfig(config: Config) returns (ret: Status)
      modifies this`memoryType_
      ensures ret == if ConfigAccepted(old(State()), config) then OK else UnexpectedMemoryType
      ensures memoryType_ == if ret == OK then config.memoryType else old(memoryType_)
    {
      if config.memoryType == UnknownMemory {
        return UnexpectedMemoryType;
      }
      if memoryType_ != UnknownMemory && config.memoryType != memoryType_ {
        return UnexpectedMemoryType;
      }
      memoryType_ := config.memoryType;
      return OK;
    }

    /** Caches a newly created buffer as released; the callers then set its state. */
    method AllocBuffer(config: Config, newId: Option<Id>) returns (ret: Status, buffer: Option<AVBuffer>)
      modifies this`cachedBufferMap_
      ensures ret == if CreatedConfig(config).Some? && newId.Some? then OK else CreateBufferFailed
      ensures ret == OK ==> buffer == Some(AVBuffer(newId.value))
      ensures ret == OK ==>
        cachedBufferMap_ == old(cachedBufferMap_)[newId.value :=
          Element(CreatedConfig(config).value, Released, false, AVBuffer(newId.value))]
      ensures ret != OK ==> buffer == None && cachedBufferMap_ == old(cachedBufferMap_)
    {
      var c := CreatedConfig(config);
      if c.None? || newId.None? {
        return CreateBufferFailed, None;
      }
      var b := AVBuffer(newId.value);
      cachedBufferMap_ := cachedBufferMap_[newId.value := Element(c.value, Released, false, b)];
      return OK, Some(b);
    }

    method RequestReuseBuffer(popped: AVBuffer, config: Config, newId: Option<Id>)
      returns (ret: Status, buffer: Option<AVBuffer>)
      requires popped.uid in cachedBufferMap_ && cachedBufferMap_[popped.uid].buffer == popped
      modifies this`cachedBufferMap_
      ensures Outcome(ret, buffer, State()) == Reuse(old(State()), popped.uid, config, newId)
    {
      var uniqueId := popped.uid;
      buffer := Some(popped);
      if FitsIn(config, cachedBufferMap_[uniqueId].config) {
        var e := cachedBufferMap_[uniqueId];
        cachedBufferMap_ := cachedBufferMap_[uniqueId := e.(config := e.config.(size := config.size))];
      } else {
        DeleteCachedBufferById(uniqueId);
        ret, buffer := AllocBuffer(config, newId);
        if ret != OK {
          return;
        }
      }
      uniqueId := buffer.value.uid;
      cachedBufferMap_ := SetState(cachedBufferMap_, uniqueId, Requested);
      ret := OK;
    }

    /** The last steps of a request that found no buffer to reuse. */
    method AllocRequested(config: Config, newId: Option<Id>) returns (ret: Status, buffer: Option<AVBuffer>)
      modifies this`cachedBufferMap_
      ensures Outcome(ret, buffer, State()) == Alloc(old(State()), config, newId)
    {
      ret, buffer := AllocBuffer(config, newId);
      if ret == OK {
        cachedBufferMap_ := SetState(cachedBufferMap_, buffer.value.uid, Requested);
      }
    }

    /** The two steps that open a request and are repeated after the wait. */
    method TryReuse(config: Config, newId: Option<Id>) returns (served: bool, ret: Status, buffer: Option<AVBuffer>)
      requires Valid()
      modifies this`cachedBufferMap_, this`freeBufferList_
      ensures served <==> old(freeBufferList_) != []
      ensures served ==> Outcome(ret, buffer, State()) == TakeFree(old(State()), config, newId)
      ensures !served ==> State() == old(State())
    {
      buffer := PopFromFreeBufferList(config);
      served, ret := buffer.Some?, OK;
      if served {
        ret, buffer := RequestReuseBuffer(buffer.value, config, newId);
      }
    }

    /** A request up to the condition wait; MustWait says that the wait is next. */
    method RequestBufferBegin(config: Config, newId: Option<Id>) returns (ret: Status, buffer: Option<AVBuffer>)
      requires Valid() && (newId.Some? ==> newId.value !in cachedBufferMap_)
      modifies this
      ensures Valid() && Outcome(ret, buffer, State()) == RequestBegin(old(State()), config, newId)
      ensures unchanged(`brokerListener_) && unchanged(`consumerListener_)
    {
      assert forall id | id in freeBufferList_ :: id in cachedBufferMap_;
      hide Agree, TakeFree;
      RequestKeepsInv(State(), config, newId);
      ret := CheckConfig(config);
      if ret != OK {
        return ret, None;
      }
      var served;
      served, ret, buffer := TryReuse(config, newId);
      if served {
        return;
      }
      if |cachedBufferMap_| >= size_ {
        return MustWait, None;
      }
      ret, buffer := AllocRequested(config, newId);
    }

    /** The rest of a request once the wait is over. */
    method RequestBufferResume(config: Config, newId: Option<Id>) returns (ret: Status, buffer: Option<AVBuffer>)
      requires Valid() && (newId.Some? ==> newId.value !in cachedBufferMap_)
      modifies this
      ensures Valid() && Outcome(ret, buffer, State()) == RequestResume(old(State()), config, newId)
      ensures unchanged(`brokerListener_) && unchanged(`consumerListener_)
    {
      assert forall id | id in freeBufferList_ :: id in cachedBufferMap_;
      hide Agree, TakeFree;
      RequestKeepsInv(State(), config, newId);
      var served;
      served, ret, buffer := TryReuse(config, newId);
      if served {
        return;
      }
      if |cachedBufferMap_| >= size_ {
        return NoFreeBuffer, None;
      }
      ret, buffer := AllocRequested(config, newId);
    }

    method CancelBuffer(uniqueId: Id) returns (ret: Status)
      requires Valid()
      modifies this`cachedBufferMap_, this`freeBufferList_
      ensures ret == if uniqueId !in old(cachedBufferMap_) then InvalidBufferId
                     else if old(cachedBufferMap_)[uniqueId].state in {Requested, Pushed} then OK
                     else InvalidBufferState
      ensures ret == OK ==>
        && freeBufferList_ == InsertInOrder(old(cachedBufferMap_), old(freeBufferList_), uniqueId)
        && cachedBufferMap_ == SetState(old(cachedBufferMap_), uniqueId, Released)
      ensures ret != OK ==> State() == old(State())
    {
      if uniqueId !in cachedBufferMap_ {
        return InvalidBufferId;
      }
      if cachedBufferMap_[uniqueId].state != Requested && cachedBufferMap_[uniqueId].state != Pushed {
        return InvalidBufferState;
      }
      InsertFreeBufferInOrder(uniqueId);
      cachedBufferMap_ := SetState(cachedBufferMap_, uniqueId, Released);
      return OK;
    }

    /** The mutex-held part of a push. No buffer with status OK means that a marked buffer was erased. */
    method PushBufferLocked(uniqueId: Id, available: bool, seen: Config)
      returns (ret: Status, buffer: Option<AVBuffer>)
      requires Valid()
      modifies this
      ensures Valid() && Outcome(ret, buffer, State()) == Push(old(State()), uniqueId, available, seen)
      ensures unchanged(`brokerListener_) && unchanged(`consumerListener_)
    {
      PushKeepsInv(State(), uniqueId, available, seen);
      if uniqueId !in cachedBufferMap_ {
        return InvalidBufferId, None;
      }
      var ele := cachedBufferMap_[uniqueId];
      if ele.isDeleting {
        DeleteCachedBufferById(uniqueId);
        return OK, None;
      }
      if available && seen.size < 0 {
        return InvalidBufferSize, None;
      }
      if ele.state != Requested && ele.state != BufferState.Attached {
        return InvalidBufferState, None;
      }
      cachedBufferMap_ := SetState(cachedBufferMap_, uniqueId, Pushed);
      return OK, Some(ele.buffer);
    }

    /** The mutex-held part of a return. */
    method ReturnBufferLocked(uniqueId: Id, available: bool, seen: Config, eos: bool)
      returns (ret: Status, buffer: Option<AVBuffer>)
      requires Valid()
      modifies this
      ensures Valid() && Outcome(ret, buffer, State()) == Return(old(State()), uniqueId, available, seen, eos)
      ensures unchanged(`brokerListener_) && unchanged(`consumerListener_)
    {
      ReturnKeepsInv(State(), uniqueId, available, seen, eos);
      if uniqueId !in cachedBufferMap_ {
        return InvalidBufferId, None;
      }
      var ele := cachedBufferMap_[uniqueId];
      if ele.isDeleting {
        DeleteCachedBufferById(uniqueId);
        return OK, None;
      }
      if ele.state != Pushed {
        return InvalidBufferState, None;
      }
      if !available {
        ret := CancelBuffer(uniqueId);
        return ret, Some(ele.buffer);
      }
      if !eos && seen.size <= 0 {
        return InvalidBufferSize, None;
      }
      cachedBufferMap_ := cachedBufferMap_[uniqueId := ele.(config := seen, state := Returned)];
      dirtyBufferList_ := dirtyBufferList_ + [uniqueId];
      return OK, Some(ele.buffer);
    }

    // ---------- Consumer sections ----------

    method AcquireBuffer() returns (ret: Status, buffer: Option<AVBuffer>)
      requires Valid()
      modifies this
      ensures Valid() && Outcome(ret, buffer, State()) == Acquire(old(State()))
    {
      AcquireKeepsInv(State());
      if dirtyBufferList_ == [] {
        return NoDirtyBuffer, None;
      }
      buffer := Some(cachedBufferMap_[dirtyBufferList_[0]].buffer);
      dirtyBufferList_ := dirtyBufferList_[1..];
      cachedBufferMap_ := SetState(cachedBufferMap_, buffer.value.uid, BufferState.Acquired);
      ret := OK;
    }

    method ReleaseBuffer(uniqueId: Id) returns (ret: Status, buffer: Option<AVBuffer>)
      requires Valid()
      modifies this
      ensures Valid() && Outcome(ret, buffer, State()) == Release(old(State()), uniqueId)
      ensures unchanged(`brokerListener_) && unchanged(`consumerListener_)
    {
      ReleaseKeepsInv(State(), uniqueId);
      if uniqueId !in cachedBufferMap_ {
        return InvalidBufferId, None;
      }
      var ele := cachedBufferMap_[uniqueId];
      if ele.state != BufferState.Acquired && ele.state != BufferState.Attached {
        return InvalidBufferState, None;
      }
      if ele.isDeleting {
        DeleteCachedBufferById(uniqueId);
        return OK, None;
      }
      InsertFreeBufferInOrder(uniqueId);
      cachedBufferMap_ := SetState(cachedBufferMap_, uniqueId, Released);
      return OK, Some(ele.buffer);
    }

    method DetachBuffer(uniqueId: Id, force: bool) returns (ret: Status)
      modifies this`cachedBufferMap_
      ensures Outcome(ret, None, State()) == Detach(old(State()), uniqueId, force)
    {
      if uniqueId !in cachedBufferMap_ {
        return InvalidBufferId;
      }
      var ele := cachedBufferMap_[uniqueId];
      if !force && ele.state != Requested && ele.state != BufferState.Acquired {
        return InvalidBufferState;
      }
      cachedBufferMap_ := cachedBufferMap_ - {uniqueId};
      return OK;
    }

    method SetQueueSize(size: nat) returns (ret: Status)
      requires Valid()
      modifies this
      ensures Valid()
      ensures ret == if 0 < size <= MAX_QUEUE_SIZE && size != old(size_) then OK else InvalidBufferSize
      ensures State() == if ret != OK then old(State())
                         else if size > old(size_) then old(State()).(size := size)
                         else Shrink(old(State()), size)
    {
      hide Agree, Delete;
      if !(0 < size <= MAX_QUEUE_SIZE && size != size_) {
        return InvalidBufferSize;
      }
      if size > size_ {
        ResizeKeepsInv(State(), size);
        size_ := size;
      } else {
        ShrinkKeepsInv(State(), size);
        DeleteBuffers(size_ - size);
        size_ := size;
      }
      return OK;
    }

    // ---------- Attach ----------

    method AttachBufferLocked(uniqueId: Id, config: Config) returns (ret: Status, buffer: Option<AVBuffer>)
      requires Valid()
      modifies this
      ensures Valid() && Outcome(ret, buffer, State()) == Attach(old(State()), uniqueId, config)
      ensures unchanged(`brokerListener_) && unchanged(`consumerListener_)
    {
      hide Agree, Delete;
      AttachKeepsInv(State(), uniqueId, config);
      if uniqueId in cachedBufferMap_ {
        return InvalidBufferId, None;
      }
      ret := CheckConfig(config);
      if ret != OK {
        return ret, None;
      }
      var b := AVBuffer(uniqueId);
      var ele := Element(config, BufferState.Attached, false, b);
      var cachedCount, queueSize := |cachedBufferMap_|, size_;
      if cachedCount >= queueSize {
        var validCount := |dirtyBufferList_| + |freeBufferList_|;
        var toBeDeleteCount := cachedCount - queueSize;
        if validCount > toBeDeleteCount {
          DeleteBuffers(toBeDeleteCount + 1);
          cachedBufferMap_ := cachedBufferMap_[uniqueId := ele];
        } else {
          return OutOfRange, None;
        }
      } else {
        cachedBufferMap_ := cachedBufferMap_[uniqueId := ele];
      }
      return OK, Some(b);
    }

    /** A whole push by one thread: the locked part, then the broker listener or a return. */
    method PushBuffer(uniqueId: Id, available: bool, seen: Config, eos: bool) returns (ret: Status)
      requires Valid()
      modifies this
      ensures Valid() && unchanged(`brokerListener_) && unchanged(`consumerListener_)
      ensures var p := Push(old(State()), uniqueId, available, seen);
              if p.status != OK || p.buffer.None? || (available && brokerListener_) then
                ret == p.status && State() == p.queue
              else
                var r := Return(p.queue, uniqueId, available, seen, eos);
                && State() == r.queue
                && ret == if r.status == OK && r.buffer.Some? && available && !consumerListener_
                          then NoConsumerListener else r.status
    {
      var buffer: Option<AVBuffer>;
      ret, buffer := PushBufferLocked(uniqueId, available, seen);
      if ret != OK || buffer.None? {
        return;
      }
      if available && brokerListener_ {
        return OK;
      }
      ret, buffer := ReturnBufferLocked(uniqueId, available, seen, eos);
      if ret != OK || buffer.None? || !available {
        return;
      }
      if !consumerListener_ {
        return NoConsumerListener;
      }
      return OK;
    }

    /**
     * A whole attach by one thread. The queue stays consistent exactly when the call is not an admitted, filled,
     * non-empty (or empty end-of-stream) attach that finds neither a broker nor a consumer listener.
     */
    method AttachBuffer(uniqueId: Id, config: Config, isFilled: bool, eos: bool) returns (ret: Status)
      requires Valid()
      modifies this
      ensures Valid() <==>
        !(&& Attach(old(State()), uniqueId, config).status == OK
          && isFilled && !brokerListener_ && !consumerListener_
          && (config.size > 0 || (eos && config.size == 0)))
      ensures Attach(old(State()), uniqueId, config).status != OK ==>
        ret == Attach(old(State()), uniqueId, config).status && State() == Attach(old(State()), uniqueId, config).queue
      ensures ret == OK && !isFilled ==> uniqueId in freeBufferList_
      ensures ret == OK && isFilled ==>
        if brokerListener_ then uniqueId in cachedBufferMap_ && cachedBufferMap_[uniqueId].state == Pushed
        else dirtyBufferList_ != [] && dirtyBufferList_[|dirtyBufferList_| - 1] == uniqueId
      ensures ret != OK && isFilled && Attach(old(State()), uniqueId, config).status == OK ==>
        uniqueId !in cachedBufferMap_
      ensures unchanged(`brokerListener_) && unchanged(`consumerListener_)
    {
      var buffer: Option<AVBuffer>;
      ret, buffer := AttachBufferLocked(uniqueId, config);
      if ret != OK {
        return;
      }
      assert AttachedEntry(uniqueId, config);
      if isFilled {
        ret := PushFilled(uniqueId, config, eos);
        if ret != OK {
          ForcedDetachIff(State(), uniqueId);
          var ignored := DetachBuffer(uniqueId, true);
        }
        return;
      }
      ret, buffer := ReleaseBuffer(uniqueId);
    }

    ghost predicate AttachedEntry(uniqueId: Id, config: Config)
      reads this
    {
      uniqueId in cachedBufferMap_ &&
      cachedBufferMap_[uniqueId] == Element(config, BufferState.Attached, false, AVBuffer(uniqueId))
    }

    /** The push of a buffer that has just been attached. */
    method PushFilled(uniqueId: Id, config: Config, eos: bool) returns (ret: Status)
      requires Valid() && AttachedEntry(uniqueId, config)
      modifies this
      ensures Valid() && unchanged(`brokerListener_) && unchanged(`consumerListener_)
      ensures uniqueId in cachedBufferMap_ && uniqueId !in freeBufferList_
      ensures ret == if config.size < 0 then InvalidBufferSize
                     else if brokerListener_ then OK
                     else if !eos && config.size == 0 then InvalidBufferSize
                     else if consumerListener_ then OK else NoConsumerListener
      ensures if config.size >= 0 && !brokerListener_ && (eos || config.size > 0) then
                dirtyBufferList_ == old(dirtyBufferList_) + [uniqueId]
              else uniqueId !in dirtyBufferList_
      ensures ret == OK && brokerListener_ ==> cachedBufferMap_[uniqueId].state == Pushed
    {
      ret := PushBuffer(uniqueId, true, config, eos);
    }
  }
}
