/**
 * The media clock: an anchor, a rate, pause and resume. Times are integer ticks, the rate is a real number,
 * and conversions to ticks truncate toward zero.
 */
module MediaClock {

  /** The "no time" value. */
  const NONE: int := -1

  /** Ticks in a millisecond. */
  const MSECOND: int := 1_000_000

  /** Rates below this count as zero. */
  const RATE_THRESHOLD: real := 0.000000001

  datatype State = Resumed | Paused

  datatype Clock = Clock(
    state: State,
    priority: int,
    anchorClock: int, anchorMedia: int,
    pausedMedia: int, pausedClock: int,
    rate: real,
    alreadyWait: bool, shouldPreroll: bool,
    seeking: bool, seekingMedia: int,
    minStart: int, maxEnd: int)

  function Trunc(x: real): int {
    if x >= 0.0 then x.Floor else -((-x).Floor)
  }

  function Abs(x: real): real {
    if x < 0.0 then -x else x
  }

  function MediaTime(anchorClock: int, nowClock: int, anchorMedia: int, rate: real): int {
    if Abs(rate) < RATE_THRESHOLD || anchorClock == NONE || nowClock == NONE || anchorMedia == NONE then NONE
    else Trunc(anchorMedia as real + (nowClock - anchorClock) as real * rate)
  }

  function ClockTime(anchorClock: int, nowMedia: int, anchorMedia: int, rate: real): int {
    if Abs(rate) < RATE_THRESHOLD || anchorClock == NONE || nowMedia == NONE || anchorMedia == NONE then NONE
    else Trunc(anchorClock as real + (nowMedia - anchorMedia) as real / rate)
  }

  function Clip(c: Clock, time: int): int {
    var low := if c.minStart != NONE && time < c.minStart then c.minStart else time;
    if c.maxEnd != NONE && low > c.maxEnd then c.maxEnd else low
  }

  /** What the clock shows at system time `now`. */
  function Reading(c: Clock, now: int): int {
    if c.seeking then c.seekingMedia
    else if c.state == Paused then (if c.pausedMedia == NONE then 0 else c.pausedMedia)
    else Clip(c, MediaTime(c.anchorClock, now, c.anchorMedia, c.rate))
  }

  /** The system time that the clock shows: that of the pause while it is paused. */
  function ClockNow(c: Clock, now: int): int {
    if c.state == Paused then c.pausedClock else now
  }

  // ---------- Operations ----------

  function Pause(c: Clock, now: int): Clock {
    if c.state == Paused then c
    else
      var media := if c.anchorMedia != NONE && c.anchorClock != NONE
                   then MediaTime(c.anchorClock, now, c.anchorMedia, c.rate) else NONE;
      c.(pausedClock := now, pausedMedia := Clip(c, media), state := Paused)
  }

  function Resume(c: Clock, now: int): Clock {
    if c.state == Resumed then c
    else
      var c1 := if c.pausedMedia != NONE && c.alreadyWait
                then c.(anchorClock := now, anchorMedia := c.pausedMedia, pausedMedia := NONE, pausedClock := NONE)
                else c;
      c1.(alreadyWait := c.alreadyWait || c.shouldPreroll, state := Resumed)
  }

  /** Negative rates are refused. */
  function SetRate(c: Clock, rate: real, now: int): Clock {
    if rate < 0.0 then c
    else if c.anchorClock == NONE || c.anchorMedia == NONE then c.(rate := rate)
    else c.(anchorClock := now, anchorMedia := MediaTime(c.anchorClock, now, c.anchorMedia, c.rate), rate := rate)
  }

  predicate SeekAccepted(c: Clock, media: int) {
    c.minStart != NONE && c.maxEnd != NONE && c.minStart <= media <= c.maxEnd
  }

  function Seek(c: Clock, media: int): Clock {
    if !SeekAccepted(c, media) then c
    else c.(seeking := true, seekingMedia := media, alreadyWait := c.shouldPreroll,
            pausedMedia := NONE, priority := NONE, anchorClock := NONE, anchorMedia := NONE)
  }

  /** Close enough to the target to end a seek: at most 50 whole milliseconds away. */
  predicate NearTarget(c: Clock, media: int) {
    var distance := if media < c.seekingMedia then c.seekingMedia - media else media - c.seekingMedia;
    distance / MSECOND <= 50
  }

  /** Who reports an anchor: nobody, or a supplier that is registered or not. */
  datatype Supplier = NoSupplier | Supplier(registered: bool, priority: int)

  function UpdateAnchor(c: Clock, clock: int, media: int, supplier: Supplier): Clock {
    if clock == NONE || media == NONE || supplier.NoSupplier? then c
    else
      var c1 := if supplier.registered && supplier.priority >= c.priority
                then c.(priority := supplier.priority, anchorClock := clock, anchorMedia := media) else c;
      if c.seeking && NearTarget(c, media) then c1.(seeking := false) else c1
  }

  const INITIAL: Clock := Clock(Paused, NONE, NONE, NONE, NONE, NONE, 1.0, false, true, false, NONE, NONE, NONE)

  // ---------- The object ----------

  class MediaSyncManager {
    var clockState_: State
    var currentSyncerPriority_: int
    var currentAnchorClockTime_: int
    var currentAnchorMediaTime_: int
    var pausedMediaTime_: int
    var pausedClockTime_: int
    var playRate_: real
    var alreadySetSyncersShouldWait_: bool
    var allSyncerShouldPrerolled_: bool
    var isSeeking_: bool
    var seekingMediaTime_: int
    var minRangeStartOfMediaTime_: int
    var maxRangeEndOfMediaTime_: int

    function Now(): Clock
      reads this
    {
      Clock(clockState_, currentSyncerPriority_, currentAnchorClockTime_, currentAnchorMediaTime_,
            pausedMediaTime_, pausedClockTime_, playRate_, alreadySetSyncersShouldWait_, allSyncerShouldPrerolled_,
            isSeeking_, seekingMediaTime_, minRangeStartOfMediaTime_, maxRangeEndOfMediaTime_)
    }

    constructor ()
      ensures Now() == INITIAL
    {
      clockState_, currentSyncerPriority_ := Paused, NONE;
      currentAnchorClockTime_, currentAnchorMediaTime_ := NONE, NONE;
      pausedMediaTime_, pausedClockTime_, playRate_ := NONE, NONE, 1.0;
      alreadySetSyncersShouldWait_, allSyncerShouldPrerolled_ := false, true;
      isSeeking_, seekingMediaTime_ := false, NONE;
      minRangeStartOfMediaTime_, maxRangeEndOfMediaTime_ := NONE, NONE;
    }

    method SimpleUpdateTimeAnchor(clockTime: int, mediaTime: int)
      modifies this`currentAnchorClockTime_, this`currentAnchorMediaTime_
      ensures currentAnchorClockTime_ == clockTime && currentAnchorMediaTime_ == mediaTime
    {
      currentAnchorMediaTime_ := mediaTime;
      currentAnchorClockTime_ := clockTime;
    }

    method SetAllSyncShouldWait()
      modifies this`alreadySetSyncersShouldWait_
      ensures alreadySetSyncersShouldWait_ == (old(alreadySetSyncersShouldWait_) || allSyncerShouldPrerolled_)
    {
      if allSyncerShouldPrerolled_ && !alreadySetSyncersShouldWait_ {
        alreadySetSyncersShouldWait_ := true;
      }
    }

    method WaitAllPrerolled(prerolled: bool)
      modifies this`allSyncerShouldPrerolled_
      ensures Now() == old(Now()).(shouldPreroll := prerolled)
    {
      allSyncerShouldPrerolled_ := prerolled;
    }

    method PauseClock(now: int)
      modifies this
      ensures Now() == Pause(old(Now()), now)
    {
      if clockState_ == Paused {
        return;
      }
      pausedClockTime_ := now;
      if currentAnchorMediaTime_ != NONE && currentAnchorClockTime_ != NONE {
        pausedMediaTime_ := MediaTime(currentAnchorClockTime_, pausedClockTime_, currentAnchorMediaTime_, playRate_);
      } else {
        pausedMediaTime_ := NONE;
      }
      pausedMediaTime_ := Clip(Now(), pausedMediaTime_);
      clockState_ := Paused;
    }

    method ResumeClock(now: int)
      modifies this
      ensures Now() == Resume(old(Now()), now)
    {
      if clockState_ == Paused && pausedMediaTime_ != NONE && alreadySetSyncersShouldWait_ {
        SimpleUpdateTimeAnchor(now, pausedMediaTime_);
        pausedMediaTime_ := NONE;
        pausedClockTime_ := NONE;
      }
      if clockState_ == Resumed {
        return;
      }
      SetAllSyncShouldWait();
      clockState_ := Resumed;
    }

    method SetPlaybackRate(rate: real, now: int) returns (ok: bool)
      modifies this
      ensures ok <==> rate >= 0.0
      ensures Now() == SetRate(old(Now()), rate, now)
    {
      if rate < 0.0 {
        return false;
      }
      if currentAnchorClockTime_ == NONE || currentAnchorMediaTime_ == NONE {
        playRate_ := rate;
        return true;
      }
      var currentMedia := MediaTime(currentAnchorClockTime_, now, currentAnchorMediaTime_, playRate_);
      SimpleUpdateTimeAnchor(now, currentMedia);
      playRate_ := rate;
      return true;
    }

    method SeekTo(mediaTime: int) returns (ok: bool)
      modifies this
      ensures ok <==> SeekAccepted(old(Now()), mediaTime)
      ensures Now() == Seek(old(Now()), mediaTime)
    {
      if minRangeStartOfMediaTime_ == NONE || maxRangeEndOfMediaTime_ == NONE {
        return false;
      }
      if mediaTime > maxRangeEndOfMediaTime_ || mediaTime < minRangeStartOfMediaTime_ {
        return false;
      }
      isSeeking_ := true;
      seekingMediaTime_ := mediaTime;
      alreadySetSyncersShouldWait_ := false;
      SetAllSyncShouldWait();
      pausedMediaTime_ := NONE;
      currentSyncerPriority_ := NONE;
      SimpleUpdateTimeAnchor(NONE, NONE);
      return true;
    }

    method UpdateTimeAnchor(clockTime: int, mediaTime: int, supplier: Supplier) returns (render: bool)
      modifies this
      ensures Now() == UpdateAnchor(old(Now()), clockTime, mediaTime, supplier)
      ensures render <==> clockTime == NONE || mediaTime == NONE || supplier.NoSupplier? || !isSeeking_
    {
      render := true;
      if clockTime == NONE || mediaTime == NONE || supplier.NoSupplier? {
        return;
      }
      if supplier.registered && supplier.priority >= currentSyncerPriority_ {
        currentSyncerPriority_ := supplier.priority;
        SimpleUpdateTimeAnchor(clockTime, mediaTime);
      }
      if isSeeking_ && NearTarget(Now(), mediaTime) {
        isSeeking_ := false;
      }
      if isSeeking_ {
        render := false;
      }
    }

    method GetClockTimeNow(now: int) returns (time: int)
      ensures time == ClockNow(Now(), now)
    {
      if clockState_ == Paused {
        return pausedClockTime_;
      }
      return now;
    }

    method GetClockTime(mediaTime: int) returns (time: int)
      ensures time == ClockTime(currentAnchorClockTime_, mediaTime, currentAnchorMediaTime_, playRate_)
    {
      time := ClockTime(currentAnchorClockTime_, mediaTime, currentAnchorMediaTime_, playRate_);
    }

    method GetMediaTimeNow(now: int) returns (time: int)
      ensures time == Reading(Now(), now)
    {
      if isSeeking_ {
        return seekingMediaTime_;
      }
      if clockState_ == Paused {
        if pausedMediaTime_ == NONE {
          return 0;
        }
        return pausedMediaTime_;
      }
      time := MediaTime(currentAnchorClockTime_, now, currentAnchorMediaTime_, playRate_);
      time := Clip(Now(), time);
    }
  }

  // ---------- What each operation sets going ----------

  /** A pause holds the shown time and the clock time, from then on. */
  lemma PauseHolds(c: Clock, now: int, later: int)
    requires Ready(c, now) && c.state == Resumed
    ensures Reading(Pause(c, now), later) == Reading(c, now)
    ensures ClockNow(Pause(c, now), later) == now
  {
    RawIsReached(c, now);
  }

  /** The media time reached from another one after a while. */
  function RanOn(media: int, rate: real, elapsed: int): int {
    (media as real + elapsed as real * rate).Floor
  }

  /** The same within the bounds. */
  function RunningFrom(c: Clock, media: int, rate: real, elapsed: int): int {
    Clip(c, RanOn(media, rate, elapsed))
  }

  lemma FromAnchor(clock: int, now: int, media: int, rate: real)
    requires 0 <= clock <= now && 0 <= media && rate >= RATE_THRESHOLD
    ensures MediaTime(clock, now, media, rate) == RanOn(media, rate, now - clock)
  {
    ProductMonotone(0.0, (now - clock) as real, rate);
  }

  /** A resume lets the shown time run on from where it was held, at the rate set. */
  lemma ResumeRuns(c: Clock, now: int, later: int)
    requires Ready(c, now) && c.state == Paused && now <= later
    ensures Reading(Resume(c, now), later) == RunningFrom(c, Reading(c, now), c.rate, later - now)
    ensures ClockNow(Resume(c, now), later) == later
  {
    hide MediaTime, RanOn;
    FromAnchor(now, later, c.pausedMedia, c.rate);
  }

  /** A new rate takes effect at once, from the media time reached, and lasts; a negative one is refused. */
  lemma RateTakesEffect(c: Clock, rate: real, now: int, later: int)
    requires Ready(c, now) && c.state == Resumed && now <= later
    ensures rate >= RATE_THRESHOLD ==>
      Reading(SetRate(c, rate, now), later) == RunningFrom(c, MediaTime(c.anchorClock, now, c.anchorMedia, c.rate), rate, later - now)
    ensures rate < 0.0 ==> SetRate(c, rate, now) == c
  {
    RawIsReached(c, now);
    var media := MediaTime(c.anchorClock, now, c.anchorMedia, c.rate);
    hide MediaTime, Raw, RanOn;
    if rate >= RATE_THRESHOLD {
      FromAnchor(now, later, media, rate);
    }
  }

  /** Anchored or not, a rate that is not negative is set, and nothing else but the anchor is touched. */
  lemma RateIsSet(c: Clock, rate: real, now: int)
    requires rate >= 0.0
    ensures var c' := SetRate(c, rate, now);
            c'.rate == rate && c' == c.(rate := rate, anchorClock := c'.anchorClock, anchorMedia := c'.anchorMedia)
    ensures c.anchorClock == NONE || c.anchorMedia == NONE ==> SetRate(c, rate, now) == c.(rate := rate)
  {
  }

  /** A resume under the wait flag forgets the pause; any resume leaves rate, bounds and seek alone. */
  lemma ResumeForgetsPause(c: Clock, now: int)
    requires c.state == Paused
    ensures c.alreadyWait && c.pausedMedia != NONE ==> Resume(c, now).pausedMedia == NONE && Resume(c, now).pausedClock == NONE
    ensures var c' := Resume(c, now);
            && c'.state == Resumed && c'.rate == c.rate && c'.minStart == c.minStart && c'.maxEnd == c.maxEnd
            && c'.seeking == c.seeking && c'.seekingMedia == c.seekingMedia && c'.priority == c.priority
  {
  }

  /** A rate set while paused waits for the resume. */
  lemma RateWaitsForResume(c: Clock, rate: real, now: int, start: int, later: int)
    requires Ready(c, now) && c.state == Paused && rate >= RATE_THRESHOLD && now <= start <= later
    ensures Reading(Resume(SetRate(c, rate, now), start), later) == RunningFrom(c, Reading(c, now), rate, later - start)
  {
    hide MediaTime, RanOn;
    FromAnchor(start, later, c.pausedMedia, rate);
  }

  /** Clipping moves a time no further than to the nearest bound, and leaves times between the bounds alone. */
  lemma ClipIsNearest(c: Clock, time: int)
    requires c.minStart == NONE || c.maxEnd == NONE || c.minStart <= c.maxEnd
    ensures var t := Clip(c, time);
            && (c.minStart != NONE ==> c.minStart <= t) && (c.maxEnd != NONE ==> t <= c.maxEnd)
            && (t == time || (t == c.minStart && time < t) || (t == c.maxEnd && t < time))
    ensures (c.minStart == NONE || c.minStart <= time) && (c.maxEnd == NONE || time <= c.maxEnd) ==> Clip(c, time) == time
  {
  }

  /** A clock that has never run shows 0. */
  lemma UnstartedShowsZero(now: int)
    ensures Reading(INITIAL, now) == 0
  {
  }

  // ---------- Runs ----------

  datatype Op = OpPause | OpResume | OpRate(rate: real)

  function Apply(c: Clock, op: Op, now: int): Clock {
    match op
    case OpPause => Pause(c, now)
    case OpResume => Resume(c, now)
    case OpRate(rate) => SetRate(c, rate, now)
  }

  /** A range bound is absent or a proper time. */
  predicate IsBound(t: int) {
    t == NONE || t >= 0
  }

  /** Anchored at or before `now`, not seeking, with a usable rate and the wait flag set. */
  predicate Ready(c: Clock, now: int) {
    && !c.seeking && c.alreadyWait
    && c.rate >= RATE_THRESHOLD
    && 0 <= c.anchorClock <= now && 0 <= c.anchorMedia
    && IsBound(c.minStart) && IsBound(c.maxEnd)
    && (c.state == Paused ==> c.pausedMedia >= 0 && Clip(c, c.pausedMedia) == c.pausedMedia)
  }

  predicate Usable(op: Op) {
    op.OpRate? ==> op.rate >= RATE_THRESHOLD
  }

  /** The real position the anchor gives at `now`, before truncation. */
  function Raw(c: Clock, now: int): real {
    c.anchorMedia as real + (now - c.anchorClock) as real * c.rate
  }

  lemma ProductMonotone(a: real, b: real, r: real)
    requires a <= b && r >= 0.0
    ensures a * r <= b * r
  {
  }

  lemma RawIsReached(c: Clock, now: int)
    requires Ready(c, now)
    ensures Raw(c, now) >= c.anchorMedia as real >= 0.0
    ensures MediaTime(c.anchorClock, now, c.anchorMedia, c.rate) == Raw(c, now).Floor >= c.anchorMedia
  {
    ProductMonotone(0.0, (now - c.anchorClock) as real, c.rate);
  }

  lemma RawMonotone(c: Clock, t1: int, t2: int)
    requires c.rate >= 0.0 && t1 <= t2
    ensures Raw(c, t1) <= Raw(c, t2) && Raw(c, t1).Floor <= Raw(c, t2).Floor
  {
    var x, y := (t1 - c.anchorClock) as real, (t2 - c.anchorClock) as real;
    ProductMonotone(x, y, c.rate);
    assert Raw(c, t1) == c.anchorMedia as real + x * c.rate && Raw(c, t2) == c.anchorMedia as real + y * c.rate;
  }

  /** At its own anchor, a clock shows the anchored media time. */
  lemma AtAnchor(now: int, media: int, rate: real)
    requires now != NONE && media >= 0 && rate >= RATE_THRESHOLD
    ensures MediaTime(now, now, media, rate) == media
  {
  }

  /** No operation makes the shown time jump, and the clock stays ready. */
  lemma NoJump(c: Clock, op: Op, now: int)
    requires Ready(c, now) && Usable(op)
    ensures Ready(Apply(c, op, now), now)
    ensures Reading(Apply(c, op, now), now) == Reading(c, now)
  {
    RawIsReached(c, now);
    var c' := Apply(c, op, now);
    if c.state == Paused && op == OpResume {
      assert MediaTime(now, now, c.pausedMedia, c.rate) == c.pausedMedia;
    } else if op.OpRate? {
      var m := Raw(c, now).Floor;
      assert MediaTime(now, now, m, op.rate) == m;
    }
  }

  /** Between operations the shown time never decreases. */
  lemma ReadingMonotone(c: Clock, t1: int, t2: int)
    requires Ready(c, t1) && t1 <= t2
    ensures Ready(c, t2) && Reading(c, t1) <= Reading(c, t2)
  {
    RawIsReached(c, t1);
    RawIsReached(c, t2);
    hide Raw, MediaTime;
    RawMonotone(c, t1, t2);
  }

  datatype Timed = At(op: Op, time: int)

  /** Usable operations at non-decreasing times from `now` on. */
  predicate Schedule(ops: seq<Timed>, now: int) {
    ops == [] || (now <= ops[0].time && Usable(ops[0].op) && Schedule(ops[1..], ops[0].time))
  }

  function EndTime(ops: seq<Timed>, now: int): int {
    if ops == [] then now else EndTime(ops[1..], ops[0].time)
  }

  function Run(c: Clock, ops: seq<Timed>): Clock
    decreases |ops|
  {
    if ops == [] then c else Run(Apply(c, ops[0].op, ops[0].time), ops[1..])
  }

  /** Over any run from a ready clock, media time never goes back and no operation moves it. */
  lemma {:induction false} RunNeverGoesBack(c: Clock, ops: seq<Timed>, now: int)
    requires Ready(c, now) && Schedule(ops, now)
    ensures Ready(Run(c, ops), EndTime(ops, now)) && EndTime(ops, now) >= now
    ensures Reading(c, now) <= Reading(Run(c, ops), EndTime(ops, now))
    decreases |ops|
  {
    if ops != [] {
      var t := ops[0].time;
      ReadingMonotone(c, now, t);
      NoJump(c, ops[0].op, t);
      RunNeverGoesBack(Apply(c, ops[0].op, t), ops[1..], t);
    }
  }

  // ---------- Distance from the exact integral ----------

  /** The exact integral of the rate over running time, `exact` being its value at `from`. */
  function Advance(c: Clock, exact: real, from: int, to: int): real {
    if c.state == Paused then exact else exact + (to - from) as real * c.rate
  }

  function ExactAfter(c: Clock, exact: real, ops: seq<Timed>, now: int): real
    decreases |ops|
  {
    if ops == [] then exact
    else ExactAfter(Apply(c, ops[0].op, ops[0].time), Advance(c, exact, now, ops[0].time), ops[1..], ops[0].time)
  }

  /** Does the operation set a new anchor? */
  function Reanchors(c: Clock, op: Op): nat {
    if op.OpRate? || (op.OpResume? && c.state == Paused) then 1 else 0
  }

  function ReanchorCount(c: Clock, ops: seq<Timed>): nat
    decreases |ops|
  {
    if ops == [] then 0
    else Reanchors(c, ops[0].op) + ReanchorCount(Apply(c, ops[0].op, ops[0].time), ops[1..])
  }

  /** No pause of the run clips the media time it freezes. */
  predicate NeverClipped(c: Clock, ops: seq<Timed>)
    decreases |ops|
  {
    ops == [] ||
    (&& (ops[0].op.OpPause? && c.state == Resumed ==>
           var m := MediaTime(c.anchorClock, ops[0].time, c.anchorMedia, c.rate);
           Clip(c, m) == m)
     && NeverClipped(Apply(c, ops[0].op, ops[0].time), ops[1..]))
  }

  /** After `k` re-anchorings the anchor trails the exact integral by less than `k` ticks, and never leads it. */
  predicate Trails(c: Clock, exact: real, k: nat, now: int) {
    if c.state == Paused then 0.0 <= exact - c.pausedMedia as real < k as real + 1.0
    else 0.0 <= exact - Raw(c, now) && (exact == Raw(c, now) || exact - Raw(c, now) < k as real)
  }

  lemma TrailsAdvance(c: Clock, exact: real, k: nat, from: int, to: int)
    requires Ready(c, from) && from <= to && Trails(c, exact, k, from)
    ensures Trails(c, Advance(c, exact, from, to), k, to)
  {
    assert (to - c.anchorClock) as real * c.rate == (from - c.anchorClock) as real * c.rate + (to - from) as real * c.rate;
  }

  lemma TrailsApply(c: Clock, exact: real, k: nat, op: Op, now: int)
    requires Ready(c, now) && Usable(op) && Trails(c, exact, k, now) && NeverClipped(c, [At(op, now)])
    ensures Trails(Apply(c, op, now), exact, k + Reanchors(c, op), now)
  {
    RawIsReached(c, now);
    var c' := Apply(c, op, now);
    if op.OpRate? {
      assert c'.state == Resumed ==> Raw(c', now) == c'.anchorMedia as real;
    } else if op.OpResume? && c.state == Paused {
      assert Raw(c', now) == c.pausedMedia as real;
    }
  }

  /**
   * After any run with `k` re-anchorings, an unclipped reading lags the exact integral of the rate over the
   * running time by at least 0 and less than `k + 1` ticks.
   */
  lemma {:induction false} RunTrails(c: Clock, exact: real, k: nat, ops: seq<Timed>, now: int)
    requires Ready(c, now) && Schedule(ops, now) && Trails(c, exact, k, now) && NeverClipped(c, ops)
    ensures Trails(Run(c, ops), ExactAfter(c, exact, ops, now), k + ReanchorCount(c, ops), EndTime(ops, now))
    decreases |ops|
  {
    if ops != [] {
      var t := ops[0].time;
      ReadingMonotone(c, now, t);
      TrailsAdvance(c, exact, k, now, t);
      assert NeverClipped(c, [ops[0]]);
      TrailsApply(c, Advance(c, exact, now, t), k, ops[0].op, t);
      NoJump(c, ops[0].op, t);
      RunTrails(Apply(c, ops[0].op, t), Advance(c, exact, now, t), k + Reanchors(c, ops[0].op), ops[1..], t);
    }
  }

  lemma ReadingLag(c: Clock, ops: seq<Timed>, start: int, end: int)
    requires Ready(c, start) && c.state == Resumed && c.anchorClock == start
    requires Schedule(ops, start) && NeverClipped(c, ops) && EndTime(ops, start) <= end
    requires var c' := Run(c, ops); NeverClipped(c', [At(OpPause, end)])
    ensures var c' := Run(c, ops);
            var exact := Advance(c', ExactAfter(c, c.anchorMedia as real, ops, start), EndTime(ops, start), end);
            0.0 <= exact - Reading(c', end) as real < ReanchorCount(c, ops) as real + 1.0
  {
    var c', last := Run(c, ops), EndTime(ops, start);
    RunNeverGoesBack(c, ops, start);
    RunTrails(c, c.anchorMedia as real, 0, ops, start);
    TrailsAdvance(c', ExactAfter(c, c.anchorMedia as real, ops, start), ReanchorCount(c, ops), last, end);
    ReadingMonotone(c', last, end);
    RawIsReached(c', end);
  }

  // ---------- Mapping media time back ----------

  /** Mapping an unclipped reading back to system time errs by less than one media tick's duration plus one tick. */
  lemma MapBack(c: Clock, now: int)
    requires Ready(c, now)
    ensures var media := MediaTime(c.anchorClock, now, c.anchorMedia, c.rate);
            var back := ClockTime(c.anchorClock, media, c.anchorMedia, c.rate);
            0.0 <= (now - back) as real < 1.0 / c.rate + 1.0
  {
    RawIsReached(c, now);
    var media := Raw(c, now).Floor;
    var d, m := (now - c.anchorClock) as real, (media - c.anchorMedia) as real;
    assert m <= d * c.rate < m + 1.0;
    QuotientBounds(m, d, c.rate);
    var back := ClockTime(c.anchorClock, media, c.anchorMedia, c.rate);
    assert back == (c.anchorClock as real + m / c.rate).Floor;
  }

  lemma QuotientBounds(m: real, d: real, r: real)
    requires r > 0.0 && 0.0 <= m <= d * r < m + 1.0
    ensures 0.0 <= m / r <= d < m / r + 1.0 / r
  {
    var q := m / r;
    assert q * r == m;
    if q > d {
      ProductMonotone(d, q, r);
    }
    var u := 1.0 / r;
    assert u * r == 1.0;
    assert (q + u) * r == m + 1.0;
    if d >= q + u {
      ProductMonotone(q + u, d, r);
    }
  }

  // ---------- Zero rate, and seeking ----------

  /**
   * A rate change leaves the shown time alone exactly when the new rate is not zero, the clock is paused, or the
   * time shown is the one that a clock without anchor shows.
   */
  lemma RateChangeKeepsTimeIff(c: Clock, rate: real, now: int)
    requires Ready(c, now) && rate >= 0.0
    ensures Reading(SetRate(c, rate, now), now) == Reading(c, now) <==>
            rate >= RATE_THRESHOLD || c.state == Paused || Clip(c, NONE) == Reading(c, now)
  {
    RawIsReached(c, now);
    if rate >= RATE_THRESHOLD {
      NoJump(c, OpRate(rate), now);
    }
  }

  /** The clock is anchored at or before `now`. */
  predicate Anchored(c: Clock, now: int) {
    0 <= c.anchorClock <= now && 0 <= c.anchorMedia
  }

  /** A rate change of an anchored clock keeps an anchor exactly when the rate until then is not zero. */
  lemma RateChangeKeepsAnchorIff(c: Clock, rate: real, now: int)
    requires Anchored(c, now) && c.rate >= 0.0 && rate >= 0.0
    ensures SetRate(c, rate, now).anchorMedia != NONE <==> c.rate >= RATE_THRESHOLD
  {
    ProductMonotone(0.0, (now - c.anchorClock) as real, c.rate);
    assert Raw(c, now) >= c.anchorMedia as real;
  }

  /** A zero rate is accepted, but the next rate change then has no position to keep: the anchor is lost. */
  lemma ZeroRateLosesAnchor(c: Clock, t1: int, rate: real, t2: int)
    requires Ready(c, t1) && rate >= 0.0 && t1 <= t2
    ensures SetRate(SetRate(c, 0.0, t1), rate, t2).anchorMedia == NONE
  {
    RawIsReached(c, t1);
    RateChangeKeepsAnchorIff(SetRate(c, 0.0, t1), rate, t2);
  }

  // ---------- Resuming without the wait flag ----------

  /** Clipping tells the two times apart. */
  predicate ClipSeparates(c: Clock, a: int, b: int) {
    && a < b
    && (c.maxEnd == NONE || a < c.maxEnd)
    && (c.minStart == NONE || c.minStart < b)
    && (c.minStart == NONE || c.maxEnd == NONE || c.minStart < c.maxEnd)
  }

  /**
   * A pause and a resume of a running clock move the shown time exactly when the wait flag is not set and a whole
   * tick of media time, visible between the bounds, went by: the old anchor is still in force then.
   */
  lemma ResumeMovesTimeIff(c: Clock, t1: int, t2: int)
    requires Ready(c.(alreadyWait := true), t1) && c.state == Resumed && t1 <= t2
    ensures var p := Pause(c, t1);
            Reading(Resume(p, t2), t2) != Reading(p, t2) <==>
            !c.alreadyWait && ClipSeparates(c, Raw(c, t1).Floor, Raw(c, t2).Floor)
  {
    hide Raw, MediaTime, ClipSeparates;
    RunningTime(c, t1);
    RunningTime(c, t2);
    var a, b := Raw(c, t1).Floor, Raw(c, t2).Floor;
    RawMonotone(c, t1, t2);
    ClipSeparatesIff(c, a, b);
    AtAnchor(t2, Clip(c, a), c.rate);
  }

  /** As long as suppliers are to preroll, the wait flag is set whenever the clock runs. */
  predicate FlagWhileRunning(c: Clock) {
    c.shouldPreroll && (c.state == Resumed ==> c.alreadyWait)
  }

  lemma PrerollKeepsFlag(c: Clock, op: Op, now: int, target: int, media: int, supplier: Supplier)
    requires FlagWhileRunning(c)
    ensures FlagWhileRunning(INITIAL) && FlagWhileRunning(Apply(c, op, now))
    ensures FlagWhileRunning(Seek(c, target)) && FlagWhileRunning(UpdateAnchor(c, now, media, supplier))
  {
  }

  /** A clock as it is made, told not to preroll, resumed at 0 and anchored at media time 100. */
  function WithoutPreroll(): Clock {
    UpdateAnchor(Resume(INITIAL.(shouldPreroll := false), 0), 0, 100, Supplier(true, 0))
  }

  /** It shows 110 when it is paused at 10, and 150 when it is resumed at 50. */
  lemma PauseDoesNotHold()
    ensures var c := WithoutPreroll();
            && Ready(c.(alreadyWait := true), 10) && !c.alreadyWait
            && Reading(c, 10) == Reading(Pause(c, 10), 50) == 110
            && Reading(Resume(Pause(c, 10), 50), 50) == 150
  {
  }

  /** The same clock with preroll: a zero rate at 10 turns a reading of 110 into the "no time" value. */
  lemma ZeroRateJumps()
    ensures var c := UpdateAnchor(Resume(INITIAL, 0), 0, 100, Supplier(true, 0));
            Ready(c, 10) && Reading(c, 10) == 110 && Reading(SetRate(c, 0.0, 10), 10) == NONE
  {
  }

  lemma RunningTime(c: Clock, now: int)
    requires Ready(c.(alreadyWait := true), now)
    ensures MediaTime(c.anchorClock, now, c.anchorMedia, c.rate) == Raw(c, now).Floor >= 0
  {
    RawIsReached(c.(alreadyWait := true), now);
    assert Raw(c.(alreadyWait := true), now) == Raw(c, now);
  }

  lemma ClipSeparatesIff(c: Clock, a: int, b: int)
    requires a <= b
    ensures Clip(c, a) != Clip(c, b) <==> ClipSeparates(c, a, b)
    ensures Clip(c, Clip(c, a)) == Clip(c, a)
  {
  }

  datatype SeekStep = Operate(op: Op, now: int) | Anchor(clock: int, media: int, supplier: Supplier)

  function ApplySeekStep(c: Clock, s: SeekStep): Clock {
    match s
    case Operate(op, now) => Apply(c, op, now)
    case Anchor(clock, media, supplier) => UpdateAnchor(c, clock, media, supplier)
  }

  function RunSeek(c: Clock, steps: seq<SeekStep>): Clock
    decreases |steps|
  {
    if steps == [] then c else RunSeek(ApplySeekStep(c, steps[0]), steps[1..])
  }

  /** Every target within a known range is accepted; any other one is refused and changes nothing. */
  lemma SeekAcceptedIff(c: Clock, target: int)
    ensures c.minStart != NONE && c.maxEnd != NONE && c.minStart <= target <= c.maxEnd ==>
      SeekAccepted(c, target) && Seek(c, target).seeking
    ensures c.minStart == NONE || c.maxEnd == NONE || target < c.minStart || c.maxEnd < target ==>
      !SeekAccepted(c, target) && Seek(c, target) == c
  {
  }

  /** From an accepted seek on, until an anchor comes near the target, every reading is the target. */
  lemma SeekShowsTarget(c: Clock, target: int, steps: seq<SeekStep>, now: int)
    requires c.minStart != NONE && c.maxEnd != NONE && c.minStart <= target <= c.maxEnd
    requires forall s | s in steps && s.Anchor? && s.supplier != NoSupplier && s.clock != NONE && s.media != NONE ::
               s.media - target >= 51 * MSECOND || target - s.media >= 51 * MSECOND
    ensures Reading(Seek(c, target), now) == target
    ensures Reading(RunSeek(Seek(c, target), steps), now) == target && RunSeek(Seek(c, target), steps).seeking
  {
    var c' := Seek(c, target);
    forall s | s in steps && s.Anchor? && s.supplier != NoSupplier && s.clock != NONE && s.media != NONE
      ensures !NearTarget(c', s.media)
    {
      NearTargetIff(c', s.media);
    }
    SeekHoldsTarget(c', target, steps, now);
  }

  lemma NearTargetIff(c: Clock, media: int)
    ensures NearTarget(c, media) <==> -51 * MSECOND < media - c.seekingMedia < 51 * MSECOND
  {
  }

  /**
   * A seek forgets whose anchor it was: the next registered supplier near the target ends it, whatever its priority,
   * and a running clock runs on from that anchor.
   */
  lemma SeekEndsAtAnchor(c: Clock, target: int, clock: int, media: int, priority: int, now: int)
    requires c.minStart != NONE && c.maxEnd != NONE && c.minStart <= target <= c.maxEnd
    requires 0 <= clock <= now && 0 <= media && -51 * MSECOND < media - target < 51 * MSECOND
    requires priority >= NONE && c.rate >= RATE_THRESHOLD
    ensures var c' := UpdateAnchor(Seek(c, target), clock, media, Supplier(true, priority));
            && !c'.seeking
            && Reading(c', now) == (if c.state == Paused then 0 else RunningFrom(c, media, c.rate, now - clock))
            && c'.alreadyWait == c.shouldPreroll
  {
    hide MediaTime, NearTarget, RanOn;
    NearTargetIff(Seek(c, target), media);
    FromAnchor(clock, now, media, c.rate);
  }

  /** An anchor is taken over exactly from a registered supplier of no lower priority, which then sets the priority. */
  lemma AnchorTakenIff(c: Clock, clock: int, media: int, supplier: Supplier)
    requires clock != NONE && media != NONE && (clock, media) != (c.anchorClock, c.anchorMedia)
    ensures var c' := UpdateAnchor(c, clock, media, supplier);
            && ((c'.anchorClock, c'.anchorMedia) == (clock, media) <==>
                  supplier.Supplier? && supplier.registered && c.priority <= supplier.priority)
            && ((c'.anchorClock, c'.anchorMedia) in {(clock, media), (c.anchorClock, c.anchorMedia)})
            && c.priority <= c'.priority
            && ((c'.anchorClock, c'.anchorMedia) == (clock, media) ==> c'.priority == supplier.priority)
            && c' == c.(anchorClock := c'.anchorClock, anchorMedia := c'.anchorMedia, priority := c'.priority, seeking := c'.seeking)
    ensures UpdateAnchor(c, NONE, media, supplier) == c && UpdateAnchor(c, clock, NONE, supplier) == c
  {
  }

  /** While the clock seeks and no anchor comes near the target, every reading is the target. */
  lemma {:induction false} SeekHoldsTarget(c: Clock, target: int, steps: seq<SeekStep>, now: int)
    requires c.seeking && c.seekingMedia == target
    requires forall s | s in steps && s.Anchor? && s.supplier != NoSupplier && s.clock != NONE && s.media != NONE ::
               !NearTarget(c, s.media)
    ensures Reading(RunSeek(c, steps), now) == target && RunSeek(c, steps).seeking
    decreases |steps|
  {
    if steps != [] {
      assert steps[0] in steps;
      var c' := ApplySeekStep(c, steps[0]);
      assert c'.seekingMedia == c.seekingMedia && forall m :: NearTarget(c', m) == NearTarget(c, m);
      SeekHoldsTarget(c', target, steps[1..], now);
    }
  }
}
