/**
 * Capability values (one value, an interval, a list) and their pairwise intersection,
 * through a comparator that narrows differences to 32 bits.
 */
module CapabilityValues {
  import opened AVBufferCommon

  /** Element types a capability can have; they are all compared by narrowed difference. */
  datatype ElemType =
    | UInt32 | Int64 | AudioChannelLayout | AudioSampleFormat | AudioAacProfile | AudioAacStreamFormat
    | VideoPixelFormat | VideoBitStreamFormat

  datatype Key =
    | AudioSampleRate | AudioChannels | ChannelLayout | SampleFormat | AudioMpegVersion | AudioMpegLayer
    | AacProfile | AacLevel | AacStreamFormat | PixelFormat | BitStreamFormat | MediaBitrate
    | UnknownKey(tag: nat)

  datatype Value =
    | Fixed(elem: ElemType, value: int)
    | Interval(elem: ElemType, first: int, second: int)
    | Discrete(elem: ElemType, values: seq<int>)
    | Foreign(text: string)  // a value of any other type

  predicate Known(k: Key) {
    !k.UnknownKey?
  }

  function TypeOf(k: Key): ElemType
    requires Known(k)
  {
    match k
    case AudioSampleRate => UInt32
    case AudioChannels => UInt32
    case ChannelLayout => AudioChannelLayout
    case SampleFormat => AudioSampleFormat
    case AudioMpegVersion => UInt32
    case AudioMpegLayer => UInt32
    case AacProfile => AudioAacProfile
    case AacLevel => UInt32
    case AacStreamFormat => AudioAacStreamFormat
    case PixelFormat => VideoPixelFormat
    case BitStreamFormat => VideoBitStreamFormat
    case MediaBitrate => Int64
  }

  predicate IntervalAllowed(k: Key)
    requires Known(k)
  {
    TypeOf(k) in {UInt32, Int64}
  }

  const TWO_31: int := 0x8000_0000
  const TWO_32: int := 0x1_0000_0000

  /** The comparator: a difference converted to a 32-bit signed integer. */
  function Cmp(a: int, b: int): int {
    (a - b + TWO_31) % TWO_32 - TWO_31
  }

  function MaxOf(a: int, b: int): int {
    if Cmp(a, b) >= 0 then a else b
  }

  function MinOf(a: int, b: int): int {
    if Cmp(a, b) <= 0 then a else b
  }

  // ---------- The six pairwise checks ----------

  function CheckFF(t: ElemType, v1: int, v2: int): Option<Value> {
    if Cmp(v1, v2) == 0 then Some(Fixed(t, v1)) else None
  }

  function CheckFI(t: ElemType, v: int, lo: int, hi: int): Option<Value> {
    if Cmp(v, MinOf(lo, hi)) >= 0 && Cmp(v, MaxOf(lo, hi)) <= 0 then Some(Fixed(t, v)) else None
  }

  predicate AnyEqual(values: seq<int>, v: int) {
    exists i :: 0 <= i < |values| && Cmp(values[i], v) == 0
  }

  function CheckFD(t: ElemType, v: int, values: seq<int>): Option<Value> {
    if AnyEqual(values, v) then Some(Fixed(t, v)) else None
  }

  function CheckII(t: ElemType, lo1: int, hi1: int, lo2: int, hi2: int): Option<Value> {
    var lo := MaxOf(MinOf(lo1, hi1), MinOf(lo2, hi2));
    var hi := MinOf(MaxOf(lo1, hi1), MaxOf(lo2, hi2));
    if Cmp(lo, hi) > 0 then None
    else if Cmp(lo, hi) == 0 then Some(Fixed(t, lo))
    else Some(Interval(t, lo, hi))
  }

  /** The values kept by a list check: none, one fixed value, or a list. */
  function FromList(t: ElemType, kept: seq<int>): Option<Value> {
    if kept == [] then None
    else if |kept| == 1 then Some(Fixed(t, kept[0]))
    else Some(Discrete(t, kept))
  }

  /** The interval is used as it stands: `first` below, `second` above. */
  function SelectBetween(values: seq<int>, first: int, second: int): seq<int> {
    if values == [] then []
    else
      var last := values[|values| - 1];
      SelectBetween(values[..|values| - 1], first, second) +
        if Cmp(last, first) >= 0 && Cmp(last, second) <= 0 then [last] else []
  }

  function SelectIn(values: seq<int>, others: seq<int>): seq<int> {
    if values == [] then []
    else
      var last := values[|values| - 1];
      SelectIn(values[..|values| - 1], others) + if AnyMatch(others, last) then [last] else []
  }

  predicate AnyMatch(others: seq<int>, v: int) {
    exists i :: 0 <= i < |others| && Cmp(v, others[i]) == 0
  }

  method IDCapabilityCheck(t: ElemType, first: int, second: int, values: seq<int>) returns (r: Option<Value>)
    ensures r == FromList(t, SelectBetween(values, first, second))
  {
    var tmpOut: seq<int> := [];
    for i := 0 to |values|
      invariant tmpOut == SelectBetween(values[..i], first, second)
    {
      assert values[..i + 1][..i] == values[..i];
      if Cmp(values[i], first) >= 0 && Cmp(values[i], second) <= 0 {
        tmpOut := tmpOut + [values[i]];
      }
    }
    assert values[..|values|] == values;
    if tmpOut == [] {
      return None;
    }
    return if |tmpOut| == 1 then Some(Fixed(t, tmpOut[0])) else Some(Discrete(t, tmpOut));
  }

  method DDCapabilityCheck(t: ElemType, v1: seq<int>, v2: seq<int>) returns (r: Option<Value>)
    ensures r == FromList(t, SelectIn(v1, v2))
  {
    var tmpOut: seq<int> := [];
    for i := 0 to |v1|
      invariant tmpOut == SelectIn(v1[..i], v2)
    {
      assert v1[..i + 1][..i] == v1[..i];
      var j := 0;
      while j < |v2| && Cmp(v1[i], v2[j]) != 0
        invariant 0 <= j <= |v2| && forall m | 0 <= m < j :: Cmp(v1[i], v2[m]) != 0
      {
        j := j + 1;
      }
      if j < |v2| {
        tmpOut := tmpOut + [v1[i]];
      }
    }
    assert v1[..|v1|] == v1;
    if tmpOut == [] {
      return None;
    }
    return if |tmpOut| == 1 then Some(Fixed(t, tmpOut[0])) else Some(Discrete(t, tmpOut));
  }

  /** The dispatch on the shapes of two values of one key; None when they do not meet or are ill-typed. */
  function Check(k: Key, v1: Value, v2: Value): Option<Value>
    requires Known(k)
  {
    var t := TypeOf(k);
    if v1.Foreign? || v2.Foreign? || v1.elem != t || v2.elem != t then None
    else if (v1.Interval? || v2.Interval?) && !IntervalAllowed(k) then None
    else match (v1, v2)
      case (Fixed(_, a), Fixed(_, b)) => CheckFF(t, a, b)
      case (Fixed(_, a), Interval(_, lo, hi)) => CheckFI(t, a, lo, hi)
      case (Fixed(_, a), Discrete(_, s)) => CheckFD(t, a, s)
      case (Interval(_, lo, hi), Fixed(_, b)) => CheckFI(t, b, lo, hi)
      case (Interval(_, lo, hi), Interval(_, lo2, hi2)) => CheckII(t, lo2, hi2, lo, hi)
      case (Interval(_, lo, hi), Discrete(_, s)) => FromList(t, SelectBetween(s, lo, hi))
      case (Discrete(_, s), Fixed(_, b)) => CheckFD(t, b, s)
      case (Discrete(_, s), Interval(_, lo, hi)) => FromList(t, SelectBetween(s, lo, hi))
      case (Discrete(_, s), Discrete(_, s2)) => FromList(t, SelectIn(s2, s))
  }

  // ---------- Meaning ----------

  /** `v` lets the key take the value `x`. */
  ghost predicate Admits(v: Value, x: int) {
    match v
    case Fixed(_, a) => x == a
    case Interval(_, lo, hi) => lo <= x <= hi || hi <= x <= lo
    case Discrete(_, s) => x in s
    case Foreign(_) => false
  }

  /** The key's type, an ordered interval where intervals are allowed, or a non-empty list. */
  ghost predicate WellTyped(k: Key, v: Value) {
    && Known(k) && !v.Foreign? && v.elem == TypeOf(k)
    && (v.Interval? ==> IntervalAllowed(k) && v.first <= v.second)
    && (v.Discrete? ==> v.values != [])
  }

  ghost function Constants(v: Value): set<int> {
    match v
    case Fixed(_, a) => {a}
    case Interval(_, lo, hi) => {lo, hi}
    case Discrete(_, s) => set x | x in s
    case Foreign(_) => {}
  }

  /** All differences fit a signed 32-bit integer. */
  ghost predicate Near(s: set<int>) {
    forall x, y | x in s && y in s :: x - y < TWO_31
  }

  lemma CmpNear(a: int, b: int)
    requires -TWO_31 < a - b < TWO_31
    ensures Cmp(a, b) == a - b
  {
  }

  lemma NearCmp(s: set<int>)
    requires Near(s)
    ensures forall x, y | x in s && y in s :: Cmp(x, y) == x - y
  {
    forall x, y | x in s && y in s
      ensures Cmp(x, y) == x - y
    {
      CmpNear(x, y);
    }
  }

  lemma {:induction false} SelectBetweenMembers(values: seq<int>, first: int, second: int)
    requires forall x | x in values :: Cmp(x, first) == x - first && Cmp(x, second) == x - second
    ensures forall x :: x in SelectBetween(values, first, second) <==> x in values && first <= x <= second
  {
    if values != [] {
      SelectBetweenMembers(values[..|values| - 1], first, second);
      assert values == values[..|values| - 1] + [values[|values| - 1]];
    }
  }

  lemma {:induction false} SelectInMembers(values: seq<int>, others: seq<int>)
    requires forall x, y | x in values && y in others :: Cmp(x, y) == x - y
    ensures forall x :: x in SelectIn(values, others) <==> x in values && x in others
  {
    if values != [] {
      var last := values[|values| - 1];
      SelectInMembers(values[..|values| - 1], others);
      assert values == values[..|values| - 1] + [last];
      assert AnyMatch(others, last) <==> last in others by {
        assert forall i | 0 <= i < |others| :: Cmp(last, others[i]) == last - others[i];
      }
    }
  }

  lemma AnyEqualIsMember(values: seq<int>, v: int)
    requires forall x | x in values :: Cmp(x, v) == x - v
    ensures AnyEqual(values, v) <==> v in values
  {
  }

  /** What a check promises: exactly the common values, within the same type and constants. */
  ghost predicate Meets(k: Key, v1: Value, v2: Value, r: Option<Value>) {
    match r
    case None => forall x :: !(Admits(v1, x) && Admits(v2, x))
    case Some(v) =>
      && (forall x :: Admits(v, x) <==> Admits(v1, x) && Admits(v2, x))
      && WellTyped(k, v) && Constants(v) <= Constants(v1) + Constants(v2)
  }

  lemma ListMeets(k: Key, v1: Value, v2: Value, kept: seq<int>)
    requires Known(k) && forall x :: x in kept <==> Admits(v1, x) && Admits(v2, x)
    requires forall x | x in kept :: x in Constants(v1) + Constants(v2)
    ensures Meets(k, v1, v2, FromList(TypeOf(k), kept))
  {
    var r := FromList(TypeOf(k), kept);
    assert kept == [] || kept[0] in kept;
    assert |kept| == 1 ==> kept == [kept[0]];
    if r.Some? {
      forall x | x in Constants(r.value)
        ensures x in Constants(v1) + Constants(v2)
      {
        assert x in kept;
      }
    }
  }

  lemma IntervalsMeet(k: Key, v1: Value, v2: Value)
    requires WellTyped(k, v1) && WellTyped(k, v2) && v1.Interval? && v2.Interval?
    requires Near(Constants(v1) + Constants(v2))
    ensures Meets(k, v1, v2, CheckII(TypeOf(k), v2.first, v2.second, v1.first, v1.second))
  {
    NearCmp({v1.first, v1.second, v2.first, v2.second});
    var r := CheckII(TypeOf(k), v2.first, v2.second, v1.first, v1.second);
    var lo := if v1.first < v2.first then v2.first else v1.first;
    var hi := if v1.second < v2.second then v1.second else v2.second;
    assert r == if lo > hi then None else if lo == hi then Some(Fixed(TypeOf(k), lo)) else Some(Interval(TypeOf(k), lo, hi));
  }

  lemma BetweenMeets(k: Key, i: Value, d: Value)
    requires WellTyped(k, i) && WellTyped(k, d) && i.Interval? && d.Discrete?
    requires Near(Constants(i) + Constants(d))
    ensures Meets(k, i, d, FromList(TypeOf(k), SelectBetween(d.values, i.first, i.second)))
    ensures Meets(k, d, i, FromList(TypeOf(k), SelectBetween(d.values, i.first, i.second)))
  {
    NearCmp(Constants(i) + Constants(d));
    SelectBetweenMembers(d.values, i.first, i.second);
    ListMeets(k, i, d, SelectBetween(d.values, i.first, i.second));
    ListMeets(k, d, i, SelectBetween(d.values, i.first, i.second));
  }

  lemma FixedMeets(k: Key, f: Value, v: Value)
    requires WellTyped(k, f) && WellTyped(k, v) && f.Fixed? && Near(Constants(f) + Constants(v))
    ensures Meets(k, f, v, Check(k, f, v)) && Meets(k, v, f, Check(k, v, f))
  {
    NearCmp(Constants(f) + Constants(v));
    if v.Discrete? {
      AnyEqualIsMember(v.values, f.value);
    }
  }

  /** On well-typed values whose differences fit, a check computes the intersection. */
  lemma CheckMeets(k: Key, v1: Value, v2: Value)
    requires WellTyped(k, v1) && WellTyped(k, v2) && Near(Constants(v1) + Constants(v2))
    ensures Meets(k, v1, v2, Check(k, v1, v2))
  {
    assert Constants(v1) + Constants(v2) == Constants(v2) + Constants(v1);
    if v1.Fixed? {
      FixedMeets(k, v1, v2);
    } else if v2.Fixed? {
      FixedMeets(k, v2, v1);
    } else if v1.Interval? && v2.Interval? {
      IntervalsMeet(k, v1, v2);
    } else if v1.Interval? {
      BetweenMeets(k, v1, v2);
    } else if v2.Interval? {
      BetweenMeets(k, v2, v1);
    } else {
      NearCmp(Constants(v1) + Constants(v2));
      SelectInMembers(v2.values, v1.values);
      ListMeets(k, v1, v2, SelectIn(v2.values, v1.values));
    }
  }

  /** The first value of the list that the other side admits. */
  ghost predicate FirstCommon(list: seq<int>, other: Value, x: int) {
    exists i :: 0 <= i < |list| && list[i] == x && Admits(other, x) && forall j | 0 <= j < i :: !Admits(other, list[j])
  }

  lemma FirstCommonExtends(front: seq<int>, last: int, other: Value, x: int)
    requires FirstCommon(front, other, x)
    ensures FirstCommon(front + [last], other, x)
  {
    var i :| 0 <= i < |front| && front[i] == x && forall j | 0 <= j < i :: !Admits(other, front[j]);
    var list := front + [last];
    assert list[i] == x && forall j | 0 <= j < i :: list[j] == front[j];
  }

  lemma FirstCommonIsLast(front: seq<int>, last: int, other: Value)
    requires Admits(other, last) && forall x | x in front :: !Admits(other, x)
    ensures FirstCommon(front + [last], other, last)
  {
    var list := front + [last];
    assert list[|front|] == last && forall j | 0 <= j < |front| :: list[j] == front[j] && front[j] in front;
  }

  lemma {:induction false} SelectBetweenFirst(values: seq<int>, other: Value)
    requires other.Interval? && other.first <= other.second
    requires forall x | x in values :: Cmp(x, other.first) == x - other.first && Cmp(x, other.second) == x - other.second
    ensures var kept := SelectBetween(values, other.first, other.second);
            kept != [] ==> FirstCommon(values, other, kept[0])
  {
    if values != [] {
      var front, last := values[..|values| - 1], values[|values| - 1];
      assert values == front + [last];
      SelectBetweenFirst(front, other);
      SelectBetweenMembers(front, other.first, other.second);
      var had := SelectBetween(front, other.first, other.second);
      hide FirstCommon, Cmp;
      if had != [] {
        FirstCommonExtends(front, last, other, had[0]);
      } else if Admits(other, last) {
        assert forall x | x in front :: x !in had;
        FirstCommonIsLast(front, last, other);
      }
    }
  }

  lemma {:induction false} SelectInFirst(values: seq<int>, other: Value)
    requires other.Discrete?
    requires forall x, y | x in values && y in other.values :: Cmp(x, y) == x - y
    ensures var kept := SelectIn(values, other.values);
            kept != [] ==> FirstCommon(values, other, kept[0])
  {
    if values != [] {
      var front, last := values[..|values| - 1], values[|values| - 1];
      assert values == front + [last];
      SelectInFirst(front, other);
      SelectInMembers(front, other.values);
      MatchIsMember(other.values, last);
      var had := SelectIn(front, other.values);
      hide FirstCommon, Cmp, AnyMatch;
      if had != [] {
        FirstCommonExtends(front, last, other, had[0]);
      } else if last in other.values {
        assert forall x | x in front :: x !in had;
        FirstCommonIsLast(front, last, other);
      }
    }
  }

  lemma MatchIsMember(others: seq<int>, v: int)
    requires forall y | y in others :: Cmp(v, y) == v - y
    ensures AnyMatch(others, v) <==> v in others
  {
    assert forall i | 0 <= i < |others| :: Cmp(v, others[i]) == v - others[i];
  }

  /** One value stands for the result of a check: the value itself, the lower end, or the head of the list. */
  function Chosen(v: Value): int
    requires !v.Foreign? && (v.Discrete? ==> v.values != [])
  {
    match v
    case Fixed(_, a) => a
    case Interval(_, lo, _) => lo
    case Discrete(_, s) => s[0]
  }

  /** Which of the common values is chosen from a list: the first one of it, of the second list when there are two. */
  lemma CheckChoosesFirst(k: Key, v1: Value, v2: Value)
    requires WellTyped(k, v1) && WellTyped(k, v2) && Near(Constants(v1) + Constants(v2))
    requires Check(k, v1, v2).Some?
    ensures var r := Check(k, v1, v2).value;
            && !r.Foreign? && (r.Discrete? ==> r.values != [])
            && (v2.Discrete? && !v1.Fixed? ==> FirstCommon(v2.values, v1, Chosen(r)))
            && (v1.Discrete? && v2.Interval? ==> FirstCommon(v1.values, v2, Chosen(r)))
  {
    NearCmp(Constants(v1) + Constants(v2));
    if v2.Discrete? && v1.Interval? {
      SelectBetweenFirst(v2.values, v1);
    } else if v1.Discrete? && v2.Interval? {
      SelectBetweenFirst(v1.values, v2);
    } else if v1.Discrete? && v2.Discrete? {
      SelectInFirst(v2.values, v1);
    }
  }

  /** Without a list, the least common value is chosen. */
  lemma CheckChoosesLeast(k: Key, v1: Value, v2: Value)
    requires WellTyped(k, v1) && WellTyped(k, v2) && Near(Constants(v1) + Constants(v2))
    requires Check(k, v1, v2).Some? && !v1.Discrete? && !v2.Discrete?
    ensures var r := Check(k, v1, v2).value;
            && !r.Foreign? && !r.Discrete?
            && Admits(v1, Chosen(r)) && Admits(v2, Chosen(r))
            && forall x | Admits(v1, x) && Admits(v2, x) :: Chosen(r) <= x
  {
    CheckMeets(k, v1, v2);
    hide Cmp;
  }

  /** A list has several values, and an interval two different ends, whatever was given. */
  lemma CheckShape(k: Key, v1: Value, v2: Value)
    requires WellTyped(k, v1) && WellTyped(k, v2) && Near(Constants(v1) + Constants(v2))
    requires Check(k, v1, v2).Some?
    ensures var r := Check(k, v1, v2).value;
            && (r.Discrete? ==> |r.values| >= 2 && !v1.Fixed? && !v2.Fixed?)
            && (r.Interval? ==> r.first < r.second && v1.Interval? && v2.Interval?)
            && (v1.Fixed? || v2.Fixed? ==> r.Fixed?)
  {
    if v1.Interval? && v2.Interval? {
      CheckMeets(k, v1, v2);
      NearCmp(Constants(v1) + Constants(v2));
    }
  }

  /** Five keys are numbers of 32 bits, bitrates of 64; all other keys are enumerations, without intervals. */
  lemma KeyTypes(k: Key)
    requires Known(k)
    ensures TypeOf(k) == UInt32 <==>
            k in {AudioSampleRate, AudioChannels, AudioMpegVersion, AudioMpegLayer, AacLevel}
    ensures TypeOf(k) == Int64 <==> k == MediaBitrate
    ensures IntervalAllowed(k) <==> k in {AudioSampleRate, AudioChannels, AudioMpegVersion, AudioMpegLayer, AacLevel, MediaBitrate}
  {
  }

  /** A value of another type, and an interval on an enumeration, never get through, on either side. */
  lemma IllTypedIsRefused(k: Key, v1: Value, v2: Value)
    requires Known(k) && Check(k, v1, v2).Some?
    ensures !v1.Foreign? && !v2.Foreign? && v1.elem == TypeOf(k) == v2.elem
    ensures v1.Interval? || v2.Interval? ==> IntervalAllowed(k)
  {
  }

  // ---------- Where the hypotheses bite ----------

  /** Two fixed values are intersected correctly exactly when they are equal or their difference does not wrap to 0. */
  lemma FixedPairIff(k: Key, a: int, b: int)
    requires Known(k)
    ensures Meets(k, Fixed(TypeOf(k), a), Fixed(TypeOf(k), b), Check(k, Fixed(TypeOf(k), a), Fixed(TypeOf(k), b))) <==>
            a == b || (a - b) % TWO_32 != 0
  {
    var r := Check(k, Fixed(TypeOf(k), a), Fixed(TypeOf(k), b));
    assert Cmp(a, b) == 0 <==> (a - b) % TWO_32 == 0 by {
      CmpZero(a, b);
    }
    if r.Some? && a != b {
      assert Admits(r.value, a) && !Admits(Fixed(TypeOf(k), b), a);
    }
  }

  lemma CmpZero(a: int, b: int)
    ensures Cmp(a, b) == 0 <==> (a - b) % TWO_32 == 0
  {
  }

  /** Two bitrates 2^32 apart pass for equal. */
  lemma BitratesApartPassForEqual()
    ensures Check(MediaBitrate, Fixed(Int64, 0), Fixed(Int64, TWO_32)) == Some(Fixed(Int64, 0))
  {
  }

  /** An interval wider than 2^31 is turned inside out: it rejects a value between its ends. */
  lemma WideIntervalRejectsInside()
    ensures Check(AudioSampleRate, Fixed(UInt32, 5), Interval(UInt32, 0, 3_000_000_000)) == None
  {
  }

  /** For 32-bit values, a fixed value is checked correctly against an interval exactly when it is narrower than 2^31. */
  lemma FixedInIntervalIff(k: Key, lo: int, hi: int)
    requires Known(k) && TypeOf(k) == UInt32 && 0 <= lo <= hi < TWO_32
    ensures (forall v | 0 <= v < TWO_32 ::
              Check(k, Fixed(UInt32, v), Interval(UInt32, lo, hi)).Some? <==> lo <= v <= hi)
            <==> hi - lo < TWO_31
  {
    if hi - lo < TWO_31 {
      forall v | 0 <= v < TWO_32
        ensures Check(k, Fixed(UInt32, v), Interval(UInt32, lo, hi)).Some? <==> lo <= v <= hi
      {
        NarrowIntervalIsRight(lo, hi, v);
      }
    } else {
      var v := if hi - lo == TWO_31 then hi else lo + 1;
      assert Check(k, Fixed(UInt32, v), Interval(UInt32, lo, hi)).None?;
    }
  }

  lemma NarrowIntervalIsRight(lo: int, hi: int, v: int)
    requires 0 <= lo <= hi < TWO_32 && hi - lo < TWO_31 && 0 <= v < TWO_32
    ensures Cmp(v, MinOf(lo, hi)) >= 0 && Cmp(v, MaxOf(lo, hi)) <= 0 <==> lo <= v <= hi
  {
    CmpNear(lo, hi);
    assert Cmp(v, lo) == if v - lo >= TWO_31 then v - lo - TWO_32 else if v - lo < -TWO_31 then v - lo + TWO_32 else v - lo;
    assert Cmp(v, hi) == if v - hi >= TWO_31 then v - hi - TWO_32 else if v - hi < -TWO_31 then v - hi + TWO_32 else v - hi;
  }

  /** What the check of a value against an interval sees of them: positions on a circle of 2^32, and half of it at most. */
  predicate OnArc(lo: int, hi: int, v: int) {
    var width := (hi - lo) % TWO_32;
    if width < TWO_31 then (v - lo) % TWO_32 <= width
    else if width == TWO_31 then (v - lo) % TWO_32 < width
    else (v - hi) % TWO_32 <= TWO_32 - width
  }

  lemma CmpSign(a: int, b: int)
    ensures Cmp(a, b) >= 0 <==> (a - b) % TWO_32 < TWO_31
    ensures Cmp(a, b) <= 0 <==> (a - b) % TWO_32 == 0 || (a - b) % TWO_32 >= TWO_31
  {
  }

  /** Differences on the circle add up. */
  lemma CircleSum(v: int, lo: int, hi: int)
    ensures var d := (v - lo) % TWO_32 - (hi - lo) % TWO_32;
            (v - hi) % TWO_32 == if d >= 0 then d else d + TWO_32
    ensures (lo - hi) % TWO_32 == if (hi - lo) % TWO_32 == 0 then 0 else TWO_32 - (hi - lo) % TWO_32
  {
  }

  /** For every key and every interval, a fixed value is accepted exactly on that arc. */
  lemma FixedInIntervalOnArc(k: Key, lo: int, hi: int, v: int)
    requires Known(k) && IntervalAllowed(k)
    ensures Check(k, Fixed(TypeOf(k), v), Interval(TypeOf(k), lo, hi)).Some? <==> OnArc(lo, hi, v)
  {
    CmpSign(lo, hi);
    CmpSign(v, lo);
    CmpSign(v, hi);
    CircleSum(v, lo, hi);
    hide Cmp;
  }

  /** Against an interval narrower than 2^31, a value is judged rightly exactly inside it and off its arc. */
  lemma FixedInNarrowIntervalIff(k: Key, lo: int, hi: int, v: int)
    requires Known(k) && IntervalAllowed(k) && lo <= hi && hi - lo < TWO_31
    ensures (Check(k, Fixed(TypeOf(k), v), Interval(TypeOf(k), lo, hi)).Some? <==> lo <= v <= hi) <==>
            lo <= v <= hi || (v - lo) % TWO_32 > hi - lo
  {
    FixedInIntervalOnArc(k, lo, hi, v);
  }

  /** A bitrate just above 2^32 passes for one between 0 and 10. */
  lemma NarrowIntervalAcceptsOutside()
    ensures Check(MediaBitrate, Fixed(Int64, TWO_32 + 5), Interval(Int64, 0, 10)) == Some(Fixed(Int64, TWO_32 + 5))
  {
  }

  /** The lower end is on the arc, one turn below it too; the upper end likewise, and one turn above it. */
  lemma EndsOnArc(lo: int, hi: int)
    ensures OnArc(lo, hi, lo - TWO_32)
    ensures (hi - lo) % TWO_32 != TWO_31 ==> OnArc(lo, hi, hi + TWO_32)
    ensures (hi - lo) % TWO_32 == TWO_31 ==> !OnArc(lo, hi, hi)
  {
    CircleSum(lo - TWO_32, lo, hi);
    assert (lo - TWO_32 - lo) % TWO_32 == 0;
    assert (hi + TWO_32 - hi) % TWO_32 == 0;
    assert (hi + TWO_32 - lo) % TWO_32 == (hi - lo) % TWO_32;
  }

  /** On an interval of at least a turn, some value inside is off the arc. */
  lemma InsideOffArc(lo: int, hi: int)
    requires hi - lo >= TWO_32
    ensures var width := (hi - lo) % TWO_32;
            if width < TWO_31 then !OnArc(lo, hi, lo + width + 1) else width > TWO_31 ==> !OnArc(lo, hi, hi - 1)
  {
    var width := (hi - lo) % TWO_32;
    assert width < TWO_31 ==> (lo + width + 1 - lo) % TWO_32 == width + 1;
    assert (hi - 1 - hi) % TWO_32 == TWO_32 - 1;
  }

  const TWO_63: int := 0x8000_0000_0000_0000

  /** For 64-bit keys, there is no interval at all against which every value is judged rightly. */
  lemma NoWideKeyIntervalIsExact(k: Key, lo: int, hi: int) returns (v: int)
    requires Known(k) && TypeOf(k) == Int64 && -TWO_63 <= lo <= hi < TWO_63
    ensures -TWO_63 <= v < TWO_63
    ensures !(Check(k, Fixed(Int64, v), Interval(Int64, lo, hi)).Some? <==> lo <= v <= hi)
  {
    var width := (hi - lo) % TWO_32;
    if lo - TWO_32 >= -TWO_63 {
      v := lo - TWO_32;
    } else if width == TWO_31 {
      v := hi;
    } else if hi + TWO_32 < TWO_63 {
      v := hi + TWO_32;
    } else if width < TWO_31 {
      v := lo + width + 1;
    } else {
      v := hi - 1;
    }
    hide OnArc, Check;
    EndsOnArc(lo, hi);
    if hi - lo >= TWO_32 { InsideOffArc(lo, hi); }
    FixedInIntervalOnArc(k, lo, hi, v);
  }

  /**
   * A list check does not put the ends of its interval in order. Against a list with a value between the ends,
   * it is right exactly when the interval is given in order.
   */
  lemma ListNeedsOrderedInterval(k: Key, first: int, second: int, values: seq<int>)
    requires Known(k) && IntervalAllowed(k) && Near({first, second} + set x | x in values)
    requires exists x :: x in values && (first <= x <= second || second <= x <= first)
    ensures var i, d := Interval(TypeOf(k), first, second), Discrete(TypeOf(k), values);
            (forall x :: (Check(k, i, d).Some? && Admits(Check(k, i, d).value, x)) <==> Admits(i, x) && Admits(d, x))
            <==> first <= second
  {
    var i, d := Interval(TypeOf(k), first, second), Discrete(TypeOf(k), values);
    var x :| x in values && (first <= x <= second || second <= x <= first);
    var kept := SelectBetween(values, first, second);
    assert kept == [] || kept[0] in kept;
    NearCmp({first, second} + set y | y in values);
    SelectBetweenMembers(values, first, second);
    assert Admits(i, x) && Admits(d, x);
    if first <= second {
      BetweenMeets(k, i, d);
    } else {
      assert forall y :: y !in kept;
    }
  }

  /** An interval given the wrong way round admits 7 as a fixed value but not in a list. */
  lemma ReversedIntervalRejectsList()
    ensures var i := Interval(UInt32, 10, 5);
            && Check(AudioChannels, i, Fixed(UInt32, 7)) == Some(Fixed(UInt32, 7))
            && Check(AudioChannels, i, Discrete(UInt32, [7])) == None
  {
    assert [7][..0] == [] && [7][..|[7]| - 1] == [];
  }
}
