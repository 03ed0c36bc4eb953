/** Merging whole capabilities key by key, MIME containment, and merging metadata with a capability. */
module CapabilityMerge {
  import opened AVBufferCommon
  import opened CapabilityValues

  type KeyMap = map<Key, Value>

  datatype Capability = Capability(mime: string, keys: KeyMap)

  // ---------- Keys ----------

  /** The shared key has no common value. */
  predicate Clash(a: KeyMap, b: KeyMap, k: Key) {
    k in a && k in b && Known(k) && Check(k, a[k], b[k]).None?
  }

  function MergedValue(a: KeyMap, b: KeyMap, k: Key): Value
    requires (k in a || k in b) && !Clash(a, b, k)
  {
    if k !in b then a[k]
    else if k in a && Known(k) then Check(k, a[k], b[k]).value
    else b[k]
  }

  /** Intersects shared known keys and keeps the others; None when some shared key has no common value. */
  function MergeKeys(a: KeyMap, b: KeyMap): Option<KeyMap> {
    if exists k :: k in a && Clash(a, b, k) then None
    else Some(map k | k in a.Keys + b.Keys :: MergedValue(a, b, k))
  }

  method MergeCapabilityKeys(originCap: KeyMap, otherCap: KeyMap) returns (ok: bool, resCap: KeyMap)
    ensures ok <==> MergeKeys(originCap, otherCap).Some?
    ensures resCap == if ok then MergeKeys(originCap, otherCap).value else map[]
  {
    ok, resCap := MergeShared(originCap, otherCap);
    if ok {
      SharedAndMissing(originCap, otherCap, resCap);
      resCap := AddMissing(resCap, otherCap);
    }
  }

  /** What the first loop writes for one key of the first capability. */
  predicate Written(a: KeyMap, b: KeyMap, k: Key) {
    k in a && (k in b ==> Known(k))
  }

  /** The first loop of the merge: the keys of the first capability. */
  method MergeShared(originCap: KeyMap, otherCap: KeyMap) returns (ok: bool, resCap: KeyMap)
    ensures ok <==> forall k | k in originCap :: !Clash(originCap, otherCap, k)
    ensures ok ==> forall k :: k in resCap <==> Written(originCap, otherCap, k)
    ensures ok ==> forall k | k in originCap && k in resCap :: resCap[k] == MergedValue(originCap, otherCap, k)
    ensures !ok ==> resCap == map[]
  {
    hide Check;
    resCap := map[];
    var rest := originCap.Keys;
    while rest != {}
      invariant rest <= originCap.Keys
      invariant forall k | k in originCap && k !in rest :: !Clash(originCap, otherCap, k)
      invariant forall k :: k in resCap <==> Written(originCap, otherCap, k) && k !in rest
      invariant forall k | k in resCap :: resCap[k] == MergedValue(originCap, otherCap, k)
      decreases |rest|
    {
      var k :| k in rest;
      rest := rest - {k};
      if k !in otherCap {
        resCap := resCap[k := originCap[k]];
      } else if Known(k) {
        var tmp := CapabilityValueCheck(k, originCap[k], otherCap[k]);
        if tmp.None? {
          assert Clash(originCap, otherCap, k);
          return false, map[];
        }
        resCap := resCap[k := tmp.value];
      }
    }
    ok := true;
  }

  lemma SharedAndMissing(a: KeyMap, b: KeyMap, shared: KeyMap)
    requires forall k | k in a :: !Clash(a, b, k)
    requires forall k :: k in shared <==> Written(a, b, k)
    requires forall k | k in a && k in shared :: shared[k] == MergedValue(a, b, k)
    ensures MergeKeys(a, b) == Some(b + shared)
  {
    assert forall k | k in a.Keys + b.Keys :: !Clash(a, b, k);
    var r := MergeKeys(a, b).value;
    forall k
      ensures k in b + shared <==> k in r
      ensures k in r ==> (b + shared)[k] == r[k]
    {
      if k in r {
        assert r[k] == MergedValue(a, b, k);
      }
    }
    assert b + shared == r;
  }

  /** The second loop of the merge: keys the first did not write. */
  method AddMissing(resCap0: KeyMap, otherCap: KeyMap) returns (resCap: KeyMap)
    ensures resCap == otherCap + resCap0
  {
    resCap := resCap0;
    var rest := otherCap.Keys;
    while rest != {}
      invariant rest <= otherCap.Keys
      invariant forall k :: k in resCap <==> k in resCap0 || (k in otherCap && k !in rest)
      invariant forall k | k in resCap :: resCap[k] == if k in resCap0 then resCap0[k] else otherCap[k]
      decreases |rest|
    {
      var k :| k in rest;
      rest := rest - {k};
      if k !in resCap {
        resCap := resCap[k := otherCap[k]];
      }
    }
  }

  /** The dispatch, with the list checks as loops. */
  method CapabilityValueCheck(k: Key, v1: Value, v2: Value) returns (r: Option<Value>)
    requires Known(k)
    ensures r == Check(k, v1, v2)
  {
    var t := TypeOf(k);
    if v1.Foreign? || v2.Foreign? || v1.elem != t || v2.elem != t {
      return None;
    }
    if (v1.Interval? || v2.Interval?) && !IntervalAllowed(k) {
      return None;
    }
    match (v1, v2) {
      case (Interval(_, lo, hi), Discrete(_, s)) => r := IDCapabilityCheck(t, lo, hi, s);
      case (Discrete(_, s), Interval(_, lo, hi)) => r := IDCapabilityCheck(t, lo, hi, s);
      case (Discrete(_, s), Discrete(_, s2)) => r := DDCapabilityCheck(t, s2, s);
      case _ => r := Check(k, v1, v2);
    }
  }

  // ---------- Meaning ----------

  type Assignment = map<Key, int>

  /** The assignment gives every key of the capability a value that the capability admits. */
  ghost predicate Admitted(c: KeyMap, values: Assignment) {
    forall k | k in c :: k in values && Admits(c[k], values[k])
  }

  ghost predicate AllWellTyped(c: KeyMap) {
    forall k | k in c :: WellTyped(k, c[k])
  }

  ghost function ConstantsAt(c: KeyMap, k: Key): set<int> {
    if k in c then Constants(c[k]) else {}
  }

  /** For every key, the constants of both capabilities are near each other. */
  ghost predicate NearKeys(a: KeyMap, b: KeyMap) {
    forall k | k in a && k in b :: Near(Constants(a[k]) + Constants(b[k]))
  }

  ghost function Pick(v: Value): (x: int)
    requires exists k :: WellTyped(k, v)
    ensures Admits(v, x)
  {
    match v
    case Fixed(_, a) => a
    case Interval(_, lo, hi) => lo
    case Discrete(_, s) => s[0]
  }

  lemma MergedKeyMeaning(a: KeyMap, b: KeyMap, k: Key)
    requires AllWellTyped(a) && AllWellTyped(b) && NearKeys(a, b) && (k in a || k in b) && !Clash(a, b, k)
    ensures var v := MergedValue(a, b, k);
            && WellTyped(k, v) && Constants(v) <= ConstantsAt(a, k) + ConstantsAt(b, k)
            && forall x :: Admits(v, x) <==> (k in a ==> Admits(a[k], x)) && (k in b ==> Admits(b[k], x))
  {
    if k in a && k in b {
      CheckMeets(k, a[k], b[k]);
    }
  }

  /**
   * On well-typed keys whose differences fit, a merge succeeds exactly when some assignment suits both
   * capabilities, and then admits exactly the assignments that suit both.
   */
  lemma MergeMeaning(a: KeyMap, b: KeyMap)
    requires AllWellTyped(a) && AllWellTyped(b) && NearKeys(a, b)
    ensures MergeKeys(a, b).Some? <==> exists values :: Admitted(a, values) && Admitted(b, values)
    ensures MergeKeys(a, b).Some? ==>
      && AllWellTyped(MergeKeys(a, b).value)
      && (forall k | k in MergeKeys(a, b).value :: Constants(MergeKeys(a, b).value[k]) <= ConstantsAt(a, k) + ConstantsAt(b, k))
      && (forall values :: Admitted(MergeKeys(a, b).value, values) <==> Admitted(a, values) && Admitted(b, values))
  {
    if MergeKeys(a, b).None? {
      var k :| k in a && Clash(a, b, k);
      CheckMeets(k, a[k], b[k]);
    } else {
      MergedMeaning(a, b);
      var r := MergeKeys(a, b).value;
      var values := map k | k in r :: Pick(r[k]);
      assert Admitted(r, values);
    }
  }

  lemma MergedMeaning(a: KeyMap, b: KeyMap)
    requires AllWellTyped(a) && AllWellTyped(b) && NearKeys(a, b) && MergeKeys(a, b).Some?
    ensures var r := MergeKeys(a, b).value;
            && r.Keys == a.Keys + b.Keys
            && AllWellTyped(r)
            && (forall k | k in r :: Constants(r[k]) <= ConstantsAt(a, k) + ConstantsAt(b, k))
            && (forall values :: Admitted(r, values) <==> Admitted(a, values) && Admitted(b, values))
  {
    var r := MergeKeys(a, b).value;
    forall k | k in r
      ensures WellTyped(k, r[k]) && Constants(r[k]) <= ConstantsAt(a, k) + ConstantsAt(b, k)
      ensures forall x :: Admits(r[k], x) <==> (k in a ==> Admits(a[k], x)) && (k in b ==> Admits(b[k], x))
    {
      MergedKeyMeaning(a, b, k);
    }
    forall values
      ensures Admitted(r, values) <==> Admitted(a, values) && Admitted(b, values)
    {
      if Admitted(r, values) {
        assert forall k | k in a :: k in r;
        assert forall k | k in b :: k in r;
      }
    }
  }

  /** Same success, same admitted assignments. */
  ghost predicate SameMeaning(a: Option<KeyMap>, b: Option<KeyMap>) {
    && (a.Some? <==> b.Some?)
    && (a.Some? ==> forall values :: Admitted(a.value, values) <==> Admitted(b.value, values))
  }

  lemma MergeCommutes(a: KeyMap, b: KeyMap)
    requires AllWellTyped(a) && AllWellTyped(b) && NearKeys(a, b)
    ensures SameMeaning(MergeKeys(a, b), MergeKeys(b, a))
  {
    assert NearKeys(b, a) by {
      forall k | k in a && k in b
        ensures Near(Constants(b[k]) + Constants(a[k]))
      {
        assert Constants(a[k]) + Constants(b[k]) == Constants(b[k]) + Constants(a[k]);
      }
    }
    MergeMeaning(a, b);
    MergeMeaning(b, a);
  }

  ghost function Then(a: Option<KeyMap>, b: KeyMap): Option<KeyMap> {
    if a.None? then None else MergeKeys(a.value, b)
  }

  ghost predicate NearThree(a: KeyMap, b: KeyMap, c: KeyMap) {
    forall k :: Near(ConstantsAt(a, k) + ConstantsAt(b, k) + ConstantsAt(c, k))
  }

  lemma NearSubset(s: set<int>, t: set<int>)
    requires s <= t && Near(t)
    ensures Near(s)
  {
  }

  lemma NearPair(a: KeyMap, b: KeyMap, c: KeyMap, x: KeyMap, y: KeyMap)
    requires NearThree(a, b, c)
    requires forall k | k in x :: Constants(x[k]) <= ConstantsAt(a, k) + ConstantsAt(b, k) + ConstantsAt(c, k)
    requires forall k | k in y :: Constants(y[k]) <= ConstantsAt(a, k) + ConstantsAt(b, k) + ConstantsAt(c, k)
    ensures NearKeys(x, y)
  {
    forall k | k in x && k in y
      ensures Near(Constants(x[k]) + Constants(y[k]))
    {
      NearSubset(Constants(x[k]) + Constants(y[k]), ConstantsAt(a, k) + ConstantsAt(b, k) + ConstantsAt(c, k));
    }
  }

  /** A merge of two followed by a third admits exactly what all three admit, and succeeds exactly if they meet. */
  lemma MergeThree(a: KeyMap, b: KeyMap, c: KeyMap)
    requires AllWellTyped(a) && AllWellTyped(b) && AllWellTyped(c) && NearThree(a, b, c)
    ensures var r := Then(MergeKeys(a, b), c);
            && (r.Some? <==> exists values :: Admitted(a, values) && Admitted(b, values) && Admitted(c, values))
            && (r.Some? ==> forall values ::
                  Admitted(r.value, values) <==> Admitted(a, values) && Admitted(b, values) && Admitted(c, values))
  {
    NearPair(a, b, c, a, b);
    MergeMeaning(a, b);
    var ab := MergeKeys(a, b);
    if ab.Some? {
      NearPair(a, b, c, ab.value, c);
      MergeMeaning(ab.value, c);
    }
  }

  lemma MergeAssociates(a: KeyMap, b: KeyMap, c: KeyMap)
    requires AllWellTyped(a) && AllWellTyped(b) && AllWellTyped(c) && NearThree(a, b, c)
    ensures SameMeaning(Then(MergeKeys(a, b), c), if MergeKeys(b, c).None? then None else MergeKeys(a, MergeKeys(b, c).value))
  {
    hide MergeKeys, AllWellTyped, Admitted;
    MergeThree(a, b, c);
    assert NearThree(b, c, a) by {
      forall k
        ensures Near(ConstantsAt(b, k) + ConstantsAt(c, k) + ConstantsAt(a, k))
      {
        NearSubset(ConstantsAt(b, k) + ConstantsAt(c, k) + ConstantsAt(a, k),
                   ConstantsAt(a, k) + ConstantsAt(b, k) + ConstantsAt(c, k));
      }
    }
    MergeThree(b, c, a);
    NearPair(b, c, a, b, c);
    MergeMeaning(b, c);
    var bc := MergeKeys(b, c);
    if bc.Some? {
      NearPair(b, c, a, bc.value, a);
      NearPair(b, c, a, a, bc.value);
      MergeCommutes(a, bc.value);
    }
  }

  /** A key that only one side has is kept as it is; of an unknown key that both have, the second value is. */
  lemma MergeKeepsOthers(a: KeyMap, b: KeyMap, k: Key)
    requires MergeKeys(a, b).Some? && (k in a || k in b)
    ensures var r := MergeKeys(a, b).value;
            && k in r
            && (k !in b ==> r[k] == a[k])
            && (k !in a ==> r[k] == b[k])
            && (k in a && k in b && !Known(k) ==> r[k] == b[k])
  {
  }

  // ---------- MIME containment ----------

  /** Position of the first slash, or the length. */
  function FindSlash(s: string): (i: nat)
    ensures i <= |s| && (i < |s| ==> s[i] == '/') && forall j :: 0 <= j < i ==> s[j] != '/'
  {
    if s == "" || s[0] == '/' then 0 else 1 + FindSlash(s[1..])
  }

  function Lower(c: char): char {
    if 'A' <= c <= 'Z' then c - 'A' + 'a' else c
  }

  predicate EqIgnoreCase(a: string, b: string) {
    |a| == |b| && forall i | 0 <= i < |a| :: Lower(a[i]) == Lower(b[i])
  }

  /** Of the form xx/xxx, with something before the slash. */
  predicate HasMimeForm(s: string) {
    0 < FindSlash(s) < |s|
  }

  predicate IsSubsetMime(subset: string, universe: string) {
    HasMimeForm(subset) &&
    (universe == "*" ||
     (HasMimeForm(universe) &&
      var p, q := FindSlash(subset), FindSlash(universe);
      && EqIgnoreCase(subset[..p], universe[..q])
      && (universe[q + 1..] == "*" || EqIgnoreCase(universe[q + 1..], subset[p + 1..]))))
  }

  lemma EqIgnoreCaseTransitive(a: string, b: string, c: string)
    requires EqIgnoreCase(a, b) && EqIgnoreCase(b, c)
    ensures EqIgnoreCase(a, c)
  {
  }

  /** Reflexive exactly on well-formed MIME strings; "*" and "audio" are not contained in themselves. */
  lemma SubsetMimeReflexiveIff(m: string)
    ensures IsSubsetMime(m, m) <==> HasMimeForm(m)
  {
  }

  lemma SubsetMimeTransitive(a: string, b: string, c: string)
    requires IsSubsetMime(a, b) && IsSubsetMime(b, c)
    ensures IsSubsetMime(a, c)
  {
    assert FindSlash("*") == 1 by {
      assert "*"[1..] == "";
    }
    if c != "*" {
      var p, q, r := FindSlash(a), FindSlash(b), FindSlash(c);
      EqIgnoreCaseTransitive(a[..p], b[..q], c[..r]);
      if c[r + 1..] != "*" {
        StarMatchesStar(c[r + 1..], b[q + 1..]);
        EqIgnoreCaseTransitive(c[r + 1..], b[q + 1..], a[p + 1..]);
      }
    }
  }

  lemma StarMatchesStar(a: string, b: string)
    requires EqIgnoreCase(a, b) && a != "*"
    ensures b != "*"
  {
  }

  lemma {:induction false} FirstSlash(t: string, s: string)
    requires '/' !in t
    ensures FindSlash(t + "/" + s) == |t|
  {
    var m := t + "/" + s;
    assert m[|t|] == '/';
    assert forall i | 0 <= i < |t| :: m[i] == t[i];
  }

  /** Two MIME strings, taken apart at the slash: the types agree, and the universe leaves the rest open or agrees. */
  lemma SubsetMimeIff(t: string, s: string, u: string, v: string)
    requires t != "" && '/' !in t && u != "" && '/' !in u
    ensures IsSubsetMime(t + "/" + s, u + "/" + v) <==> EqIgnoreCase(t, u) && (v == "*" || EqIgnoreCase(s, v))
  {
    FirstSlash(t, s);
    FirstSlash(u, v);
    var a, b := t + "/" + s, u + "/" + v;
    assert a[..|t|] == t && a[|t| + 1..] == s;
    assert b[..|u|] == u && b[|u| + 1..] == v;
    assert b[|u|] == '/' && b != "*";
  }

  /** A string has the form exactly when it can be taken apart so. */
  lemma MimeFormIff(m: string)
    ensures HasMimeForm(m) <==> exists t: string, s: string :: t != "" && '/' !in t && m == t + ("/" + s)
  {
    if HasMimeForm(m) {
      var p := FindSlash(m);
      var t, s := m[..p], m[p + 1..];
      assert m == t + ("/" + s) && '/' !in t && t != "";
    } else if exists t: string, s: string :: t != "" && '/' !in t && m == t + ("/" + s) {
      var t: string, s: string :| t != "" && '/' !in t && m == t + ("/" + s);
      assert t + ("/" + s) == t + "/" + s;
      FirstSlash(t, s);
    }
  }

  /** The universe "*" takes every string of that form; any other string without it has no part in containment. */
  lemma SubsetMimeStar(a: string, b: string)
    ensures IsSubsetMime(a, "*") <==> HasMimeForm(a)
    ensures !HasMimeForm(a) ==> !IsSubsetMime(a, b)
    ensures !HasMimeForm(b) && b != "*" ==> !IsSubsetMime(a, b)
  {
  }

  /** Case does not matter, and nothing else is overlooked. */
  lemma EqIgnoreCaseIsEquivalence(a: string, b: string)
    ensures EqIgnoreCase(a, a) && (EqIgnoreCase(a, b) <==> EqIgnoreCase(b, a))
    ensures EqIgnoreCase("Audio", "aUDIO") && !EqIgnoreCase("audio", "video")
    ensures (forall c | c in a + b :: !('A' <= c <= 'Z')) ==> (EqIgnoreCase(a, b) <==> a == b)
  {
    assert "audio"[0] != "video"[0];
    if forall c | c in a + b :: !('A' <= c <= 'Z') {
      assert forall i | 0 <= i < |a| :: a[i] in a + b;
      assert forall i | 0 <= i < |b| :: b[i] in a + b;
    }
  }

  // ---------- Whole capabilities ----------

  function Merge(origin: Capability, other: Capability): Option<Capability> {
    if !IsSubsetMime(origin.mime, other.mime) || MergeKeys(origin.keys, other.keys).None? then None
    else Some(Capability(origin.mime, MergeKeys(origin.keys, other.keys).value))
  }

  /** A merge narrows the MIME string to the origin's, and refuses a capability of another kind. */
  lemma MergeMime(origin: Capability, other: Capability)
    ensures Merge(origin, other).Some? <==> IsSubsetMime(origin.mime, other.mime) && MergeKeys(origin.keys, other.keys).Some?
    ensures Merge(origin, other).Some? ==>
      Merge(origin, other).value.mime == origin.mime && Merge(origin, other).value.keys == MergeKeys(origin.keys, other.keys).value
  {
  }

  /** An AAC decoder is no match for MP3. */
  lemma OtherSubtypeIsRefused()
    ensures Merge(Capability("audio/mpeg", map[]), Capability("audio/aac", map[])).None?
  {
    assert "audio/mpeg" == "audio" + "/" + "mpeg" && "audio/aac" == "audio" + "/" + "aac";
    SubsetMimeIff("audio", "mpeg", "audio", "aac");
  }

  method MergeCapability(originCap: Capability, otherCap: Capability) returns (ok: bool, resCap: Capability)
    ensures ok <==> Merge(originCap, otherCap).Some?
    ensures resCap == if ok then Merge(originCap, otherCap).value else Capability("", map[])
  {
    if !IsSubsetMime(originCap.mime, otherCap.mime) {
      return false, Capability("", map[]);
    }
    var keys;
    ok, keys := MergeCapabilityKeys(originCap.keys, otherCap.keys);
    return ok, Capability(if ok then originCap.mime else "", keys);
  }

  /** The first capability of the list that merges decides; later ones are not looked at. */
  method ApplyCapabilitySet(originCap: Capability, capabilitySet: seq<Capability>, resCap0: Capability)
    returns (ok: bool, resCap: Capability)
    ensures ok <==> exists i :: 0 <= i < |capabilitySet| && Merge(originCap, capabilitySet[i]).Some?
    ensures ok ==> exists i ::
                     && 0 <= i < |capabilitySet| && Merge(originCap, capabilitySet[i]) == Some(resCap)
                     && forall j | 0 <= j < i :: Merge(originCap, capabilitySet[j]).None?
    ensures !ok ==> resCap == if capabilitySet == [] then resCap0 else Capability("", map[])
  {
    resCap := resCap0;
    for i := 0 to |capabilitySet|
      invariant forall j | 0 <= j < i :: Merge(originCap, capabilitySet[j]).None?
      invariant resCap == if i == 0 then resCap0 else Capability("", map[])
    {
      ok, resCap := MergeCapability(originCap, capabilitySet[i]);
      if ok {
        return;
      }
    }
    ok := false;
  }

  // ---------- Metadata ----------

  datatype Tag = MimeTag | KeyTag(key: Key) | OtherTag(id: nat)

  type Meta = map<Tag, Value>

  /** One value out of a capability value. */
  function Extract(k: Key, v: Value): Option<Value>
    requires Known(k)
  {
    if v.Foreign? || v.elem != TypeOf(k) then None
    else match v
      case Fixed(_, _) => Some(v)
      case Interval(t, first, _) => Some(Fixed(t, first))
      case Discrete(t, values) => if values == [] then None else Some(Fixed(t, values[0]))
  }

  /** The known keys of the metadata, as a capability. */
  function KeysOf(meta: Meta): KeyMap {
    map t | t in meta && t.KeyTag? && Known(t.key) :: t.key := meta[t]
  }

  predicate Fixes(keys: KeyMap, k: Key) {
    k in keys && Known(k) && Extract(k, keys[k]).Some?
  }

  /** The entries that negotiation writes. */
  function FixedEntries(keys: KeyMap): Meta {
    map k | k in keys && Fixes(keys, k) :: KeyTag(k) := Extract(k, keys[k]).value
  }

  /** The metadata with the capability's MIME and every negotiated key fixed to one value. */
  function FixInto(meta: Meta, mime: string, keys: KeyMap): Meta {
    meta[MimeTag := Foreign(mime)] + FixedEntries(keys)
  }

  function MergeMeta(meta: Meta, cap: Capability): Option<Meta> {
    var r := Merge(Capability(cap.mime, KeysOf(meta)), cap);
    if r.None? then None else Some(FixInto(meta, cap.mime, r.value.keys))
  }

  method MergeMetaWithCapability(meta: Meta, cap: Capability) returns (ok: bool, resMeta: Meta)
    ensures ok <==> MergeMeta(meta, cap).Some?
    ensures resMeta == if ok then MergeMeta(meta, cap).value else map[]
  {
    hide IsSubsetMime, MergeKeys, FixInto, Fixes, KeysOf;
    var resCap;
    ok, resCap := MergeCapability(Capability(cap.mime, KeysOf(meta)), cap);
    if !ok {
      return false, map[];
    }
    resMeta := FixKeys(meta[MimeTag := Foreign(cap.mime)], resCap.keys);
    SameEntries(resMeta, meta, cap.mime, resCap.keys);
  }

  method FixKeys(base: Meta, keys: KeyMap) returns (resMeta: Meta)
    ensures forall t :: t in resMeta <==> t in base || (t.KeyTag? && Fixes(keys, t.key))
    ensures forall t | t in resMeta ::
      resMeta[t] == if t.KeyTag? && Fixes(keys, t.key) then Extract(t.key, keys[t.key]).value else base[t]
  {
    hide Extract;
    resMeta := base;
    var rest := keys.Keys;
    while rest != {}
      invariant rest <= keys.Keys
      invariant forall t :: t in resMeta <==> t in base || (t.KeyTag? && t.key !in rest && Fixes(keys, t.key))
      invariant forall t | t in resMeta ::
        resMeta[t] == if t.KeyTag? && t.key !in rest && Fixes(keys, t.key) then Extract(t.key, keys[t.key]).value
                      else base[t]
      decreases |rest|
    {
      var k :| k in rest;
      rest := rest - {k};
      if Known(k) {
        var tmp := Extract(k, keys[k]);
        if tmp.Some? {
          resMeta := resMeta[KeyTag(k) := tmp.value];
        }
      }
    }
  }

  lemma SameEntries(res: Meta, meta: Meta, mime: string, keys: KeyMap)
    requires forall t :: t in res <==> t in meta || t == MimeTag || (t.KeyTag? && Fixes(keys, t.key))
    requires forall t | t in res ::
      res[t] == if t.KeyTag? && Fixes(keys, t.key) then Extract(t.key, keys[t.key]).value
                else if t == MimeTag then Foreign(mime) else meta[t]
    ensures res == FixInto(meta, mime, keys)
  {
    forall t
      ensures t in FixInto(meta, mime, keys) <==> t in res
      ensures t in res ==> FixInto(meta, mime, keys)[t] == res[t]
    {
      FixIntoAt(meta, mime, keys, t);
    }
  }

  /** Every negotiated key is fixed to a value that both sides admit, and nothing else but the MIME changes. */
  ghost predicate Negotiated(meta: Meta, cap: Capability, res: Meta) {
    && (forall k | k in KeysOf(meta).Keys + cap.keys.Keys :: NegotiatedAt(meta, cap, res, k))
    && MimeTag in res && res[MimeTag] == Foreign(cap.mime)
    && (forall t | t != MimeTag && !(t.KeyTag? && t.key in KeysOf(meta).Keys + cap.keys.Keys) ::
          (t in res <==> t in meta) && (t in res ==> res[t] == meta[t]))
  }

  ghost predicate NegotiatedAt(meta: Meta, cap: Capability, res: Meta, k: Key) {
    && Known(k) && KeyTag(k) in res && res[KeyTag(k)].Fixed? && res[KeyTag(k)].elem == TypeOf(k)
    && (k in cap.keys ==> Admits(cap.keys[k], res[KeyTag(k)].value))
    && (KeyTag(k) in meta ==> Admits(meta[KeyTag(k)], res[KeyTag(k)].value))
  }

  lemma ExtractAdmitted(k: Key, v: Value)
    requires WellTyped(k, v)
    ensures Extract(k, v).Some? && Extract(k, v).value.Fixed? && Extract(k, v).value.elem == TypeOf(k)
    ensures Admits(v, Extract(k, v).value.value) && Extract(k, v).value.value in Constants(v)
  {
  }

  lemma FixIntoAt(meta: Meta, mime: string, keys: KeyMap, t: Tag)
    ensures var res := FixInto(meta, mime, keys);
            && (t in res <==> t in meta || t == MimeTag || (t.KeyTag? && Fixes(keys, t.key)))
            && (t in res ==> res[t] == if t.KeyTag? && Fixes(keys, t.key) then Extract(t.key, keys[t.key]).value
                                       else if t == MimeTag then Foreign(mime) else meta[t])
  {
    if t.KeyTag? && Fixes(keys, t.key) {
      assert t == KeyTag(t.key) && t in FixedEntries(keys);
    }
  }

  /** The value negotiated for one key. */
  lemma NegotiatedKey(meta: Meta, cap: Capability, k: Key)
    requires AllWellTyped(KeysOf(meta)) && AllWellTyped(cap.keys) && NearKeys(KeysOf(meta), cap.keys)
    requires MergeMeta(meta, cap).Some? && k in KeysOf(meta).Keys + cap.keys.Keys
    ensures var res := MergeMeta(meta, cap).value;
            && KeyTag(k) in res && res[KeyTag(k)].Fixed? && Known(k) && res[KeyTag(k)].elem == TypeOf(k)
            && (k in cap.keys ==> Admits(cap.keys[k], res[KeyTag(k)].value))
            && (k in KeysOf(meta) ==> Admits(KeysOf(meta)[k], res[KeyTag(k)].value))
            && Constants(res[KeyTag(k)]) <= ConstantsAt(KeysOf(meta), k) + ConstantsAt(cap.keys, k)
  {
    var mk := KeysOf(meta);
    var keys := MergeKeys(mk, cap.keys).value;
    assert k in keys && keys[k] == MergedValue(mk, cap.keys, k);
    MergedKeyMeaning(mk, cap.keys, k);
    ExtractAdmitted(k, keys[k]);
    FixIntoAt(meta, cap.mime, keys, KeyTag(k));
  }

  lemma MergeMetaNegotiates(meta: Meta, cap: Capability)
    requires AllWellTyped(KeysOf(meta)) && AllWellTyped(cap.keys) && NearKeys(KeysOf(meta), cap.keys)
    requires MergeMeta(meta, cap).Some?
    ensures Negotiated(meta, cap, MergeMeta(meta, cap).value)
  {
    var mk := KeysOf(meta);
    var keys := MergeKeys(mk, cap.keys).value;
    forall k | k in mk.Keys + cap.keys.Keys
      ensures NegotiatedAt(meta, cap, MergeMeta(meta, cap).value, k)
    {
      NegotiatedKey(meta, cap, k);
      assert k in mk <==> KeyTag(k) in meta;
    }
    forall t: Tag
      ensures var res := MergeMeta(meta, cap).value;
              && (t == MimeTag ==> t in res && res[t] == Foreign(cap.mime))
              && (t != MimeTag && !(t.KeyTag? && t.key in mk.Keys + cap.keys.Keys) ==>
                    (t in res <==> t in meta) && (t in res ==> res[t] == meta[t]))
    {
      FixIntoAt(meta, cap.mime, keys, t);
    }
  }

  lemma NegotiatedKeySet(meta: Meta, cap: Capability)
    requires AllWellTyped(KeysOf(meta)) && AllWellTyped(cap.keys) && NearKeys(KeysOf(meta), cap.keys)
    requires MergeMeta(meta, cap).Some?
    ensures KeysOf(MergeMeta(meta, cap).value).Keys == KeysOf(meta).Keys + cap.keys.Keys
  {
    var res := MergeMeta(meta, cap).value;
    forall k
      ensures k in KeysOf(res) <==> k in KeysOf(meta).Keys + cap.keys.Keys
    {
      NegotiatedKeyMember(meta, cap, k);
    }
  }

  lemma NegotiatedKeyMember(meta: Meta, cap: Capability, k: Key)
    requires AllWellTyped(KeysOf(meta)) && AllWellTyped(cap.keys) && NearKeys(KeysOf(meta), cap.keys)
    requires MergeMeta(meta, cap).Some?
    ensures k in KeysOf(MergeMeta(meta, cap).value) <==> k in KeysOf(meta).Keys + cap.keys.Keys
  {
    var keys := MergeKeys(KeysOf(meta), cap.keys).value;
    if k in KeysOf(meta).Keys + cap.keys.Keys {
      NegotiatedKey(meta, cap, k);
    } else {
      hide AllWellTyped, NearKeys;
      FixIntoAt(meta, cap.mime, keys, KeyTag(k));
    }
  }

  /** Negotiation succeeds exactly when the capability's MIME is well-formed and some assignment suits both sides. */
  lemma MergeMetaSucceedsIff(meta: Meta, cap: Capability)
    requires AllWellTyped(KeysOf(meta)) && AllWellTyped(cap.keys) && NearKeys(KeysOf(meta), cap.keys)
    ensures MergeMeta(meta, cap).Some? <==>
            HasMimeForm(cap.mime) && exists values :: Admitted(KeysOf(meta), values) && Admitted(cap.keys, values)
  {
    hide MergeKeys, AllWellTyped, NearKeys, Admitted, KeysOf;
    MergeMeaning(KeysOf(meta), cap.keys);
    SubsetMimeReflexiveIff(cap.mime);
  }

  /** The value negotiated for a shared key is the one its check chooses. */
  lemma NegotiatedIsChosen(meta: Meta, cap: Capability, k: Key)
    requires AllWellTyped(KeysOf(meta)) && AllWellTyped(cap.keys) && NearKeys(KeysOf(meta), cap.keys)
    requires MergeMeta(meta, cap).Some? && k in KeysOf(meta) && k in cap.keys
    ensures Check(k, KeysOf(meta)[k], cap.keys[k]).Some?
    ensures var r := Check(k, KeysOf(meta)[k], cap.keys[k]).value;
            && !r.Foreign? && (r.Discrete? ==> r.values != [])
            && KeyTag(k) in MergeMeta(meta, cap).value
            && MergeMeta(meta, cap).value[KeyTag(k)] == Fixed(TypeOf(k), Chosen(r))
  {
    var mk := KeysOf(meta);
    var keys := MergeKeys(mk, cap.keys).value;
    assert k in keys && keys[k] == MergedValue(mk, cap.keys, k);
    MergedKeyMeaning(mk, cap.keys, k);
    CheckChoosesFirst(k, mk[k], cap.keys[k]);
    FixIntoAt(meta, cap.mime, keys, KeyTag(k));
    hide MergeMeta, AllWellTyped, NearKeys, KeysOf, Check;
  }

  // ---------- Entries that only the metadata has ----------

  /**
   * Such an entry is meant to be kept. It is exactly when it is one value: an interval or a list is replaced by one
   * of its values.
   */
  lemma MetaOnlyEntryKeptIff(meta: Meta, cap: Capability, k: Key)
    requires AllWellTyped(KeysOf(meta)) && AllWellTyped(cap.keys) && NearKeys(KeysOf(meta), cap.keys)
    requires MergeMeta(meta, cap).Some? && Known(k) && KeyTag(k) in meta && k !in cap.keys
    ensures var res := MergeMeta(meta, cap).value;
            KeyTag(k) in res && (res[KeyTag(k)] == meta[KeyTag(k)] <==> meta[KeyTag(k)].Fixed?)
  {
    var keys := MergeKeys(KeysOf(meta), cap.keys).value;
    assert k in KeysOf(meta) && keys[k] == meta[KeyTag(k)];
    ExtractAdmitted(k, keys[k]);
    FixIntoAt(meta, cap.mime, keys, KeyTag(k));
  }

  lemma MergeWithNothing(a: KeyMap)
    ensures MergeKeys(a, map[]) == Some(a)
  {
    var r := MergeKeys(a, map[]);
    assert r.Some? && r.value.Keys == a.Keys;
    assert forall k | k in a :: r.value[k] == a[k];
    assert r.value == a;
  }

  lemma OnlyKey(meta: Meta, k: Key)
    requires Known(k) && KeyTag(k) in meta
    ensures k in KeysOf(meta) && KeysOf(meta)[k] == meta[KeyTag(k)]
  {
  }

  /** A range of sample rates that the capability does not mention comes back as its lower end. */
  lemma MetaOnlyIntervalIsReplaced(mime: string)
    requires HasMimeForm(mime)
    ensures var meta: Meta := map[KeyTag(AudioSampleRate) := Interval(UInt32, 8000, 48000)];
            var r := MergeMeta(meta, Capability(mime, map[]));
            r.Some? && KeyTag(AudioSampleRate) in r.value && r.value[KeyTag(AudioSampleRate)] == Fixed(UInt32, 8000)
  {
    hide IsSubsetMime, HasMimeForm, KeysOf, MergeKeys, FixInto, FixedEntries;
    var meta: Meta := map[KeyTag(AudioSampleRate) := Interval(UInt32, 8000, 48000)];
    SubsetMimeReflexiveIff(mime);
    OnlyKey(meta, AudioSampleRate);
    MergeWithNothing(KeysOf(meta));
    FixIntoAt(meta, mime, KeysOf(meta), KeyTag(AudioSampleRate));
  }

  /** A fixed value that the capability admits survives another merge with it. */
  lemma FixedSurvives(k: Key, v: Value, c: Value, near: set<int>)
    requires WellTyped(k, v) && WellTyped(k, c) && v.Fixed? && Admits(c, v.value)
    requires Near(near) && Constants(v) + Constants(c) <= near
    ensures Check(k, v, c) == Some(v)
  {
    NearSubset(Constants(v) + Constants(c), near);
    CheckMeets(k, v, c);
    assert Admits(v, v.value);
  }

  /** Merging the negotiated metadata with the same capability again succeeds and changes nothing. */
  lemma MergeMetaIdempotent(meta: Meta, cap: Capability)
    requires AllWellTyped(KeysOf(meta)) && AllWellTyped(cap.keys) && NearKeys(KeysOf(meta), cap.keys)
    requires forall k | k in cap.keys :: Near(Constants(cap.keys[k]))
    requires MergeMeta(meta, cap).Some?
    ensures MergeMeta(MergeMeta(meta, cap).value, cap) == MergeMeta(meta, cap)
  {
    var res := MergeMeta(meta, cap).value;
    NegotiatedStable(meta, cap);
    StableMerge(KeysOf(res), cap.keys);
    FixIntoAt(meta, cap.mime, MergeKeys(KeysOf(meta), cap.keys).value, MimeTag);
    RefixNothing(res, cap.mime, KeysOf(res), cap.keys);
  }

  lemma NegotiatedStable(meta: Meta, cap: Capability)
    requires AllWellTyped(KeysOf(meta)) && AllWellTyped(cap.keys) && NearKeys(KeysOf(meta), cap.keys)
    requires forall k | k in cap.keys :: Near(Constants(cap.keys[k]))
    requires MergeMeta(meta, cap).Some?
    ensures var rk := KeysOf(MergeMeta(meta, cap).value);
            cap.keys.Keys <= rk.Keys && forall k | k in rk :: Stable(rk, cap.keys, k)
  {
    hide MergeMeta, AllWellTyped, NearKeys, KeysOf;
    var rk := KeysOf(MergeMeta(meta, cap).value);
    NegotiatedKeySet(meta, cap);
    forall k | k in rk
      ensures Stable(rk, cap.keys, k)
    {
      KeyStable(meta, cap, k);
    }
  }

  lemma KeyStable(meta: Meta, cap: Capability, k: Key)
    requires AllWellTyped(KeysOf(meta)) && AllWellTyped(cap.keys) && NearKeys(KeysOf(meta), cap.keys)
    requires k in cap.keys ==> Near(Constants(cap.keys[k]))
    requires MergeMeta(meta, cap).Some? && k in KeysOf(MergeMeta(meta, cap).value)
    requires k in KeysOf(meta).Keys + cap.keys.Keys
    ensures Stable(KeysOf(MergeMeta(meta, cap).value), cap.keys, k)
  {
    var v := KeysOf(MergeMeta(meta, cap).value)[k];
    NegotiatedKey(meta, cap, k);
    if k in cap.keys {
      NearAt(KeysOf(meta), cap.keys, k);
      FixedSurvives(k, v, cap.keys[k], ConstantsAt(KeysOf(meta), k) + ConstantsAt(cap.keys, k));
    }
  }

  lemma NearAt(a: KeyMap, b: KeyMap, k: Key)
    requires NearKeys(a, b) && k in b && Near(Constants(b[k]))
    ensures Near(ConstantsAt(a, k) + ConstantsAt(b, k))
  {
    if k !in a {
      assert ConstantsAt(a, k) + ConstantsAt(b, k) == Constants(b[k]);
    }
  }

  /** The key holds a fixed value that the other side leaves alone. */
  ghost predicate Stable(rk: KeyMap, other: KeyMap, k: Key)
    requires k in rk
  {
    && Known(k) && Extract(k, rk[k]) == Some(rk[k])
    && (k in other ==> Check(k, rk[k], other[k]) == Some(rk[k]))
  }

  lemma StableMerge(rk: KeyMap, other: KeyMap)
    requires other.Keys <= rk.Keys && forall k | k in rk :: Stable(rk, other, k)
    ensures MergeKeys(rk, other) == Some(rk)
  {
    forall k | k in rk
      ensures !Clash(rk, other, k) && MergedValue(rk, other, k) == rk[k]
    {
      assert Stable(rk, other, k);
    }
    assert rk.Keys + other.Keys == rk.Keys;
    assert MergeKeys(rk, other).value == rk;
  }

  lemma RefixNothing(res: Meta, mime: string, rk: KeyMap, other: KeyMap)
    requires rk == KeysOf(res) && MimeTag in res && res[MimeTag] == Foreign(mime)
    requires forall k | k in rk :: Stable(rk, other, k)
    ensures FixInto(res, mime, rk) == res
  {
    forall t
      ensures t in FixInto(res, mime, rk) <==> t in res
      ensures t in res ==> FixInto(res, mime, rk)[t] == res[t]
    {
      FixIntoAt(res, mime, rk, t);
    }
  }
}
