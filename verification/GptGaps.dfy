/** When squeezing a GPT entry array keeps every partition (GptEdit.c, lines 516-537). */
module GptGaps {
  import opened Bytes
  import opened GptSpec

  // ---- when squeezing keeps every partition ----

  /** A maximal run of unused entries [j, i) with a used entry behind it. */
  predicate Gap(s: seq<Entry>, j: nat, i: nat) {
    && j < i < |s| && Used(s[i]) && (j == 0 || Used(s[j - 1]))
    && forall k :: j <= k < i ==> !Used(s[k])
  }

  predicate Vacant(s: seq<Entry>, lo: int) {
    forall k :: 0 <= k < |s| && lo <= k ==> !Used(s[k])
  }

  /** The unused entries below j. */
  function UnusedBefore(s: seq<Entry>, j: nat): (n: nat)
    requires j <= |s|
    ensures n <= j
  {
    if j == 0 then 0 else UnusedBefore(s, j - 1) + if Used(s[j - 1]) then 0 else 1
  }

  /** No entry behind i, from lo on, is used. */
  predicate ClearBehind(s: seq<Entry>, i: nat, lo: int) {
    forall k :: i < k < |s| && lo <= k ==> !Used(s[k])
  }

  /** Closing a gap leaves no partition where it was as well: the places behind the moved entries, given what closing
      the gaps in front has moved already, hold none but the first one behind the gap. */
  ghost predicate RoomBehind(s: seq<Entry>) {
    forall j: nat, i: nat :: Gap(s, j, i) ==> ClearBehind(s, i, |s| - (i - j) + UnusedBefore(s, j))
  }

  /** Behind a gap of d entries, the entry d places after the first used one is unused. */
  predicate Harmless(s: seq<Entry>, j: nat, i: nat) {
    j <= i && (i + (i - j) >= |s| || !Used(s[i + (i - j)]))
  }

  ghost predicate GapsHarmless(s: seq<Entry>) {
    forall j: nat, i: nat :: Gap(s, j, i) ==> Harmless(s, j, i)
  }

  predicate Distinct(s: seq<Entry>) {
    forall a, b :: 0 <= a < b < |s| && Used(s[a]) && Used(s[b]) ==> s[a] != s[b]
  }

  /** t is as good as s: the same entries are used, with the same contents. */
  predicate Alike(s: seq<Entry>, t: seq<Entry>) {
    |s| == |t| && forall k :: 0 <= k < |s| ==> (Used(s[k]) <==> Used(t[k])) && (Used(s[k]) ==> s[k] == t[k])
  }

  lemma {:induction false} UsedOfAlike(s: seq<Entry>, t: seq<Entry>)
    requires Alike(s, t)
    ensures UsedOf(s) == UsedOf(t)
    decreases |s|
  {
    if s != [] {
      UsedOfAlike(s[1..], t[1..]);
    }
  }

  lemma {:induction false} UsedOfConcat(a: seq<Entry>, b: seq<Entry>)
    ensures UsedOf(a + b) == UsedOf(a) + UsedOf(b)
    decreases |a|
  {
    if a == [] {
      assert a + b == b;
    } else {
      assert (a + b)[0] == a[0] && (a + b)[1..] == a[1..] + b;
      UsedOfConcat(a[1..], b);
    }
  }

  lemma {:induction false} UsedOfVacant(s: seq<Entry>)
    requires Vacant(s, 0)
    ensures UsedOf(s) == []
    decreases |s|
  {
    if s != [] {
      UsedOfVacant(s[1..]);
    }
  }

  lemma {:induction false} UsedOfHas(s: seq<Entry>, x: Entry)
    ensures x in UsedOf(s) <==> x in s && Used(x)
    decreases |s|
  {
    if s != [] {
      assert s == [s[0]] + s[1..];
      UsedOfHas(s[1..], x);
    }
  }

  /** Marking a gap entry with zeros changes none of this. */
  lemma ZeroedAlike(s: seq<Entry>, i: nat)
    requires i < |s| && !Used(s[i])
    ensures var t := s[i := ZERO_ENTRY];
      && Alike(s, t) && (RoomBehind(s) ==> RoomBehind(t)) && (GapsHarmless(s) <==> GapsHarmless(t))
      && (Distinct(s) ==> Distinct(t))
  {
    var t := s[i := ZERO_ENTRY];
    AlikeGaps(s, t);
    AlikeGaps(t, s);
  }

  lemma AlikeGaps(s: seq<Entry>, t: seq<Entry>)
    requires Alike(s, t)
    ensures RoomBehind(s) ==> RoomBehind(t)
    ensures GapsHarmless(s) ==> GapsHarmless(t)
    ensures Distinct(s) ==> Distinct(t)
  {
    forall j: nat, i: nat | Gap(t, j, i)
      ensures RoomBehind(s) ==> ClearBehind(t, i, |t| - (i - j) + UnusedBefore(t, j))
      ensures GapsHarmless(s) ==> Harmless(t, j, i)
    {
      assert Gap(s, j, i);
      AlikeUnused(s, t, j);
    }
  }

  lemma {:induction false} AlikeUnused(s: seq<Entry>, t: seq<Entry>, j: nat)
    requires Alike(s, t) && j <= |s|
    ensures UnusedBefore(s, j) == UnusedBefore(t, j)
  {
    if j > 0 {
      AlikeUnused(s, t, j - 1);
    }
  }

  /** The situation in which a gap is closed: [0, e) used, [e, i) the first gap. */
  ghost predicate AtGap(s: seq<Entry>, e: nat, i: nat) {
    e < i < |s| && (forall k :: 0 <= k < e ==> Used(s[k])) && Gap(s, e, i)
  }

  /** And there is room behind. */
  ghost predicate Closing(s: seq<Entry>, e: nat, i: nat) {
    AtGap(s, e, i) && ClearBehind(s, i, |s| - (i - e))
  }

  /** Entry by entry, what closing a gap leaves. */
  lemma PulledAt(s: seq<Entry>, e: nat, i: nat, k: nat)
    requires e < i < |s| && k < |s|
    ensures Pulled(s, e, i)[k]
         == if k == i then ZERO_ENTRY else if k < e then s[k] else if k < |s| - (i - e) then s[k + (i - e)] else s[k]
  {
    var u := s[..e] + s[i..] + s[|s| - (i - e)..];
    if k < e {
      assert u[k] == s[k];
    } else if k < |s| - (i - e) {
      assert u[k] == s[i..][k - e];
    } else {
      assert u[k] == s[|s| - (i - e)..][k - (|s| - (i - e))];
    }
  }

  /** t is s with everything from e + d on moved d places down, as far as used entries go. */
  ghost predicate Moved(s: seq<Entry>, t: seq<Entry>, e: nat, d: nat) {
    && |t| == |s|
    && (forall k :: 0 <= k < |s| && k < e ==> t[k] == s[k])
    && (forall k :: e <= k < |s| - d ==> (Used(t[k]) <==> Used(s[k + d])) && (Used(t[k]) ==> t[k] == s[k + d]))
    && (forall k :: 0 <= k < |s| && e <= k && |s| - d <= k ==> !Used(t[k]))
  }

  lemma PulledMoves(s: seq<Entry>, e: nat, i: nat)
    requires Closing(s, e, i) && Harmless(s, e, i)
    ensures Moved(s, Pulled(s, e, i), e, i - e)
  {
    var d, t := i - e, Pulled(s, e, i);
    forall k | 0 <= k < |s|
      ensures k < e ==> t[k] == s[k]
      ensures e <= k < |s| - d ==> (Used(t[k]) <==> Used(s[k + d])) && (Used(t[k]) ==> t[k] == s[k + d])
      ensures e <= k && |s| - d <= k ==> !Used(t[k])
    {
      PulledAt(s, e, i, k);
    }
  }

  /** If the entry that is cleared was unused, closing the gap keeps the used entries. */
  lemma MovedKeeps(s: seq<Entry>, t: seq<Entry>, e: nat, i: nat)
    requires Closing(s, e, i) && Moved(s, t, e, i - e)
    ensures UsedOf(t) == UsedOf(s)
  {
    hide *;
    MovedPieces(s, t, e, i);
    ThreeParts(s, e, i);
    ThreeParts(t, e, |s| - (i - e));
    UsedOfVacant(s[e..i]);
    UsedOfVacant(t[|s| - (i - e)..]);
    UsedOfAlike(s[i..], t[e..|s| - (i - e)]);
  }

  lemma MovedPieces(s: seq<Entry>, t: seq<Entry>, e: nat, i: nat)
    requires Closing(s, e, i) && Moved(s, t, e, i - e)
    ensures e < i < |s| == |t| && s[..e] == t[..e]
    ensures Vacant(s[e..i], 0) && Vacant(t[|s| - (i - e)..], 0) && Alike(s[i..], t[e..|s| - (i - e)])
  {
    MovedAlike(s, t, e, i - e);
  }

  lemma MovedAlike(s: seq<Entry>, t: seq<Entry>, e: nat, d: nat)
    requires Moved(s, t, e, d) && e + d <= |s|
    ensures Alike(s[e + d..], t[e..|s| - d])
  {
    var a, c := s[e + d..], t[e..|s| - d];
    forall k | 0 <= k < |a| ensures (Used(a[k]) <==> Used(c[k])) && (Used(a[k]) ==> a[k] == c[k]) {
      assert a[k] == s[e + k + d] && c[k] == t[e + k];
    }
  }

  lemma ThreeParts(s: seq<Entry>, a: nat, b: nat)
    requires a <= b <= |s|
    ensures UsedOf(s) == UsedOf(s[..a]) + UsedOf(s[a..b]) + UsedOf(s[b..])
  {
    hide UsedOf;
    assert s == s[..b] + s[b..];
    UsedOfConcat(s[..b], s[b..]);
    assert s[..b] == s[..a] + s[a..b];
    UsedOfConcat(s[..a], s[a..b]);
  }

  /** The gaps that remain are those behind, d places further down, and they are as harmful as they were. */
  lemma GapComesFrom(s: seq<Entry>, t: seq<Entry>, e: nat, i: nat, j: nat, m: nat)
    requires Closing(s, e, i) && Moved(s, t, e, i - e) && Gap(t, j, m)
    ensures e < j && m + (i - e) < |s| && Gap(s, j + (i - e), m + (i - e))
    ensures Harmless(s, j + (i - e), m + (i - e)) ==> Harmless(t, j, m)
    ensures ClearBehind(s, m + (i - e), |s| - (m - j) + UnusedBefore(s, j + (i - e))) ==>
      ClearBehind(t, m, |t| - (m - j) + UnusedBefore(t, j))
  {
    var d := i - e;
    assert Used(t[e]);
    assert forall k :: 0 <= k <= e ==> Used(t[k]);
    assert !Used(t[j]);
    assert e < j;
    forall k | j + d <= k < m + d ensures !Used(s[k]) {
      assert !Used(t[k - d]);
    }
    assert Used(t[j - 1]) && Used(s[j - 1 + d]);
    MovedUnused(s, t, e, i, j);
  }

  /** What was unused below an entry, less the gap that was closed. */
  lemma {:induction false} MovedUnused(s: seq<Entry>, t: seq<Entry>, e: nat, i: nat, k: nat)
    requires Closing(s, e, i) && Moved(s, t, e, i - e) && e <= k <= |s| - (i - e)
    ensures UnusedBefore(s, k + (i - e)) == UnusedBefore(t, k) + (i - e)
  {
    if k == e {
      UnusedInGap(s, e, i);
      UnusedInPrefix(t, e);
    } else {
      MovedUnused(s, t, e, i, k - 1);
    }
  }

  lemma {:induction false} UnusedInPrefix(s: seq<Entry>, e: nat)
    requires e <= |s| && forall k :: 0 <= k < e ==> Used(s[k])
    ensures UnusedBefore(s, e) == 0
  {
    if e > 0 {
      UnusedInPrefix(s, e - 1);
    }
  }

  lemma {:induction false} UnusedInGap(s: seq<Entry>, e: nat, i: nat)
    requires e <= i <= |s| && (forall k :: 0 <= k < e ==> Used(s[k])) && (forall k :: e <= k < i ==> !Used(s[k]))
    ensures UnusedBefore(s, i) == i - e
  {
    if i == e {
      UnusedInPrefix(s, e);
    } else {
      UnusedInGap(s, e, i - 1);
    }
  }

  lemma GapGoesTo(s: seq<Entry>, t: seq<Entry>, e: nat, i: nat, j: nat, m: nat)
    requires Closing(s, e, i) && Harmless(s, e, i) && Moved(s, t, e, i - e)
    requires Gap(s, j, m) && !Harmless(s, j, m)
    ensures i < j && Gap(t, j - (i - e), m - (i - e)) && !Harmless(t, j - (i - e), m - (i - e))
  {
    var d := i - e;
    FirstGapFirst(s, e, i, j, m);
    forall k | j - d <= k < m - d ensures !Used(t[k]) {
      assert !Used(s[k + d]);
    }
    assert Used(s[j - 1]) && Used(t[j - 1 - d]);
    assert Used(s[m]) && Used(t[m - d]);
    assert Used(s[m + (m - j)]) && Used(t[m - d + (m - j)]);
  }

  lemma FirstGapFirst(s: seq<Entry>, e: nat, i: nat, j: nat, m: nat)
    requires Closing(s, e, i) && Gap(s, j, m)
    ensures (j == e && m == i) || i < j
  {
    assert !Used(s[j]);
    if j == e {
      assert m == i;
    } else {
      assert j > e && Used(s[j - 1]);
    }
  }

  lemma GapInside(s: seq<Entry>, j: nat, i: nat)
    requires Gap(s, j, i)
    ensures j < i < |s|
  {
  }

  lemma MovedGaps(s: seq<Entry>, t: seq<Entry>, e: nat, i: nat)
    requires Closing(s, e, i) && Harmless(s, e, i) && Moved(s, t, e, i - e) && RoomBehind(s)
    ensures RoomBehind(t) && (GapsHarmless(s) <==> GapsHarmless(t))
  {
    hide Moved, Gap, Harmless, ClearBehind, Closing, UnusedBefore;
    forall j: nat, m: nat | Gap(t, j, m)
      ensures j <= |t| && ClearBehind(t, m, |t| - (m - j) + UnusedBefore(t, j))
      ensures GapsHarmless(s) ==> Harmless(t, j, m)
    {
      GapInside(t, j, m);
      GapComesFrom(s, t, e, i, j, m);
    }
    if !GapsHarmless(s) {
      var j: nat, m: nat :| Gap(s, j, m) && !Harmless(s, j, m);
      GapGoesTo(s, t, e, i, j, m);
    }
  }

  lemma MovedDistinct(s: seq<Entry>, t: seq<Entry>, e: nat, d: nat)
    requires Moved(s, t, e, d) && Distinct(s)
    ensures Distinct(t)
  {
    forall a, b | 0 <= a < b < |t| && Used(t[a]) && Used(t[b]) ensures t[a] != t[b] {
      var a', b' := if a < e then a else a + d, if b < e then b else b + d;
      assert t[a] == s[a'] && t[b] == s[b'];
    }
  }

  /** The entry that is cleared while in use, and is not left behind, is lost for good. */
  lemma PulledHarmful(s: seq<Entry>, e: nat, i: nat)
    requires AtGap(s, e, i) && i + (i - e) < |s| - (i - e) && Used(s[i + (i - e)]) && Distinct(s)
    ensures var x := s[i + (i - e)]; x in UsedOf(s) && x !in Pulled(s, e, i)
  {
    var t, x := Pulled(s, e, i), s[i + (i - e)];
    UsedOfHas(s, x);
    forall k | 0 <= k < |t| ensures t[k] != x {
      PulledAt(s, e, i, k);
    }
  }

  /** Some partition of s is gone from r. */
  ghost predicate Loses(s: seq<Entry>, r: seq<Entry>) {
    exists x: Entry :: x in UsedOf(s) && x !in UsedOf(r)
  }

  // ---- closing one gap, with or without room behind ----

  /** x is in the table exactly once. */
  predicate Once(t: seq<Entry>, x: Entry) {
    exists k :: 0 <= k < |t| && t[k] == x && OnlyAt(t, x, k)
  }

  predicate OnlyAt(t: seq<Entry>, x: Entry, k: nat) {
    forall l :: 0 <= l < |t| && l != k ==> t[l] != x
  }

  /** The places an entry has after a gap is closed: moved down, unless to the place that is then cleared, and where it
      was, if the copy has not reached that place. */
  predicate PlaceOf(n: nat, e: nat, i: nat, m: nat, k: nat) {
    (m < e && k == m) || (m >= i && k == m - (i - e) && k != i) || (m > i && m >= n - (i - e) && k == m)
  }

  lemma EntryPlaces(s: seq<Entry>, e: nat, i: nat, m: nat, k: nat)
    requires AtGap(s, e, i) && Distinct(s) && m < |s| && Used(s[m]) && k < |s|
    ensures Pulled(s, e, i)[k] == s[m] <==> PlaceOf(|s|, e, i, m, k)
  {
    hide Pulled;
    PulledAt(s, e, i, k);
    assert !Used(ZERO_ENTRY);
  }

  /** Behind the first used entry, an entry survives closing once exactly when it is neither cleared nor left behind, or
      both. */
  predicate SurvivesOnce(n: nat, e: nat, i: nat, m: nat) {
    m > i ==> (m == i + (i - e) <==> m >= n - (i - e))
  }

  lemma EntrySurvives(s: seq<Entry>, e: nat, i: nat, m: nat)
    requires AtGap(s, e, i) && Distinct(s) && m < |s| && Used(s[m])
    ensures Once(Pulled(s, e, i), s[m]) <==> SurvivesOnce(|s|, e, i, m)
  {
    hide Pulled, Distinct, Used, Gap;
    var t, x, d, n := Pulled(s, e, i), s[m], i - e, |s|;
    forall k: nat | k < n ensures t[k] == x <==> PlaceOf(n, e, i, m, k) {
      EntryPlaces(s, e, i, m, k);
    }
    NotInGap(s, e, i, m);
    if SurvivesOnce(n, e, i, m) {
      var k := if m < e then m else if m == i + d then m else m - d;
      assert t[k] == x && OnlyAt(t, x, k);
    } else if m >= n - d {
      assert t[m] == x && t[m - d] == x;
    }
  }

  lemma NotInGap(s: seq<Entry>, e: nat, i: nat, m: nat)
    requires AtGap(s, e, i) && m < |s| && Used(s[m])
    ensures m < e || m >= i
  {
  }

  /** Closing any one gap in a table of distinct entries keeps every partition exactly once if and only if the used
      entry a gap's length behind the first one, if any, is among the entries that are left behind, and no other is. */
  lemma ClosingExactly(s: seq<Entry>, e: nat, i: nat)
    requires AtGap(s, e, i) && Distinct(s)
    ensures (forall m: nat :: m < |s| && Used(s[m]) ==> Once(Pulled(s, e, i), s[m]))
        <==> (forall m: nat :: m < |s| && Used(s[m]) ==> SurvivesOnce(|s|, e, i, m))
  {
    hide Pulled, Distinct, Used, Gap, Once, SurvivesOnce;
    forall m: nat | m < |s| && Used(s[m])
      ensures Once(Pulled(s, e, i), s[m]) <==> SurvivesOnce(|s|, e, i, m)
    {
      EntrySurvives(s, e, i, m);
    }
  }

  /** With room behind, that is what a harmless gap is. */
  lemma HarmlessIsOnce(s: seq<Entry>, e: nat, i: nat)
    requires Closing(s, e, i)
    ensures Harmless(s, e, i) <==> forall m: nat :: m < |s| && Used(s[m]) ==> SurvivesOnce(|s|, e, i, m)
  {
    if !Harmless(s, e, i) {
      assert !SurvivesOnce(|s|, e, i, i + (i - e));
    }
  }

  // ---- closing all gaps ----

  lemma ClosingKeepsExactly(s: seq<Entry>, e: nat, i: nat)
    requires e < i < |s| && Closing(s, e, i) && RoomBehind(s) && Distinct(s)
    ensures GapsHarmless(s) ==> UsedOf(Squeeze(Pulled(s, e, i), e + 1, e + 1)) == UsedOf(s)
    ensures !GapsHarmless(s) ==> Loses(s, Squeeze(Pulled(s, e, i), e + 1, e + 1))
    decreases |s| - e, |s| - i, 0
  {
    hide Pulled, UsedOf, Squeeze, Closing, Gap;
    ClosingPrefix(s, e, i);
    var t := Pulled(s, e, i);
    if Harmless(s, e, i) {
      hide GapsHarmless, RoomBehind, Distinct, Moved, Harmless;
      PulledMoves(s, e, i);
      MovedKeeps(s, t, e, i);
      MovedGaps(s, t, e, i);
      MovedDistinct(s, t, e, i - e);
      SqueezeKeepsExactly(t, e + 1, e + 1);
    } else {
      var x := s[i + (i - e)];
      hide RoomBehind, Distinct;
      HarmfulPlace(s, e, i);
      PulledHarmful(s, e, i);
      var n := SqueezePacks(t, e + 1, e + 1);
      UsedOfHas(Squeeze(t, e + 1, e + 1), x);
      HarmfulGap(s, e, i);
    }
  }

  lemma NoGap(s: seq<Entry>, e: nat)
    requires e <= |s| && (forall k :: 0 <= k < e ==> Used(s[k])) && (forall k :: e <= k < |s| ==> !Used(s[k]))
    ensures GapsHarmless(s)
    ensures Squeeze(s, e, |s|) == s
  {
    forall j: nat, m: nat ensures !Gap(s, j, m) {
      GapEnds(s, j, m);
    }
  }

  lemma GapEnds(s: seq<Entry>, j: nat, i: nat)
    ensures Gap(s, j, i) ==> j < i < |s| && Used(s[i]) && !Used(s[j])
  {
  }

  lemma FirstClosing(s: seq<Entry>, e: nat, i: nat)
    requires e < i < |s| && Used(s[i]) && RoomBehind(s)
    requires (forall k :: 0 <= k < e ==> Used(s[k])) && (forall k :: e <= k < i ==> !Used(s[k]))
    ensures Closing(s, e, i)
  {
    assert Gap(s, e, i);
    UnusedInPrefix(s, e);
  }

  lemma HarmfulGap(s: seq<Entry>, e: nat, i: nat)
    requires Closing(s, e, i) && !Harmless(s, e, i)
    ensures !GapsHarmless(s)
  {
    assert Gap(s, e, i);
  }

  lemma HarmfulPlace(s: seq<Entry>, e: nat, i: nat)
    requires Closing(s, e, i) && !Harmless(s, e, i)
    ensures AtGap(s, e, i) && i + (i - e) < |s| - (i - e) && Used(s[i + (i - e)])
  {
  }

  lemma ClosingPrefix(s: seq<Entry>, e: nat, i: nat)
    requires Closing(s, e, i)
    ensures forall k :: 0 <= k < e + 1 ==> Used(Pulled(s, e, i)[k])
  {
    PulledPrefix(s, e, i);
  }

  /** Squeezing a table of distinct entries with room behind keeps all used entries, in order, when its gaps are
      harmless, and loses one for good when one gap is not. */
  lemma {:induction false} SqueezeKeepsExactly(s: seq<Entry>, e: nat, i: nat)
    requires e <= i <= |s|
    requires forall k :: 0 <= k < e ==> Used(s[k])
    requires forall k :: e <= k < i ==> !Used(s[k])
    requires RoomBehind(s) && Distinct(s)
    ensures GapsHarmless(s) ==> UsedOf(Squeeze(s, e, i)) == UsedOf(s)
    ensures !GapsHarmless(s) ==> Loses(s, Squeeze(s, e, i))
    decreases |s| - e, |s| - i
  {
    hide UsedOf, Pulled, GapsHarmless, Distinct, RoomBehind;
    if i >= |s| {
      NoGap(s, e);
    } else if !Used(s[i]) {
      var t := s[i := ZERO_ENTRY];
      ZeroedAlike(s, i);
      UsedOfAlike(s, t);
      SqueezeKeepsExactly(t, e, i + 1);
    } else if e != i {
      FirstClosing(s, e, i);
      ClosingKeepsExactly(s, e, i);
    } else {
      SqueezeKeepsExactly(s, e + 1, e + 1);
    }
  }

  lemma PulledPrefix(s: seq<Entry>, e: nat, i: nat)
    requires e < i < |s| && Used(s[i]) && forall k :: 0 <= k < e ==> Used(s[k])
    ensures forall k :: 0 <= k < e + 1 ==> Used(Pulled(s, e, i)[k])
  {
    forall k | 0 <= k < e + 1 ensures Used(Pulled(s, e, i)[k]) {
      PulledAt(s, e, i, k);
    }
  }

  // ---- without room behind ----

  /** Every partition survives the closing of this gap once. */
  ghost predicate AllOnce(s: seq<Entry>, e: nat, i: nat) {
    forall m: nat :: m < |s| && Used(s[m]) ==> SurvivesOnce(|s|, e, i, m)
  }

  /** What closing leaves at place k when the entry at x is left behind. */
  predicate LeavesBehind(s: seq<Entry>, t: seq<Entry>, e: nat, i: nat, x: nat, k: nat)
    requires e < i < x == i + (i - e) < |s| == |t| && k < |s|
  {
    && (k < e ==> t[k] == s[k]) && (e <= k < i ==> t[k] == s[k + (i - e)])
    && (i <= k ==> (Used(t[k]) <==> k == x)) && (x <= k ==> (Used(s[k]) <==> k == x)) && (k == x ==> t[k] == s[k])
  }

  lemma LeftBehindAt(s: seq<Entry>, e: nat, i: nat, x: nat, k: nat)
    requires AtGap(s, e, i) && AllOnce(s, e, i) && i < x < |s| && x >= |s| - (i - e) && Used(s[x]) && k < |s|
    ensures x == i + (i - e)
    ensures LeavesBehind(s, Pulled(s, e, i), e, i, x, k)
  {
    hide Pulled, Gap;
    var d := i - e;
    assert SurvivesOnce(|s|, e, i, x);
    PulledAt(s, e, i, k);
    assert Used(s[k]) ==> SurvivesOnce(|s|, e, i, k);
    assert k + d < |s| && Used(s[k + d]) ==> SurvivesOnce(|s|, e, i, k + d);
    assert !Used(ZERO_ENTRY);
  }

  /** It is the only used one there, and its moved copy is the one that is cleared. */
  lemma LeftBehindKeeps(s: seq<Entry>, e: nat, i: nat, x: nat)
    requires AtGap(s, e, i) && AllOnce(s, e, i) && i < x < |s| && x >= |s| - (i - e) && Used(s[x])
    ensures UsedOf(Pulled(s, e, i)) == UsedOf(s)
  {
    hide *;
    LeftBehindPieces(s, e, i, x);
    var t := Pulled(s, e, i);
    ThreeParts(t, e, i);
    ThreeParts(s, e, i);
    assert s[i..] == s[i..x] + s[x..];
    UsedOfConcat(s[i..x], s[x..]);
    UsedOfVacant(s[e..i]);
    OneUsed(s[x..], 0);
    OneUsed(t[i..], x - i);
  }

  lemma LeftBehindPieces(s: seq<Entry>, e: nat, i: nat, x: nat)
    requires AtGap(s, e, i) && AllOnce(s, e, i) && i < x < |s| && x >= |s| - (i - e) && Used(s[x])
    ensures var t := Pulled(s, e, i);
      && e < i < x < |s| == |t| && t[..e] == s[..e] && t[e..i] == s[i..x] && Vacant(s[e..i], 0)
      && t[i..][x - i] == s[x..][0]
      && (forall l :: 0 <= l < |s| - i ==> (Used(t[i..][l]) <==> l == x - i))
      && (forall l :: 0 <= l < |s| - x ==> (Used(s[x..][l]) <==> l == 0))
  {
    hide *;
    var t := Pulled(s, e, i);
    GapPlaces(s, e, i);
    LeftBehindAt(s, e, i, x, x);
    forall k: nat | k < |s| ensures LeavesBehind(s, t, e, i, x, k) {
      LeftBehindAt(s, e, i, x, k);
    }
    var a, b, c, f := s[..e], t[..e], s[i..x], t[e..i];
    forall k | 0 <= k < e ensures b[k] == a[k] {
      LeavesBehindFacts(s, t, e, i, x, k);
    }
    assert a == b;
    forall k | 0 <= k < i - e ensures f[k] == c[k] {
      LeavesBehindFacts(s, t, e, i, x, e + k);
      assert e + k + (i - e) == i + k;
    }
    assert c == f;
    LeavesBehindFacts(s, t, e, i, x, x);
    forall l | 0 <= l < |s| - i ensures Used(t[i..][l]) <==> l == x - i {
      LeavesBehindFacts(s, t, e, i, x, i + l);
    }
    forall l | 0 <= l < |s| - x ensures Used(s[x..][l]) <==> l == 0 {
      LeavesBehindFacts(s, t, e, i, x, x + l);
    }
  }

  lemma GapPlaces(s: seq<Entry>, e: nat, i: nat)
    requires AtGap(s, e, i)
    ensures e < i < |s| && Vacant(s[e..i], 0)
  {
  }

  lemma LeavesBehindFacts(s: seq<Entry>, t: seq<Entry>, e: nat, i: nat, x: nat, k: nat)
    requires e < i < x == i + (i - e) < |s| == |t| && k < |s| && LeavesBehind(s, t, e, i, x, k)
    ensures k < e ==> t[k] == s[k]
    ensures e <= k < i ==> t[k] == s[k + (i - e)]
    ensures i <= k ==> (Used(t[k]) <==> k == x)
    ensures x <= k ==> (Used(s[k]) <==> k == x)
    ensures k == x ==> t[k] == s[k]
  {
  }

  lemma {:induction false} OneUsed(s: seq<Entry>, k: nat)
    requires k < |s| && forall l :: 0 <= l < |s| ==> (Used(s[l]) <==> l == k)
    ensures UsedOf(s) == [s[k]]
    decreases |s|
  {
    if k == 0 {
      UsedOfVacant(s[1..]);
    } else {
      OneUsed(s[1..], k - 1);
    }
  }

  /** So closing a gap keeps all partitions in their order whenever each survives once. */
  lemma AllOnceKeeps(s: seq<Entry>, e: nat, i: nat)
    requires AtGap(s, e, i) && AllOnce(s, e, i)
    ensures UsedOf(Pulled(s, e, i)) == UsedOf(s)
  {
    hide UsedOf, Pulled;
    if x: nat :| i < x < |s| && x >= |s| - (i - e) && Used(s[x]) {
      LeftBehindKeeps(s, e, i, x);
    } else {
      HarmlessIsOnce(s, e, i);
      PulledMoves(s, e, i);
      MovedKeeps(s, Pulled(s, e, i), e, i);
    }
  }

  /** Every closing of a whole run lets each partition survive once. */
  ghost predicate EachOnce(s: seq<Entry>, e: nat, i: nat)
    requires e <= i
    decreases |s| - e, |s| - i
  {
    if i >= |s| then true
    else if !Used(s[i]) then EachOnce(s[i := ZERO_ENTRY], e, i + 1)
    else if e != i then AllOnce(s, e, i) && EachOnce(Pulled(s, e, i), e + 1, e + 1)
    else EachOnce(s, e + 1, e + 1)
  }

  lemma SqueezeTurn(s: seq<Entry>, e: nat, i: nat)
    requires e <= i < |s|
    ensures !Used(s[i]) ==> Squeeze(s, e, i) == Squeeze(s[i := ZERO_ENTRY], e, i + 1)
    ensures Used(s[i]) && e != i ==> Squeeze(s, e, i) == Squeeze(Pulled(s, e, i), e + 1, e + 1)
    ensures Used(s[i]) && e == i ==> Squeeze(s, e, i) == Squeeze(s, e + 1, e + 1)
  {
  }

  lemma EachOnceTurn(s: seq<Entry>, e: nat, i: nat)
    requires e <= i < |s|
    ensures !Used(s[i]) ==> EachOnce(s, e, i) == EachOnce(s[i := ZERO_ENTRY], e, i + 1)
    ensures Used(s[i]) && e != i ==> EachOnce(s, e, i) == (AllOnce(s, e, i) && EachOnce(Pulled(s, e, i), e + 1, e + 1))
    ensures Used(s[i]) && e == i ==> EachOnce(s, e, i) == EachOnce(s, e + 1, e + 1)
  {
  }

  lemma FirstAtGap(s: seq<Entry>, e: nat, i: nat)
    requires e < i < |s| && Used(s[i])
    requires (forall k :: 0 <= k < e ==> Used(s[k])) && (forall k :: e <= k < i ==> !Used(s[k]))
    ensures AtGap(s, e, i)
  {
  }

  /** For every table: if every closing lets each partition survive once, squeezing keeps them all, in order. */
  lemma {:induction false} EachOnceKeeps(s: seq<Entry>, e: nat, i: nat)
    requires e <= i <= |s| && EachOnce(s, e, i)
    requires forall k :: 0 <= k < e ==> Used(s[k])
    requires forall k :: e <= k < i ==> !Used(s[k])
    ensures UsedOf(Squeeze(s, e, i)) == UsedOf(s)
    decreases |s| - e, |s| - i
  {
    hide UsedOf, Pulled, AllOnce, AtGap, RoomBehind, GapsHarmless, Distinct, Alike;
    if i < |s| {
      hide Squeeze, EachOnce;
      SqueezeTurn(s, e, i);
      EachOnceTurn(s, e, i);
      if !Used(s[i]) {
        var t := s[i := ZERO_ENTRY];
        ZeroedAlike(s, i);
        UsedOfAlike(s, t);
        EachOnceKeeps(t, e, i + 1);
      } else if e != i {
        FirstAtGap(s, e, i);
        AllOnceKeeps(s, e, i);
        PulledPrefix(s, e, i);
        EachOnceKeeps(Pulled(s, e, i), e + 1, e + 1);
      } else {
        EachOnceKeeps(s, e + 1, e + 1);
      }
    }
  }

  /** Of the used entries behind a gap, the one a gap's length behind the first is among those that closing leaves
      behind, and no other is, given what closing the gaps in front has moved already. */
  predicate SafeGap(s: seq<Entry>, j: nat, i: nat) {
    && j <= i && j <= |s|
    && forall m :: i < m < |s| && Used(s[m]) ==> (m == i + (i - j) <==> m >= |s| - (i - j) + UnusedBefore(s, j))
  }

  ghost predicate GapsSafe(s: seq<Entry>) {
    forall j: nat, i: nat :: Gap(s, j, i) ==> SafeGap(s, j, i)
  }

  /** With room behind, to be safe is to be harmless. */
  lemma SafeIsHarmless(s: seq<Entry>)
    requires RoomBehind(s)
    ensures GapsSafe(s) <==> GapsHarmless(s)
  {
    forall j: nat, i: nat | Gap(s, j, i) ensures SafeGap(s, j, i) <==> Harmless(s, j, i) {
      GapInside(s, j, i);
      assert ClearBehind(s, i, |s| - (i - j) + UnusedBefore(s, j));
    }
  }

  lemma AlikeSafe(s: seq<Entry>, t: seq<Entry>)
    requires Alike(s, t) && GapsSafe(s)
    ensures GapsSafe(t)
  {
    hide UnusedBefore;
    forall j: nat, i: nat | Gap(t, j, i) ensures SafeGap(t, j, i) {
      assert Gap(s, j, i);
      AlikeUnused(s, t, j);
    }
  }

  lemma SafeFirst(s: seq<Entry>, e: nat, i: nat)
    requires AtGap(s, e, i) && GapsSafe(s)
    ensures AllOnce(s, e, i)
  {
    assert SafeGap(s, e, i);
    UnusedInPrefix(s, e);
  }

  /** If nothing is left behind, the other gaps are as safe as they were. */
  lemma MovedSafe(s: seq<Entry>, t: seq<Entry>, e: nat, i: nat)
    requires Closing(s, e, i) && Moved(s, t, e, i - e) && GapsSafe(s)
    ensures GapsSafe(t)
  {
    hide Gap, Closing, UnusedBefore, Harmless, ClearBehind;
    var d := i - e;
    forall j: nat, m: nat | Gap(t, j, m) ensures SafeGap(t, j, m) {
      GapInside(t, j, m);
      GapComesFrom(s, t, e, i, j, m);
      MovedUnused(s, t, e, i, j);
      assert SafeGap(s, j + d, m + d);
      forall k | m < k < |t| && Used(t[k]) ensures k == m + (m - j) <==> k >= |t| - (m - j) + UnusedBefore(t, j) {
        assert Used(s[k + d]);
      }
    }
  }

  /** What was unused below an entry that the copy has moved, when one entry is left behind. */
  lemma {:induction false} LeftBehindUnused(s: seq<Entry>, t: seq<Entry>, e: nat, i: nat, x: nat, k: nat)
    requires AtGap(s, e, i) && x == i + (i - e) < |s| == |t|
    requires forall l: nat :: l < |s| ==> LeavesBehind(s, t, e, i, x, l)
    requires e <= k <= i
    ensures UnusedBefore(s, k + (i - e)) == UnusedBefore(t, k) + (i - e)
  {
    if k == e {
      UnusedInGap(s, e, i);
      forall l | 0 <= l < e ensures Used(t[l]) {
        assert LeavesBehind(s, t, e, i, x, l);
      }
      UnusedInPrefix(t, e);
    } else {
      LeftBehindUnused(s, t, e, i, x, k - 1);
      LeavesBehindFacts(s, t, e, i, x, k - 1);
    }
  }

  /** A gap after the closing, when one entry is left behind: in front of that entry, or one that was there. */
  lemma LeftBehindGap(s: seq<Entry>, t: seq<Entry>, e: nat, i: nat, x: nat, j: nat, m: nat)
    requires AtGap(s, e, i) && x == i + (i - e) < |s| == |t|
    requires forall l: nat :: l < |s| ==> LeavesBehind(s, t, e, i, x, l)
    requires Gap(t, j, m) && m != x
    ensures e < j < m < i && Gap(s, j + (i - e), m + (i - e))
  {
    var d := i - e;
    LeavesBehindFacts(s, t, e, i, x, m);
    forall l | 0 <= l <= e ensures Used(t[l]) {
      LeavesBehindFacts(s, t, e, i, x, l);
    }
    assert !Used(t[j]) && Used(t[j - 1]);
    LeavesBehindFacts(s, t, e, i, x, j - 1);
    forall k | j + d <= k < m + d ensures !Used(s[k]) {
      LeavesBehindFacts(s, t, e, i, x, k - d);
    }
  }

  lemma LeftBehindSafe(s: seq<Entry>, t: seq<Entry>, e: nat, i: nat, x: nat)
    requires AtGap(s, e, i) && AllOnce(s, e, i) && GapsSafe(s) && x == i + (i - e) < |s| == |t|
    requires forall l: nat :: l < |s| ==> LeavesBehind(s, t, e, i, x, l)
    ensures GapsSafe(t)
  {
    hide Gap, AllOnce, UnusedBefore;
    forall j: nat, m: nat | Gap(t, j, m) ensures SafeGap(t, j, m) {
      GapInside(t, j, m);
      forall k | m < k < |t| && Used(t[k]) ensures k == m + (m - j) <==> k >= |t| - (m - j) + UnusedBefore(t, j) {
        LeftBehindSafeAt(s, t, e, i, x, j, m, k);
      }
    }
  }

  lemma LeftBehindSafeAt(s: seq<Entry>, t: seq<Entry>, e: nat, i: nat, x: nat, j: nat, m: nat, k: nat)
    requires AtGap(s, e, i) && AllOnce(s, e, i) && GapsSafe(s) && x == i + (i - e) < |s| == |t|
    requires forall l: nat :: l < |s| ==> LeavesBehind(s, t, e, i, x, l)
    requires Gap(t, j, m) && j < m < k < |t| && Used(t[k])
    ensures k == m + (m - j) <==> k >= |t| - (m - j) + UnusedBefore(t, j)
  {
    hide UnusedBefore, LeavesBehind, SafeGap, Gap, SurvivesOnce;
    var d := i - e;
    LeavesBehindFacts(s, t, e, i, x, k);
    LeavesBehindFacts(s, t, e, i, x, m);
    GapEnds(t, j, m);
    LeftBehindGap(s, t, e, i, x, j, m);
    LeftBehindUnused(s, t, e, i, x, j);
    GapEnds(s, j + d, m + d);
    SafeAt(s, j + d, m + d);
    OnceAt(s, e, i, m + d);
    if k < i {
      assert Used(s[k + d]);
    }
  }

  lemma SafeAt(s: seq<Entry>, j: nat, i: nat)
    requires GapsSafe(s) && Gap(s, j, i)
    ensures j < i < |s|
    ensures forall m :: i < m < |s| && Used(s[m]) ==> (m == i + (i - j) <==> m >= |s| - (i - j) + UnusedBefore(s, j))
  {
    assert SafeGap(s, j, i);
  }

  lemma OnceAt(s: seq<Entry>, e: nat, i: nat, m: nat)
    requires e < i < m < |s| && AllOnce(s, e, i) && Used(s[m])
    ensures m == i + (i - e) <==> m >= |s| - (i - e)
  {
    assert SurvivesOnce(|s|, e, i, m);
  }

  lemma PulledSafe(s: seq<Entry>, e: nat, i: nat)
    requires AtGap(s, e, i) && GapsSafe(s)
    ensures AllOnce(s, e, i) && GapsSafe(Pulled(s, e, i))
  {
    hide Pulled, GapsSafe, Gap;
    SafeFirst(s, e, i);
    var t := Pulled(s, e, i);
    if x: nat :| i < x < |s| && x >= |s| - (i - e) && Used(s[x]) {
      LeftBehindAt(s, e, i, x, x);
      forall k: nat | k < |s| ensures LeavesBehind(s, t, e, i, x, k) {
        LeftBehindAt(s, e, i, x, k);
      }
      LeftBehindSafe(s, t, e, i, x);
    } else {
      HarmlessIsOnce(s, e, i);
      PulledMoves(s, e, i);
      MovedSafe(s, t, e, i);
    }
  }

  /** A table whose gaps are safe is one in which every closing lets each partition survive once. */
  lemma {:induction false} SafeIsEachOnce(s: seq<Entry>, e: nat, i: nat)
    requires e <= i <= |s| && GapsSafe(s)
    requires forall k :: 0 <= k < e ==> Used(s[k])
    requires forall k :: e <= k < i ==> !Used(s[k])
    ensures EachOnce(s, e, i)
    decreases |s| - e, |s| - i
  {
    hide GapsSafe, Pulled, AllOnce, AtGap, RoomBehind, GapsHarmless, Distinct, Alike;
    if i >= |s| {
    } else if !Used(s[i]) {
      ZeroedAlike(s, i);
      AlikeSafe(s, s[i := ZERO_ENTRY]);
      SafeIsEachOnce(s[i := ZERO_ENTRY], e, i + 1);
    } else if e != i {
      FirstAtGap(s, e, i);
      PulledSafe(s, e, i);
      PulledPrefix(s, e, i);
      SafeIsEachOnce(Pulled(s, e, i), e + 1, e + 1);
    } else {
      SafeIsEachOnce(s, e + 1, e + 1);
    }
  }

  /** Any table whose gaps are safe, with or without room behind, with or without equal entries, is squeezed right. */
  lemma SafeGapsKeep(s: seq<Entry>)
    requires GapsSafe(s)
    ensures UsedOf(Squeeze(s, 0, 0)) == UsedOf(s)
  {
    SafeIsEachOnce(s, 0, 0);
    EachOnceKeeps(s, 0, 0);
  }

  // ---- a table with one gap ----

  /** Used entries, a gap, used entries up to z, and none behind. */
  predicate OneGap(s: seq<Entry>, e: nat, i: nat, z: nat) {
    e < i < z <= |s| && forall k :: 0 <= k < |s| ==> (Used(s[k]) <==> k < e || i <= k < z)
  }

  /** The used prefix stays, and the first used entry behind it follows. */
  lemma {:induction false} SqueezeStarts(s: seq<Entry>, e: nat, i: nat, p: nat, q: nat)
    requires e <= i <= q < |s| && e <= p <= q && Used(s[q])
    requires forall k :: 0 <= k < p ==> Used(s[k])
    requires forall k :: p <= k < q ==> !Used(s[k])
    requires forall k :: e <= k < i ==> !Used(s[k])
    ensures var r := Squeeze(s, e, i); r[p] == s[q] && forall k :: 0 <= k < p ==> r[k] == s[k]
    decreases |s| - e, |s| - i
  {
    hide Pulled;
    if !Used(s[i]) {
      SqueezeStarts(s[i := ZERO_ENTRY], e, i + 1, p, q);
    } else if e != i {
      assert !Used(s[e]);
      assert p == e && q == i;
      SqueezeKeepsPrefix(Pulled(s, e, i), e + 1, e + 1);
      PulledAt(s, e, i, e);
      forall k | 0 <= k < e ensures Pulled(s, e, i)[k] == s[k] {
        PulledAt(s, e, i, k);
      }
    } else if e == q {
      SqueezeKeepsPrefix(s, e + 1, e + 1);
    } else {
      SqueezeStarts(s, e + 1, e + 1, p, q);
    }
  }

  lemma {:induction false} SqueezeKeepsPrefix(s: seq<Entry>, e: nat, i: nat)
    requires e <= i
    ensures forall k :: 0 <= k < e && k < |s| ==> Squeeze(s, e, i)[k] == s[k]
    decreases |s| - e, |s| - i
  {
    hide Pulled;
    if i >= |s| {
    } else if !Used(s[i]) {
      SqueezeKeepsPrefix(s[i := ZERO_ENTRY], e, i + 1);
    } else if e != i {
      SqueezeKeepsPrefix(Pulled(s, e, i), e + 1, e + 1);
      forall k | 0 <= k < e ensures Pulled(s, e, i)[k] == s[k] {
        PulledAt(s, e, i, k);
      }
    } else {
      SqueezeKeepsPrefix(s, e + 1, e + 1);
    }
  }

  lemma {:induction false} UsedOfPrefix(s: seq<Entry>, p: nat)
    requires p <= |s| && forall k :: 0 <= k < p ==> Used(s[k])
    ensures |UsedOf(s)| >= p && forall k :: 0 <= k < p ==> UsedOf(s)[k] == s[k]
    decreases |s|
  {
    if p > 0 {
      UsedOfPrefix(s[1..], p - 1);
    }
  }

  lemma UsedOfOneGap(s: seq<Entry>, e: nat, i: nat, z: nat)
    requires OneGap(s, e, i, z)
    ensures UsedOf(s) == s[..e] + s[i..z]
  {
    hide UsedOf;
    ThreeParts(s, e, i);
    UsedOfVacant(s[e..i]);
    assert s[i..] == s[i..z] + s[z..];
    UsedOfConcat(s[i..z], s[z..]);
    UsedOfVacant(s[z..]);
    UsedOfAll(s[..e]);
    UsedOfAll(s[i..z]);
  }

  lemma {:induction false} UsedOfAll(s: seq<Entry>)
    requires forall k :: 0 <= k < |s| ==> Used(s[k])
    ensures UsedOf(s) == s
    decreases |s|
  {
    if s != [] {
      UsedOfAll(s[1..]);
    }
  }

  lemma {:induction false} NextUsed(t: seq<Entry>, p: nat, m: nat) returns (q: nat)
    requires p <= m < |t| && Used(t[m])
    ensures p <= q <= m && Used(t[q]) && forall k :: p <= k < q ==> !Used(t[k])
    decreases m - p
  {
    if Used(t[p]) {
      q := p;
    } else {
      q := NextUsed(t, p + 1, m);
    }
  }

  lemma OneGapLoses(s: seq<Entry>, e: nat, i: nat)
    requires AtGap(s, e, i) && i + (i - e) < |s| - (i - e) && Used(s[i + (i - e)]) && Distinct(s)
    ensures UsedOf(Squeeze(Pulled(s, e, i), e + 1, e + 1)) != UsedOf(s)
  {
    hide Pulled, UsedOf, Squeeze, Distinct;
    var t, x := Pulled(s, e, i), s[i + (i - e)];
    PulledPrefix(s, e, i);
    PulledHarmful(s, e, i);
    var n := SqueezePacks(t, e + 1, e + 1);
    UsedOfHas(Squeeze(t, e + 1, e + 1), x);
  }

  /** If the used part behind the gap is no longer than the gap, what is left behind comes out a second time. */
  lemma OneGapDoubles(s: seq<Entry>, e: nat, i: nat, z: nat, m: nat)
    requires OneGap(s, e, i, z) && z <= i + (i - e) && i < m < z && m >= |s| - (i - e)
    ensures |UsedOf(Squeeze(Pulled(s, e, i), e + 1, e + 1))| > |UsedOf(s)|
  {
    hide Pulled, UsedOf, Squeeze;
    var d, p, t := i - e, e + (z - i), Pulled(s, e, i);
    forall k | 0 <= k < p ensures Used(t[k]) {
      PulledAt(s, e, i, k);
    }
    PulledAt(s, e, i, m);
    var q := NextUsed(t, p, m);
    SqueezeStarts(t, e + 1, e + 1, p, q);
    var r := Squeeze(t, e + 1, e + 1);
    UsedOfPrefix(r, p + 1);
    UsedOfOneGap(s, e, i, z);
  }

  /** If it is longer, another entry takes the place of the one that is cleared. */
  lemma OneGapMisplaces(s: seq<Entry>, e: nat, i: nat, z: nat, m: nat)
    requires OneGap(s, e, i, z) && Distinct(s) && |s| - (i - e) <= i + (i - e) < z
    requires i < m < z && m >= |s| - (i - e) && m != i + (i - e)
    ensures UsedOf(Squeeze(Pulled(s, e, i), e + 1, e + 1)) != UsedOf(s)
  {
    hide Pulled, UsedOf, Squeeze, Distinct;
    var d, t := i - e, Pulled(s, e, i);
    var x := i + d;
    forall k | 0 <= k < i ensures Used(t[k]) {
      PulledAt(s, e, i, k);
    }
    PulledAt(s, e, i, i);
    PulledAt(s, e, i, m);
    var q := NextUsed(t, i, m);
    PulledAt(s, e, i, q);
    PulledAt(s, e, i, i + 1);
    DistinctAt(s, x, if q < |s| - d then q + d else q);
    SqueezeStarts(t, e + 1, e + 1, i, q);
    var r := Squeeze(t, e + 1, e + 1);
    UsedOfPrefix(r, i + 1);
    UsedOfOneGap(s, e, i, z);
    assert UsedOf(r)[i] == r[i] == t[q];
    assert UsedOf(s)[i] == s[x];
  }

  lemma DistinctAt(s: seq<Entry>, a: nat, b: nat)
    requires Distinct(s) && a < |s| && b < |s| && a != b && Used(s[a]) && Used(s[b])
    ensures s[a] != s[b]
  {
  }

  lemma OneGapFails(s: seq<Entry>, e: nat, i: nat, z: nat)
    requires OneGap(s, e, i, z) && Distinct(s) && !AllOnce(s, e, i)
    ensures UsedOf(Squeeze(Pulled(s, e, i), e + 1, e + 1)) != UsedOf(s)
  {
    hide Pulled, UsedOf, Squeeze, Distinct;
    var d := i - e;
    var m: nat :| m < |s| && Used(s[m]) && !SurvivesOnce(|s|, e, i, m);
    if m == i + d {
      OneGapLoses(s, e, i);
    } else if i + d >= z {
      OneGapDoubles(s, e, i, z, m);
    } else if i + d < |s| - d {
      OneGapLoses(s, e, i);
    } else {
      OneGapMisplaces(s, e, i, z, m);
    }
  }

  lemma OneGapSafe(s: seq<Entry>, e: nat, i: nat, z: nat)
    requires OneGap(s, e, i, z) && AllOnce(s, e, i)
    ensures GapsSafe(s)
  {
    UnusedInPrefix(s, e);
    forall j: nat, m: nat | Gap(s, j, m) ensures SafeGap(s, j, m) {
      GapEnds(s, j, m);
      assert Used(s[i]) && (j > 0 ==> Used(s[j - 1])) && !Used(s[e]);
      assert j == e && m == i;
      forall k: nat | m < k < |s| && Used(s[k]) ensures k == i + (i - e) <==> k >= |s| - (i - e) {
        OnceAt(s, e, i, k);
      }
    }
  }

  /** The first used entry from l on is the next of the part in front, or the one behind the gap. */
  lemma OneGapNext(s: seq<Entry>, k: nat, l: nat, e: nat, i: nat, z: nat)
    requires OneGap(s, e, i, z) && k <= l <= i
    requires forall m :: 0 <= m < k ==> Used(s[m])
    requires forall m :: k <= m < l ==> !Used(s[m])
    ensures l < |s|
    ensures !Used(s[l]) ==> l < i
    ensures Used(s[l]) ==> if l == i then k == e else k == l < e
  {
    assert !Used(s[e]);
    assert k < l ==> !Used(s[k]);
  }

  lemma OneGapZeroed(s: seq<Entry>, l: nat, e: nat, i: nat, z: nat)
    requires OneGap(s, e, i, z) && Distinct(s) && l < |s| && !Used(s[l])
    ensures var t := s[l := ZERO_ENTRY];
      && OneGap(t, e, i, z) && Distinct(t) && UsedOf(t) == UsedOf(s) && (AllOnce(t, e, i) <==> AllOnce(s, e, i))
  {
    hide UsedOf, Distinct;
    var t := s[l := ZERO_ENTRY];
    ZeroedAlike(s, l);
    UsedOfAlike(s, t);
  }

  lemma OneGapClosed(s: seq<Entry>, e: nat, i: nat, z: nat)
    requires OneGap(s, e, i, z) && Distinct(s)
    ensures UsedOf(Squeeze(s, e, i)) == UsedOf(s) <==> AllOnce(s, e, i)
  {
    hide UsedOf, Pulled, Squeeze, Distinct, AllOnce;
    if AllOnce(s, e, i) {
      OneGapSafe(s, e, i, z);
      SafeIsEachOnce(s, e, i);
      EachOnceKeeps(s, e, i);
    } else {
      SqueezeTurn(s, e, i);
      OneGapFails(s, e, i, z);
    }
  }

  lemma {:induction false} OneGapRun(s: seq<Entry>, k: nat, l: nat, e: nat, i: nat, z: nat)
    requires OneGap(s, e, i, z) && Distinct(s) && k <= l <= i
    requires forall m :: 0 <= m < k ==> Used(s[m])
    requires forall m :: k <= m < l ==> !Used(s[m])
    ensures UsedOf(Squeeze(s, k, l)) == UsedOf(s) <==> AllOnce(s, e, i)
    decreases |s| - k, |s| - l
  {
    hide Pulled, UsedOf, Distinct, Squeeze, AllOnce, OneGap;
    OneGapNext(s, k, l, e, i, z);
    SqueezeTurn(s, k, l);
    if !Used(s[l]) {
      OneGapZeroed(s, l, e, i, z);
      OneGapRun(s[l := ZERO_ENTRY], k, l + 1, e, i, z);
    } else if l == i {
      OneGapClosed(s, e, i, z);
    } else {
      OneGapRun(s, k + 1, k + 1, e, i, z);
    }
  }

  lemma OneGapOnce(s: seq<Entry>, e: nat, i: nat, z: nat)
    requires OneGap(s, e, i, z)
    ensures AllOnce(s, e, i) <==> FitsGap(|s|, i - e, i, z)
  {
    hide OneGap;
    var n, d := |s|, i - e;
    OneGapUsed(s, e, i, z);
    if !FitsGap(n, d, i, z) {
      var m := if z <= i + d || (n - d <= i + d && z > i + d + 1) then z - 1
               else if n - d > i + d then i + d else i + d - 1;
      assert i < m < z && !SurvivesOnce(n, e, i, m);
    }
  }

  lemma OneGapUsed(s: seq<Entry>, e: nat, i: nat, z: nat)
    requires OneGap(s, e, i, z)
    ensures e < i < z <= |s| && forall k: nat :: k < |s| ==> (Used(s[k]) <==> k < e || i <= k < z)
  {
  }

  /** The part behind the gap is no longer than the gap and ends before the last d places, or it is one entry; or it is
      one longer than the gap and ends in the first of those places. */
  predicate FitsGap(n: nat, d: nat, i: nat, z: nat) {
    (z <= i + d && (z == i + 1 || z <= n - d)) || (z == i + d + 1 && n == i + 2 * d)
  }

  /** A table of distinct entries with one gap, whatever room is behind, is squeezed right if and only if the part
      behind the gap fits in that sense. */
  lemma OneGapExactly(s: seq<Entry>, e: nat, i: nat, z: nat)
    requires OneGap(s, e, i, z) && Distinct(s)
    ensures UsedOf(Squeeze(s, 0, 0)) == UsedOf(s) <==> FitsGap(|s|, i - e, i, z)
  {
    hide AllOnce, FitsGap, UsedOf, Squeeze;
    OneGapRun(s, 0, 0, e, i, z);
    OneGapOnce(s, e, i, z);
  }
}
