/** GPT editing in place: squeeze, sort, hide, synchronise (GptEdit.c, lines 497-605; GptRead.c, lines 27-133). */
module Gpt {
  import opened Bytes
  import opened GptSpec
  import opened GptGaps

  // ---- squeezing ----

  method GptSqueze(parts: array<Entry>)
    modifies parts
    ensures parts[..] == Squeeze(old(parts[..]), 0, 0)
  {
    hide Squeeze, Pulled, Used;
    var i, emptyIdx, count := 0, 0, parts.Length;
    while i < count
      invariant 0 <= emptyIdx <= i <= count
      invariant Squeeze(parts[..], emptyIdx, i) == Squeeze(old(parts[..]), 0, 0)
      decreases count - emptyIdx, count - i
    {
      ghost var was := parts[..];
      SqueezeTurn(was, emptyIdx, i);
      if !Used(parts[i]) {
        parts[i] := ZERO_ENTRY;
        assert parts[..] == was[i := ZERO_ENTRY];
        i := i + 1;
      } else {
        if emptyIdx != i {
          PullTail(parts, emptyIdx, i);
        }
        emptyIdx := emptyIdx + 1;
        i := emptyIdx;
      }
    }
    SqueezeDone(parts[..], emptyIdx, i);
  }

  /** CopyMem moves overlapping bytes as if through a buffer. */
  method PullTail(parts: array<Entry>, emptyIdx: nat, i: nat)
    requires emptyIdx < i < parts.Length
    modifies parts
    ensures parts[..] == Pulled(old(parts[..]), emptyIdx, i)
  {
    ghost var was := parts[..];
    forall k | 0 <= k < parts.Length - i {
      parts[emptyIdx + k] := parts[i + k];
    }
    parts[i] := ZERO_ENTRY;
    assert parts[..] == Pulled(was, emptyIdx, i) by {
      forall k | 0 <= k < parts.Length ensures parts[k] == Pulled(was, emptyIdx, i)[k] {
        PulledAt(was, emptyIdx, i, k);
      }
    }
  }

  lemma SqueezeDone(s: seq<Entry>, e: nat, i: nat)
    requires e <= i && |s| <= i
    ensures Squeeze(s, e, i) == s
  {
  }

  // ---- sorting ----

  /** The entries with one StartingLBA, in order. */
  function WithStart(s: seq<Entry>, lba: u64): seq<Entry> {
    if s == [] then [] else (if s[0].startingLba == lba then [s[0]] else []) + WithStart(s[1..], lba)
  }

  /** A rearrangement that keeps entries of equal StartingLBA in their order. */
  ghost predicate StablePermutation(s: seq<Entry>, t: seq<Entry>) {
    |s| == |t| && forall lba: u64 :: WithStart(s, lba) == WithStart(t, lba)
  }

  predicate SortedTo(s: seq<Entry>, n: nat) {
    n <= |s| && forall a, b :: 0 <= a < b < n ==> s[a].startingLba <= s[b].startingLba
  }

  lemma {:induction false} WithStartConcat(a: seq<Entry>, b: seq<Entry>, lba: u64)
    ensures WithStart(a + b, lba) == WithStart(a, lba) + WithStart(b, lba)
    decreases |a|
  {
    if a == [] {
      assert a + b == b;
    } else {
      hide WithStart;
      ConcatFirst(a, b);
      WithStartFirst(a, lba);
      WithStartFirst(a + b, lba);
      WithStartConcat(a[1..], b, lba);
      ConcatAssoc(if a[0].startingLba == lba then [a[0]] else [], WithStart(a[1..], lba), WithStart(b, lba));
    }
  }

  lemma WithStartFirst(s: seq<Entry>, lba: u64)
    requires s != []
    ensures WithStart(s, lba) == (if s[0].startingLba == lba then [s[0]] else []) + WithStart(s[1..], lba)
  {
  }

  lemma {:induction false} WithStartHas(s: seq<Entry>, x: Entry)
    ensures x in s <==> x in WithStart(s, x.startingLba)
  {
    if s != [] {
      assert s == [s[0]] + s[1..];
      WithStartHas(s[1..], x);
    }
  }

  /** A stable permutation has the same members. */
  lemma StableMembers(s: seq<Entry>, t: seq<Entry>)
    requires StablePermutation(s, t)
    ensures forall x :: x in s <==> x in t
  {
    forall x: Entry ensures x in s <==> x in t {
      WithStartHas(s, x);
      WithStartHas(t, x);
    }
  }

  lemma StableConcat(s: seq<Entry>, t: seq<Entry>, rest: seq<Entry>)
    requires StablePermutation(s, t)
    ensures StablePermutation(s + rest, t + rest)
  {
    forall lba: u64 ensures WithStart(s + rest, lba) == WithStart(t + rest, lba) {
      WithStartConcat(s, rest, lba);
      WithStartConcat(t, rest, lba);
    }
  }

  lemma StableTrans(s: seq<Entry>, t: seq<Entry>, u: seq<Entry>)
    requires StablePermutation(s, t) && StablePermutation(t, u)
    ensures StablePermutation(s, u)
  {
    hide WithStart;
  }

  function Exchanged(s: seq<Entry>, i: nat): (t: seq<Entry>)
    requires i + 1 < |s|
    ensures |t| == |s|
  {
    s[i := s[i + 1]][i + 1 := s[i]]
  }

  /** Exchanging two neighbours that are out of order. */
  lemma SwapStable(s: seq<Entry>, i: nat)
    requires i + 1 < |s| && s[i].startingLba > s[i + 1].startingLba
    ensures StablePermutation(s, Exchanged(s, i))
  {
    var t := Exchanged(s, i);
    var a, x, y, b := s[..i], s[i], s[i + 1], s[i + 2..];
    assert s == a + ([x, y] + b) && t == a + ([y, x] + b);
    forall lba: u64 ensures WithStart(s, lba) == WithStart(t, lba) {
      WithStartConcat(a, [x, y] + b, lba);
      WithStartConcat(a, [y, x] + b, lba);
      WithStartConcat([x, y], b, lba);
      WithStartConcat([y, x], b, lba);
      assert [x, y][1..] == [y] && [y, x][1..] == [x] && [x][1..] == [] && [y][1..] == [];
    }
  }

  /** A pass over the first m + 1 entries that has come to i, carrying the largest so far. */
  ghost predicate Passed(s: seq<Entry>, t: seq<Entry>, i: nat, m: nat) {
    && i <= m < |s| == |t|
    && StablePermutation(s[..m + 1], t[..m + 1]) && s[m + 1..] == t[m + 1..]
    && forall k :: 0 <= k <= i ==> t[k].startingLba <= t[i].startingLba
  }

  lemma PassedSwap(s: seq<Entry>, t: seq<Entry>, i: nat, m: nat)
    requires Passed(s, t, i, m) && i < m && t[i].startingLba > t[i + 1].startingLba
    ensures Passed(s, Exchanged(t, i), i + 1, m)
  {
    hide StablePermutation;
    var u := Exchanged(t, i);
    SwapStable(t[..m + 1], i);
    assert u[..m + 1] == Exchanged(t[..m + 1], i);
    StableTrans(s[..m + 1], t[..m + 1], u[..m + 1]);
    assert u[m + 1..] == t[m + 1..];
  }

  /** The entries above m are in their final places: no entry below is larger. */
  predicate Settled(s: seq<Entry>, m: nat, n: nat) {
    n <= |s| && forall a, b :: 0 <= a < b && m <= b < n ==> s[a].startingLba <= s[b].startingLba
  }

  lemma PassSettles(s: seq<Entry>, t: seq<Entry>, m: nat, n: nat)
    requires m < n <= |s| && Settled(s, m + 1, n) && Passed(s, t, m, m)
    ensures Settled(t, m, n) && StablePermutation(s[..n], t[..n]) && s[n..] == t[n..]
  {
    var rest := s[m + 1..n];
    assert s[..n] == s[..m + 1] + rest;
    assert t[..n] == t[..m + 1] + rest by {
      assert t[m + 1..n] == t[m + 1..][..n - (m + 1)];
    }
    StableConcat(s[..m + 1], t[..m + 1], rest);
    assert s[n..] == s[m + 1..][n - (m + 1)..] && t[n..] == t[m + 1..][n - (m + 1)..];
    hide StablePermutation;
    StableMembers(s[..m + 1], t[..m + 1]);
    forall a, b | 0 <= a < b && m <= b < n ensures t[a].startingLba <= t[b].startingLba {
      if b > m {
        assert t[b] == t[m + 1..][b - (m + 1)] == s[m + 1..][b - (m + 1)] == s[b];
        if a <= m {
          assert t[a] == t[..m + 1][a];
          var low := s[..m + 1];
          assert t[a] in low;
          var c :| 0 <= c < |low| && low[c] == t[a];
        } else {
          assert t[a] == t[m + 1..][a - (m + 1)] == s[m + 1..][a - (m + 1)] == s[a];
        }
      }
    }
  }

  /** One pass of the bubble: the largest of the first m + 1 entries ends up at m. */
  method BubblePass(parts: array<Entry>, m: nat) returns (swapped: bool)
    requires m < parts.Length
    modifies parts
    ensures Passed(old(parts[..]), parts[..], m, m)
    ensures !swapped ==> SortedTo(parts[..], m + 1)
    ensures swapped ==> m > 0
  {
    hide StablePermutation;
    ghost var was := parts[..];
    swapped := false;
    StableSame(parts[..m + 1]);
    for i := 0 to m
      invariant Passed(was, parts[..], i, m)
      invariant !swapped ==> SortedTo(parts[..], i + 1)
      invariant swapped ==> m > 0
    {
      if parts[i].startingLba > parts[i + 1].startingLba {
        PassedSwap(was, parts[..], i, m);
        ghost var now := parts[..];
        parts[i], parts[i + 1] := parts[i + 1], parts[i];
        assert parts[..] == Exchanged(now, i);
        swapped := true;
      }
    }
  }

  lemma StableSame(s: seq<Entry>)
    ensures StablePermutation(s, s)
  {
  }

  /** The length of the used prefix. */
  function Prefix(s: seq<Entry>): (n: nat)
    ensures n <= |s| && (forall k :: 0 <= k < n ==> Used(s[k])) && (n < |s| ==> !Used(s[n]))
  {
    if s == [] || !Used(s[0]) then 0 else 1 + Prefix(s[1..])
  }

  lemma {:induction false} PrefixUnique(s: seq<Entry>, n: nat)
    requires n <= |s| && (forall k :: 0 <= k < n ==> Used(s[k])) && (n < |s| ==> !Used(s[n]))
    ensures Prefix(s) == n
  {
    if n > 0 {
      PrefixUnique(s[1..], n - 1);
    }
  }

  /** GptSort. With no used entry in front the source's unsigned n - j wraps around. */
  method GptSort(parts: array<Entry>)
    requires Prefix(parts[..]) > 0
    modifies parts
    ensures var n := Prefix(old(parts[..]));
      && SortedTo(parts[..], n) && parts[n..] == old(parts[n..])
      && StablePermutation(old(parts[..n]), parts[..n])
  {
    hide StablePermutation;
    ghost var was := parts[..];
    var count := parts.Length;
    var n := 0;
    while n < count && Used(parts[n])
      invariant n <= count
      invariant forall k :: 0 <= k < n ==> Used(parts[k])
    {
      n := n + 1;
    }
    PrefixUnique(parts[..], n);
    StableSame(parts[..n]);
    var j := 0;
    var swapped := true;
    while swapped
      invariant j <= n && (swapped ==> j < n)
      invariant Settled(parts[..], n - j, n) && parts[n..] == was[n..]
      invariant StablePermutation(was[..n], parts[..n])
      invariant !swapped ==> SortedTo(parts[..], n)
      decreases n - j, swapped
    {
      ghost var now := parts[..];
      j := j + 1;
      swapped := BubblePass(parts, n - j);
      PassSettles(now, parts[..], n - j, n);
      StableTrans(was[..n], now[..n], parts[..n]);
    }
  }

  // ---- checksums and the two copies ----

  /** EFI_PARTITION_TABLE_HEADER; `geometry` stands for the fields no operation here reads or writes. */
  datatype Header = Header(geometry: seq<byte>, headerSize: u32, crc: u32, numberOfEntries: u32, entryArrayCrc: u32)

  /** gBS->CalculateCrc32 over the first HeaderSize bytes of a header, and over an entry array. */
  datatype Crcs = Crcs(header: Header -> u32, entries: seq<Entry> -> u32)

  /** GptHeaderCheckCrc: the CRC field is cleared, the CRC taken, the field put back. */
  predicate HeaderCheckCrc(c: Crcs, h: Header, maxSize: nat) {
    && h.headerSize != 0
    && !(maxSize != 0 && h.headerSize > maxSize)
    && h.crc == c.header(h.(crc := 0))
  }

  /** GptCheckEntryArray; CalculateCrc32 refuses to take the CRC of nothing. */
  predicate CheckEntryArray(c: Crcs, h: Header, entries: seq<Entry>) {
    h.numberOfEntries != 0 && h.entryArrayCrc == c.entries(entries)
  }

  /** Both checks that a reader of the table makes. */
  predicate Checked(c: Crcs, h: Header, entries: seq<Entry>) {
    HeaderCheckCrc(c, h, 0) && CheckEntryArray(c, h, entries)
  }

  // ---- hiding ----

  /** IsRegionOverlap: the borders belong to the regions. */
  predicate IsRegionOverlap(start1: u64, end1: u64, start2: u64, end2: u64) {
    if start1 < start2 then end1 >= start2 else start1 <= end2
  }

  predicate Within(lba: u64, start: u64, end: u64) {
    start <= lba <= end
  }

  lemma OverlapIsShared(start1: u64, end1: u64, start2: u64, end2: u64)
    requires start1 <= end1 && start2 <= end2
    ensures IsRegionOverlap(start1, end1, start2, end2)
        <==> exists lba: u64 :: Within(lba, start1, end1) && Within(lba, start2, end2)
  {
    if IsRegionOverlap(start1, end1, start2, end2) {
      var lba: u64 := if start1 < start2 then start2 else start1;
      assert Within(lba, start1, end1) && Within(lba, start2, end2);
    }
  }

  /** A partition in use that shares a sector with the range to hide. */
  predicate Hit(e: Entry, part: Entry) {
    Used(e) && IsRegionOverlap(e.startingLba, e.endingLba, part.startingLba, part.endingLba)
  }

  // ---- the same in sectors ----

  /** No sector belongs to both regions. */
  ghost predicate Apart(e: Entry, part: Entry) {
    forall lba: u64 :: !(Within(lba, e.startingLba, e.endingLba) && Within(lba, part.startingLba, part.endingLba))
  }

  /** A partition in use with a sector in the range. */
  ghost predicate Shares(e: Entry, part: Entry) {
    Used(e) && !Apart(e, part)
  }

  /** Every region in use has its ends in order. */
  predicate Ordered(s: seq<Entry>) {
    forall k :: 0 <= k < |s| && Used(s[k]) ==> s[k].startingLba <= s[k].endingLba
  }

  lemma HitIsShared(e: Entry, part: Entry)
    requires part.startingLba <= part.endingLba
    ensures Shares(e, part) ==> Hit(e, part)
    ensures e.startingLba <= e.endingLba ==> (Hit(e, part) <==> Shares(e, part))
  {
    if e.startingLba <= e.endingLba {
      OverlapIsShared(e.startingLba, e.endingLba, part.startingLba, part.endingLba);
    } else {
      assert Apart(e, part);
    }
  }

  /** The first partition with a sector in the range becomes the hiding one, all others with one are cleared, and those
      without stay as they are. */
  ghost predicate HiddenInSectors(s: seq<Entry>, h: seq<Entry>, part: Entry) {
    |h| == |s| && forall k :: 0 <= k < |s| ==>
      h[k] == if !Shares(s[k], part) then s[k] else if SharedBefore(s, part, k) then ZERO_ENTRY else part
  }

  ghost predicate SharedBefore(s: seq<Entry>, part: Entry, k: nat) {
    exists j :: 0 <= j < k && j < |s| && Shares(s[j], part)
  }

  lemma HiddenIsInSectors(s: seq<Entry>, part: Entry)
    requires Ordered(s) && part.startingLba <= part.endingLba
    ensures HiddenInSectors(s, Hidden(s, part), part)
  {
    hide Apart, IsRegionOverlap;
    forall j | 0 <= j < |s| ensures Hit(s[j], part) <==> Shares(s[j], part) {
      HitIsShared(s[j], part);
    }
    hide Hit, Shares;
    forall k | 0 <= k < |s| ensures HitBefore(s, part, k) <==> SharedBefore(s, part, k) {
      assert forall j :: 0 <= j < k ==> (Hit(s[j], part) <==> Shares(s[j], part));
    }
  }

  /** Who is still there after hiding: who was there and has no sector in the range, and the hiding partition. */
  ghost predicate Remains(s: seq<Entry>, part: Entry, x: Entry) {
    Used(x) && ((x in s && Apart(x, part)) || (x == part && SharedBefore(s, part, |s|)))
  }

  lemma HiddenRemains(s: seq<Entry>, part: Entry, x: Entry)
    requires Ordered(s) && part.startingLba <= part.endingLba
    ensures x in Hidden(s, part) && Used(x) <==> Remains(s, part, x)
  {
    HiddenIsInSectors(s, part);
    var h := Hidden(s, part);
    hide Hidden, Apart;
    if x in h && Used(x) {
      var k :| 0 <= k < |h| && h[k] == x;
      if Shares(s[k], part) {
        assert x == part;
      }
    }
    if x in s && Used(x) && Apart(x, part) {
      var k :| 0 <= k < |s| && s[k] == x;
      assert h[k] == x;
    }
    if SharedBefore(s, part, |s|) {
      var k := FirstShared(s, part, |s|);
      assert h[k] == part;
    }
  }

  lemma {:induction false} FirstShared(s: seq<Entry>, part: Entry, n: nat) returns (k: nat)
    requires n <= |s| && SharedBefore(s, part, n)
    ensures k < n && Shares(s[k], part) && !SharedBefore(s, part, k)
  {
    hide Shares;
    if SharedBefore(s, part, n - 1) {
      k := FirstShared(s, part, n - 1);
    } else {
      k := n - 1;
    }
  }

  predicate HitBefore(s: seq<Entry>, part: Entry, k: nat) {
    exists j :: 0 <= j < k && j < |s| && Hit(s[j], part)
  }

  function HiddenAt(s: seq<Entry>, part: Entry, k: nat): Entry
    requires k < |s|
  {
    if !Hit(s[k], part) then s[k] else if HitBefore(s, part, k) then ZERO_ENTRY else part
  }

  /** The first partition hit becomes the hiding one, the others are cleared. */
  function Hidden(s: seq<Entry>, part: Entry): (r: seq<Entry>)
    ensures |r| == |s| && forall k :: 0 <= k < |s| ==> r[k] == HiddenAt(s, part, k)
  {
    seq(|s|, k requires 0 <= k < |s| => HiddenAt(s, part, k))
  }

  /** No used entry shares a sector with the range, unless it is the hiding entry. */
  predicate Covers(s: seq<Entry>, part: Entry) {
    forall k :: 0 <= k < |s| ==> !Hit(s[k], part) || s[k] == part
  }

  /** In sectors: no partition but the hiding one has a sector in the range. */
  ghost predicate OthersApart(t: seq<Entry>, part: Entry) {
    forall k :: 0 <= k < |t| && Used(t[k]) && t[k] != part ==> Apart(t[k], part)
  }

  /** Every entry comes from the table, or is the hiding entry, or is empty. */
  predicate Sourced(t: seq<Entry>, s: seq<Entry>, part: Entry) {
    forall k :: 0 <= k < |t| ==> t[k] == ZERO_ENTRY || t[k] == part || t[k] in s
  }

  /** What sorting may do to a table with a used prefix of n entries. */
  ghost predicate Arranged(q: seq<Entry>, t: seq<Entry>, n: nat) {
    n <= |q| == |t| && SortedTo(t, n) && t[n..] == q[n..] && StablePermutation(q[..n], t[..n])
  }

  lemma ArrangedMembers(q: seq<Entry>, t: seq<Entry>, n: nat)
    requires Arranged(q, t, n)
    ensures forall x :: x in t <==> x in q
  {
    hide StablePermutation;
    assert q == q[..n] + q[n..] && t == t[..n] + t[n..];
    StableMembers(q[..n], t[..n]);
  }

  lemma ArrangedPacked(q: seq<Entry>, t: seq<Entry>, n: nat)
    requires Arranged(q, t, n) && Packed(q, n)
    ensures Packed(t, n)
  {
    hide StablePermutation;
    StableMembers(q[..n], t[..n]);
    forall k | 0 <= k < n ensures Used(t[k]) {
      assert t[..n][k] in q[..n];
    }
    forall k | n <= k < |t| ensures t[k] == ZERO_ENTRY {
      assert t[k] == t[n..][k - n] == q[n..][k - n];
    }
  }

  /** What hiding, squeezing and sorting leave, for every table and every range. */
  lemma HiddenResult(s: seq<Entry>, part: Entry, t: seq<Entry>, n: nat)
    requires Packed(Squeeze(Hidden(s, part), 0, 0), n) && Arranged(Squeeze(Hidden(s, part), 0, 0), t, n)
    ensures Packed(t, n) && SortedTo(t, n) && Covers(t, part) && Sourced(t, s, part)
    ensures part.startingLba <= part.endingLba ==> OthersApart(t, part)
  {
    hide Squeeze, StablePermutation;
    var h := Hidden(s, part);
    var q := Squeeze(h, 0, 0);
    ArrangedPacked(q, t, n);
    ArrangedMembers(q, t, n);
    var _ := SqueezePacks(h, 0, 0);
    forall k | 0 <= k < |t|
      ensures t[k] == ZERO_ENTRY || t[k] == part || t[k] in s
      ensures !Hit(t[k], part) || t[k] == part
    {
      assert t[k] in q;
      var a :| 0 <= a < |q| && q[a] == t[k];
      if t[k] != ZERO_ENTRY {
        var b :| 0 <= b < |h| && h[b] == t[k];
        assert h[b] == HiddenAt(s, part, b);
      }
    }
    if part.startingLba <= part.endingLba {
      CoversInSectors(t, part);
    }
  }

  lemma CoversInSectors(t: seq<Entry>, part: Entry)
    requires Covers(t, part) && part.startingLba <= part.endingLba
    ensures OthersApart(t, part)
  {
    hide Apart, Hit;
    forall k | 0 <= k < |t| && Used(t[k]) && t[k] != part ensures Apart(t[k], part) {
      HitIsShared(t[k], part);
    }
  }

  /** Hiding keeps every partition without a sector in the range, and the hiding one, exactly when closing the gaps it
      makes is harmless. */
  lemma HidingKeepsExactly(s: seq<Entry>, part: Entry, t: seq<Entry>, n: nat)
    requires Arranged(Squeeze(Hidden(s, part), 0, 0), t, n)
    requires RoomBehind(Hidden(s, part)) && Distinct(Hidden(s, part))
    ensures (forall x :: x in Hidden(s, part) && Used(x) ==> x in t) <==> GapsHarmless(Hidden(s, part))
    ensures Ordered(s) && part.startingLba <= part.endingLba ==>
      ((forall x: Entry :: Remains(s, part, x) ==> x in t) <==> GapsHarmless(Hidden(s, part)))
  {
    hide Squeeze, StablePermutation, RoomBehind, Distinct, GapsHarmless, UsedOf, Hidden, Remains;
    if Ordered(s) && part.startingLba <= part.endingLba {
      forall x: Entry ensures x in Hidden(s, part) && Used(x) <==> Remains(s, part, x) {
        HiddenRemains(s, part, x);
      }
    }
    var h := Hidden(s, part);
    var q := Squeeze(h, 0, 0);
    SqueezeKeepsExactly(h, 0, 0);
    ArrangedMembers(q, t, n);
    forall x: Entry ensures (x in UsedOf(h) <==> x in h && Used(x)) && (x in UsedOf(q) <==> x in q && Used(x)) {
      UsedOfHas(h, x);
      UsedOfHas(q, x);
    }
    if !GapsHarmless(h) {
      var x :| x in UsedOf(h) && x !in UsedOf(q);
      assert x in h && Used(x) && x !in q;
    }
  }

  /** For any table and range: if the gaps that hiding makes are safe, every partition without a sector in the range
      survives, and the hiding one. */
  lemma HidingKeeps(s: seq<Entry>, part: Entry, t: seq<Entry>, n: nat)
    requires Arranged(Squeeze(Hidden(s, part), 0, 0), t, n) && GapsSafe(Hidden(s, part))
    ensures forall x :: x in Hidden(s, part) && Used(x) ==> x in t
    ensures Ordered(s) && part.startingLba <= part.endingLba ==> forall x: Entry :: Remains(s, part, x) ==> x in t
  {
    hide Squeeze, StablePermutation, GapsSafe, UsedOf, Hidden, Remains;
    if Ordered(s) && part.startingLba <= part.endingLba {
      forall x: Entry ensures x in Hidden(s, part) && Used(x) <==> Remains(s, part, x) {
        HiddenRemains(s, part, x);
      }
    }
    var h := Hidden(s, part);
    var q := Squeeze(h, 0, 0);
    SafeGapsKeep(h);
    ArrangedMembers(q, t, n);
    forall x | x in h && Used(x) ensures x in t {
      UsedOfHas(h, x);
      UsedOfHas(q, x);
    }
  }

  // ---- tables for which it goes wrong ----

  function Partition(lba: u64): (e: Entry)
    requires lba + 9 < TWO_64
    ensures Used(e) && e.startingLba == lba && e.endingLba == lba + 9
  {
    var g := Zeros(15) + [1];
    assert g[15] != UNUSED[15];
    Entry(g, Zeros(16), lba, lba + 9, 0, NoName())
  }

  lemma SqueezeOver(s: seq<Entry>, e: nat, i: nat)
    requires e <= i < |s| && s[i] == ZERO_ENTRY
    ensures Squeeze(s, e, i) == Squeeze(s, e, i + 1)
  {
    assert s[i := ZERO_ENTRY] == s;
  }

  /** Five partitions, with the two at 20 and 30 to be hidden. */
  function FiveParts(): seq<Entry> {
    [Partition(10), Partition(20), Partition(30), Partition(40), Partition(50), ZERO_ENTRY]
  }

  function TwoHidden(part: Entry): seq<Entry> {
    [Partition(10), part, ZERO_ENTRY, Partition(40), Partition(50), ZERO_ENTRY]
  }

  lemma FivePartsHidden(part: Entry)
    requires part == Partition(20).(endingLba := 39)
    ensures Hidden(FiveParts(), part) == TwoHidden(part)
  {
    hide Partition;
    var s := FiveParts();
    assert Hit(s[1], part) && Hit(s[2], part);
    assert HitBefore(s, part, 2) && !HitBefore(s, part, 1);
  }

  lemma TwoHiddenSqueezed(part: Entry)
    requires Used(part)
    ensures Squeeze(TwoHidden(part), 0, 0) == [Partition(10), part, Partition(40), ZERO_ENTRY, ZERO_ENTRY, ZERO_ENTRY]
  {
    hide Partition, Used;
    var h, q := TwoHidden(part), [Partition(10), part, Partition(40), ZERO_ENTRY, ZERO_ENTRY, ZERO_ENTRY];
    assert !Used(ZERO_ENTRY) by { ZeroUnused(); }
    SqueezeOver(h, 2, 2);
    assert Pulled(h, 2, 3) == q;
    SqueezeOver(q, 3, 3);
    SqueezeOver(q, 3, 4);
    SqueezeOver(q, 3, 5);
    assert Squeeze(h, 0, 0) == Squeeze(h, 1, 1) == Squeeze(h, 2, 2);
  }

  lemma ZeroUnused()
    ensures !Used(ZERO_ENTRY)
  {
  }

  /** Hiding the two neighbours at 20 and 30 drops the partition at 50, which is not in the range. */
  lemma HidingDrops()
    ensures var s := FiveParts();
      var part := Partition(20).(endingLba := 39);
      Partition(50) in s && !Hit(Partition(50), part) && Partition(50) !in Squeeze(Hidden(s, part), 0, 0)
  {
    hide Squeeze, Hidden;
    var part := Partition(20).(endingLba := 39);
    assert FiveParts()[4] == Partition(50);
    FivePartsHidden(part);
    TwoHiddenSqueezed(part);
  }

  /** A gap longer than the unused tail leaves an entry twice. */
  lemma SqueezeDoubles()
    ensures Squeeze([ZERO_ENTRY, ZERO_ENTRY, Partition(10), Partition(20)], 0, 0)
         == [Partition(10), Partition(20), Partition(20), ZERO_ENTRY]
  {
    var a, b := Partition(10), Partition(20);
    var s, t, u := [ZERO_ENTRY, ZERO_ENTRY, a, b], [a, b, ZERO_ENTRY, b], [a, b, b, ZERO_ENTRY];
    SqueezeOver(s, 0, 0);
    SqueezeOver(s, 0, 1);
    assert Pulled(s, 0, 2) == t;
    SqueezeOver(t, 2, 2);
    assert Pulled(t, 2, 3) == u;
    SqueezeOver(u, 3, 3);
    assert Squeeze(t, 1, 1) == Squeeze(t, 2, 2) == Squeeze(u, 3, 3) == Squeeze(u, 3, 4);
  }

  /** Two gaps; four partitions. */
  function TwoGaps(a: Entry, b: Entry, c: Entry, d: Entry): seq<Entry> {
    [ZERO_ENTRY, ZERO_ENTRY, a, b, ZERO_ENTRY, c, d, ZERO_ENTRY]
  }

  /** Of several gaps, one that is not safe can be made good by a later one: the first closing here leaves d twice, and
      the second closing clears the copy. */
  lemma DoublingUndone(a: Entry, b: Entry, c: Entry, d: Entry)
    requires Used(a) && Used(b) && Used(c) && Used(d)
    ensures !GapsSafe(TwoGaps(a, b, c, d))
    ensures Squeeze(TwoGaps(a, b, c, d), 0, 0) == [a, b, c, d, ZERO_ENTRY, ZERO_ENTRY, ZERO_ENTRY, ZERO_ENTRY]
  {
    TwoGapsUnsafe(a, b, c, d);
    hide GapsSafe, Used, Squeeze;
    TwoGapsFirst(a, b, c, d);
    TwoGapsSecond(a, b, c, d);
    var u, v := FirstClosed(a, b, c, d), [a, b, c, d, ZERO_ENTRY, ZERO_ENTRY, ZERO_ENTRY, ZERO_ENTRY];
    SqueezeOver(u, 3, 3);
    SqueezeOver(u, 3, 4);
    assert Pulled(u, 3, 5) == v;
    SqueezeTurn(u, 3, 5);
    SqueezeEnds(v, 4);
  }

  function FirstClosed(a: Entry, b: Entry, c: Entry, d: Entry): seq<Entry> {
    [a, b, c, ZERO_ENTRY, ZERO_ENTRY, d, ZERO_ENTRY, ZERO_ENTRY]
  }

  function Doubled(a: Entry, b: Entry, c: Entry, d: Entry): seq<Entry> {
    [a, b, ZERO_ENTRY, c, d, ZERO_ENTRY, d, ZERO_ENTRY]
  }

  lemma TwoGapsFirst(a: Entry, b: Entry, c: Entry, d: Entry)
    requires Used(a) && Used(b)
    ensures Squeeze(TwoGaps(a, b, c, d), 0, 0) == Squeeze(Doubled(a, b, c, d), 2, 2)
  {
    hide Used, Squeeze;
    var s, t := TwoGaps(a, b, c, d), Doubled(a, b, c, d);
    SqueezeOver(s, 0, 0);
    SqueezeOver(s, 0, 1);
    assert Pulled(s, 0, 2) == t;
    SqueezeTurn(s, 0, 2);
    SqueezeTurn(t, 1, 1);
  }

  lemma TwoGapsSecond(a: Entry, b: Entry, c: Entry, d: Entry)
    requires Used(c)
    ensures Squeeze(Doubled(a, b, c, d), 2, 2) == Squeeze(FirstClosed(a, b, c, d), 3, 3)
  {
    hide Used, Squeeze;
    var t, u := Doubled(a, b, c, d), FirstClosed(a, b, c, d);
    SqueezeOver(t, 2, 2);
    assert Pulled(t, 2, 3) == u;
    SqueezeTurn(t, 2, 3);
  }

  lemma TwoGapsUnsafe(a: Entry, b: Entry, c: Entry, d: Entry)
    requires Used(a) && Used(d)
    ensures !GapsSafe(TwoGaps(a, b, c, d))
  {
    var s := TwoGaps(a, b, c, d);
    ZeroUnused();
    assert Gap(s, 0, 2) && Used(s[6]);
    assert !SafeGap(s, 0, 2);
  }

  lemma SqueezeEnds(s: seq<Entry>, e: nat)
    requires |s| == e + 4 && forall k :: e <= k < |s| ==> s[k] == ZERO_ENTRY
    ensures Squeeze(s, e, e) == s
  {
    SqueezeOver(s, e, e);
    SqueezeOver(s, e, e + 1);
    SqueezeOver(s, e, e + 2);
    SqueezeOver(s, e, e + 3);
  }

  /** The globals GptMainHdr, GptAltHdr, GptMainEntrys, GptAltEntrys, DeCryptoHeader. */
  class Gpt {
    var mainHdr: Header
    var altHdr: Header
    var cryptoHeader: Option<seq<byte>>
    const mainEntrys: array<Entry>
    const altEntrys: array<Entry>
    const crcs: Crcs

    constructor (mainHdr: Header, altHdr: Header, mainEntrys: array<Entry>, altEntrys: array<Entry>, crcs: Crcs)
      ensures this.mainHdr == mainHdr && this.altHdr == altHdr && cryptoHeader == None
      ensures this.mainEntrys == mainEntrys && this.altEntrys == altEntrys && this.crcs == crcs
    {
      this.mainHdr, this.altHdr, this.cryptoHeader := mainHdr, altHdr, None;
      this.mainEntrys, this.altEntrys, this.crcs := mainEntrys, altEntrys, crcs;
    }

    /** Two tables of the same shape, as read from one disk. */
    ghost predicate Valid()
      reads this
    {
      && mainEntrys != altEntrys && mainEntrys.Length == altEntrys.Length
      && mainHdr.numberOfEntries == mainEntrys.Length && altHdr.numberOfEntries == altEntrys.Length
      && mainHdr.headerSize != 0 && altHdr.headerSize != 0
      && (cryptoHeader.Some? ==> |cryptoHeader.value| >= 512)
    }

    /** Both copies hold the same entries and pass both checks. */
    ghost predicate InSync()
      reads this, mainEntrys, altEntrys
    {
      && altEntrys[..] == mainEntrys[..]
      && Checked(crcs, mainHdr, mainEntrys[..]) && Checked(crcs, altHdr, altEntrys[..])
    }

    method GptUpdateCRC(hdr: Header, entrys: array<Entry>) returns (ok: bool, r: Header)
      ensures ok <==> hdr.numberOfEntries != 0 && hdr.headerSize != 0
      ensures r == hdr.(entryArrayCrc := r.entryArrayCrc, crc := r.crc)
      ensures ok ==> Checked(crcs, r, entrys[..])
    {
      r := hdr;
      if hdr.numberOfEntries == 0 {
        return false, r;
      }
      r := r.(entryArrayCrc := crcs.entries(entrys[..]));
      r := r.(crc := 0);
      if hdr.headerSize == 0 {
        return false, r;
      }
      r := r.(crc := crcs.header(r));
      ok := true;
    }

    method GptSyncMainAlt() returns (ok: bool)
      requires Valid()
      modifies `mainHdr, `altHdr, altEntrys
      ensures Valid() && mainEntrys[..] == old(mainEntrys[..]) && altEntrys[..] == mainEntrys[..]
      ensures ok <==> mainEntrys.Length > 0
      ensures ok ==> InSync()
    {
      forall k | 0 <= k < altEntrys.Length {
        altEntrys[k] := mainEntrys[k];
      }
      assert altEntrys[..] == mainEntrys[..];
      ok, mainHdr := GptUpdateCRC(mainHdr, mainEntrys);
      if !ok {
        return;
      }
      // the status of the second update is dropped
      var _, r := GptUpdateCRC(altHdr, altEntrys);
      altHdr := r;
    }

    /** The loop of GptHideParts. */
    method HideOverlaps(part: Entry)
      modifies mainEntrys
      ensures mainEntrys[..] == Hidden(old(mainEntrys[..]), part)
      ensures Ordered(old(mainEntrys[..])) && part.startingLba <= part.endingLba ==>
        HiddenInSectors(old(mainEntrys[..]), mainEntrys[..], part)
    {
      ghost var was := mainEntrys[..];
      var hidden := false;
      for n := 0 to mainEntrys.Length
        invariant forall k :: 0 <= k < n ==> mainEntrys[k] == HiddenAt(was, part, k)
        invariant forall k :: n <= k < mainEntrys.Length ==> mainEntrys[k] == was[k]
        invariant hidden <==> HitBefore(was, part, n)
      {
        if Used(mainEntrys[n]) {
          if IsRegionOverlap(mainEntrys[n].startingLba, mainEntrys[n].endingLba, part.startingLba, part.endingLba) {
            assert Hit(was[n], part);
            if hidden {
              mainEntrys[n] := ZERO_ENTRY;
            } else {
              hidden := true;
              mainEntrys[n] := part;
            }
          }
        }
      }
      assert mainEntrys[..] == Hidden(was, part);
      if Ordered(was) && part.startingLba <= part.endingLba {
        HiddenIsInSectors(was, part);
      }
    }

    /** GptHideParts, for a table that still has a partition when the range is hidden. */
    method GptHideParts(part: Entry)
      requires Valid() && exists k :: 0 <= k < mainEntrys.Length && Used(HiddenAt(mainEntrys[..], part, k))
      modifies this, mainEntrys, altEntrys
      ensures Valid() && InSync()
      ensures var t, n := mainEntrys[..], Prefix(mainEntrys[..]);
        && n > 0 && Packed(t, n) && SortedTo(t, n)
        && Covers(t, part) && Sourced(t, old(mainEntrys[..]), part)
        && (part.startingLba <= part.endingLba ==> OthersApart(t, part))
        && (var s := old(mainEntrys[..]);
            part.startingLba <= part.endingLba && Ordered(s) && GapsSafe(Hidden(s, part)) ==>
              forall x: Entry :: Remains(s, part, x) ==> x in t)
        && Arranged(Squeeze(Hidden(old(mainEntrys[..]), part), 0, 0), t, n)
      ensures cryptoHeader
           == if old(cryptoHeader).None? then None else Some(Zeros(512) + old(cryptoHeader).value[512..])
    {
      hide GapsSafe, Remains, Ordered, OthersApart, Hidden, StablePermutation;
      HideOverlaps(part);
      ghost var h := mainEntrys[..];
      assert exists k :: 0 <= k < |h| && Used(h[k]) by {
        var k :| 0 <= k < |h| && Used(HiddenAt(old(mainEntrys[..]), part, k));
        assert Used(h[k]);
      }
      GptSqueze(mainEntrys);
      ghost var q := mainEntrys[..];
      ghost var n := SqueezePacks(h, 0, 0);
      PrefixUnique(q, n);
      GptSort(mainEntrys);
      HiddenResult(old(mainEntrys[..]), part, mainEntrys[..], n);
      if GapsSafe(Hidden(old(mainEntrys[..]), part)) {
        HidingKeeps(old(mainEntrys[..]), part, mainEntrys[..], n);
      }
      PrefixUnique(mainEntrys[..], n);
      var _ := GptSyncMainAlt();
      if cryptoHeader.Some? {
        cryptoHeader := Some(Zeros(512) + cryptoHeader.value[512..]);
      }
    }
  }
}
