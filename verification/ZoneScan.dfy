/** The search of the security region for the zone a password opens (DcsInt.c, lines 681-730). */
module ZoneScan {
  import opened Bytes
  import opened TableSpec
  import opened TableLayout
  import opened Tables

  const ZONE: nat := 0x2_0000

  /** One sector, or whole zones of 128 KiB; and every table header the scan can look at lies in the region. */
  ghost predicate Region(crc: Crc32, d: seq<byte>) {
    && 0 < |d| <= TWO_32 - ZONE && (|d| == 512 || |d| % ZONE == 0)
    && forall off :: 0 <= off < |d| && off % ZONE == 0 ==> StaysInside(crc, d[off..], |d| - off, None)
  }

  /** A valid table container begins here. */
  predicate TablesAt(crc: Crc32, d: seq<byte>, off: nat)
    requires off < |d| && StaysInside(crc, d[off..], |d| - off, None)
  {
    Accepted(crc, d[off..], |d| - off)
  }

  /** The zones a container of this size takes. */
  function ZonesOf(size: nat): nat {
    (size + ZONE - 1) / ZONE
  }

  function Next(crc: Crc32, d: seq<byte>, off: nat): (n: nat)
    requires off < |d| && StaysInside(crc, d[off..], |d| - off, None)
  {
    if TablesAt(crc, d, off) then off + ZONE * ZonesOf(SizeAt(d[off..], 0)) else off + ZONE
  }

  lemma NextAhead(crc: Crc32, d: seq<byte>, off: nat)
    requires Region(crc, d) && off < |d| && off % ZONE == 0
    ensures Next(crc, d, off) >= off + ZONE && Next(crc, d, off) % ZONE == 0
    ensures TablesAt(crc, d, off) ==> 0 < SizeAt(d[off..], 0) <= |d| - off
  {
    hide Region, TablesAt, SizeAt, StaysInside, ZonesOf;
    HereInside(crc, d, off);
    if TablesAt(crc, d, off) {
      SizeInside(crc, d, off);
      ZonesMultiple(off, ZonesOf(SizeAt(d[off..], 0)));
      ZonesPositive(SizeAt(d[off..], 0));
    }
  }

  lemma HereInside(crc: Crc32, d: seq<byte>, off: nat)
    requires Region(crc, d) && off < |d| && off % ZONE == 0
    ensures StaysInside(crc, d[off..], |d| - off, None)
  {
  }

  lemma SizeInside(crc: Crc32, d: seq<byte>, off: nat)
    requires off < |d| && StaysInside(crc, d[off..], |d| - off, None) && TablesAt(crc, d, off)
    ensures |d| - off >= 20 && 0 < SizeAt(d[off..], 0) <= |d| - off
  {
    hide WalkFrom, SizeAt, Blank;
    assert CrcOk(crc, d[off..], 0, |d| - off);
  }

  lemma ZonesPositive(size: nat)
    requires size > 0
    ensures ZonesOf(size) >= 1
  {
  }

  /** The next zone is 128 KiB further, or the first behind a sound container that begins here. */
  lemma NextInBytes(crc: Crc32, d: seq<byte>, off: nat)
    requires off + 512 <= |d| && StaysInside(crc, d[off..], |d| - off, None) && off % 131072 == 0
    ensures var here, next := d[off..], Next(crc, d, off);
      if SoundBytes(crc, here, |here|) then
        next % 131072 == 0 && off + WordAt(here, 12) <= next < off + WordAt(here, 12) + 131072
      else next == off + 131072
  {
    hide Accepted, SoundBytes, WordAt, SizeAt, StaysInside;
    AcceptedExactly(crc, d[off..], |d| - off);
    WordIsLe(d[off..], 12);
    SizeInBytes(d[off..]);
    ZonesMultiple(off, ZonesOf(SizeAt(d[off..], 0)));
  }

  lemma SizeInBytes(s: seq<byte>)
    requires |s| >= 20
    ensures SizeAt(s, 0) == FromLe32(s[12..16])
  {
  }

  lemma ZonesMultiple(off: nat, n: nat)
    requires off % ZONE == 0
    ensures (off + ZONE * n) % ZONE == 0
  {
  }

  /** The zones the scan stops at if no password fits, from one on. */
  ghost function Stops(crc: Crc32, d: seq<byte>, off: nat): (stops: seq<nat>)
    requires Region(crc, d) && off % ZONE == 0
    ensures forall k :: 0 <= k < |stops| ==> off <= stops[k] < |d| && stops[k] % ZONE == 0
    decreases |d| - off
  {
    if off >= |d| then [] else
      NextAhead(crc, d, off);
      [off] + Stops(crc, d, Next(crc, d, off))
  }

  /** ReadVolumeHeader with the password that was typed. */
  type Password = seq<byte> -> bool

  /** A stop whose header the password opens, and which is not a table container. */
  predicate Opens(crc: Crc32, d: seq<byte>, pwd: Password, off: nat)
    requires off + 512 <= |d| && StaysInside(crc, d[off..], |d| - off, None)
  {
    !TablesAt(crc, d, off) && pwd(d[off..off + 512])
  }

  ghost predicate OpensAt(crc: Crc32, d: seq<byte>, pwd: Password, off: nat)
    requires Region(crc, d)
  {
    off < |d| && off % ZONE == 0 && Opens(crc, d, pwd, off)
  }

  /** None of these stops opens. */
  ghost predicate NoneOpens(crc: Crc32, d: seq<byte>, pwd: Password, stops: seq<nat>)
    requires Region(crc, d)
  {
    forall j :: 0 <= j < |stops| ==> !OpensAt(crc, d, pwd, stops[j])
  }

  /** The first of these stops that opens is at `offset`. */
  ghost predicate FirstOpens(crc: Crc32, d: seq<byte>, pwd: Password, stops: seq<nat>, offset: nat)
    requires Region(crc, d)
  {
    OpensAt(crc, d, pwd, offset)
    && exists k :: 0 <= k < |stops| && stops[k] == offset && NoneOpens(crc, d, pwd, stops[..k])
  }

  lemma StopsFrom(crc: Crc32, d: seq<byte>, off: nat)
    requires Region(crc, d) && off % ZONE == 0 && off < |d|
    ensures off + 512 <= |d| && StaysInside(crc, d[off..], |d| - off, None)
    ensures Next(crc, d, off) >= off + ZONE && Next(crc, d, off) % ZONE == 0
    ensures Stops(crc, d, off) == [off] + Stops(crc, d, Next(crc, d, off))
  {
    hide StaysInside, TablesAt, Next;
    NextAhead(crc, d, off);
    HeaderFits(|d|, off);
  }

  lemma HeaderFits(size: nat, off: nat)
    requires off < size && off % ZONE == 0 && (size == 512 || size % ZONE == 0)
    ensures off + 512 <= size
  {
  }

  lemma FoundFirst(crc: Crc32, d: seq<byte>, pwd: Password, passed: seq<nat>, offset: nat, behind: seq<nat>)
    requires Region(crc, d) && OpensAt(crc, d, pwd, offset) && NoneOpens(crc, d, pwd, passed)
    ensures FirstOpens(crc, d, pwd, passed + ([offset] + behind), offset)
  {
    hide Region, Opens;
    var stops := passed + ([offset] + behind);
    assert stops[|passed|] == offset && stops[..|passed|] == passed;
  }

  /** Lines 699-712: the first stop that opens, if there is one. */
  method Scan(crc: Crc32, d: seq<byte>, pwd: Password) returns (found: bool, offset: nat)
    requires Region(crc, d)
    ensures offset % ZONE == 0
    ensures found ==> FirstOpens(crc, d, pwd, Stops(crc, d, 0), offset)
    ensures found ==>
      offset + 512 <= |d| && pwd(d[offset..offset + 512]) && !SoundBytes(crc, d[offset..], |d| - offset)
    ensures !found ==> NoneOpens(crc, d, pwd, Stops(crc, d, 0)) && offset >= |d|
  {
    hide Accepted, StaysInside, SizeAt, Stops, Region, FirstOpens, SoundBytes;
    found, offset := false, 0;
    ghost var passed: seq<nat> := [];
    RegionNotEmpty(crc, d);
    while true
      invariant offset < |d| && offset % ZONE == 0
      invariant Stops(crc, d, 0) == passed + Stops(crc, d, offset)
      invariant NoneOpens(crc, d, pwd, passed)
      decreases |d| - offset
    {
      StopsFrom(crc, d, offset);
      ghost var here := offset;
      ghost var behind := Stops(crc, d, Next(crc, d, here));
      if TablesAt(crc, d, offset) {
        var tblZones := (SizeAt(d[offset..], 0) + ZONE - 1) / ZONE;
        offset := offset + tblZones * ZONE;
      } else {
        if pwd(d[offset..offset + 512]) {
          FoundFirst(crc, d, pwd, passed, offset, behind);
          AcceptedExactly(crc, d[offset..], |d| - offset);
          return true, offset;
        }
        offset := offset + ZONE;
      }
      assert offset == Next(crc, d, here);
      assert Stops(crc, d, 0) == (passed + [here]) + behind;
      passed := passed + [here];
      if offset >= |d| {
        NoStops(crc, d, offset);
        assert passed + [] == passed;
        return false, offset;
      }
    }
  }

  lemma NoStops(crc: Crc32, d: seq<byte>, off: nat)
    requires Region(crc, d) && off % ZONE == 0 && off >= |d|
    ensures Stops(crc, d, off) == []
  {
  }

  lemma RegionNotEmpty(crc: Crc32, d: seq<byte>)
    requires Region(crc, d)
    ensures |d| > 0
  {
  }

  /** No zone is passed over unless it lies in a valid container that begins at a stop. */
  lemma {:induction false} PassedOverLiesInTables(crc: Crc32, d: seq<byte>, off: nat, z: nat) returns (k: nat)
    requires Region(crc, d) && off % ZONE == 0 && z % ZONE == 0 && off <= z < |d|
    ensures k < |Stops(crc, d, off)|
    ensures var s := Stops(crc, d, off)[k];
      s == z || (s < z && TablesAt(crc, d, s) && z < s + SizeAt(d[s..], 0))
    decreases |d| - off
  {
    hide Region, TablesAt, SizeAt, Next, Stops;
    NextAhead(crc, d, off);
    StopsFrom(crc, d, off);
    var next := Next(crc, d, off);
    if z < next {
      k := 0;
      if z != off {
        PassedOver(crc, d, off, z);
      }
    } else {
      var j := PassedOverLiesInTables(crc, d, next, z);
      k := j + 1;
    }
  }

  lemma PassedOver(crc: Crc32, d: seq<byte>, off: nat, z: nat)
    requires Region(crc, d) && off % ZONE == 0 && z % ZONE == 0 && off < z < |d| && z < Next(crc, d, off)
    ensures TablesAt(crc, d, off) && z < off + SizeAt(d[off..], 0)
  {
    if TablesAt(crc, d, off) {
      ZoneInside(off, z, SizeAt(d[off..], 0));
    }
  }

  lemma ZoneInside(off: nat, z: nat, size: nat)
    requires off % ZONE == 0 && z % ZONE == 0 && off < z < off + ZONE * ZonesOf(size)
    ensures z < off + size
  {
  }

  // ---- attempts ----

  datatype Attempt = Cancel | Timeout | Typed(pwd: Password)
  datatype Outcome = Canceled | TimedOut | CrcError | Opened(offset: nat, sector: nat)

  /** A password that opens no zone the scan can stop at. */
  ghost predicate Refused(crc: Crc32, d: seq<byte>, a: Attempt)
    requires Region(crc, d)
  {
    a.Typed? && NoneOpens(crc, d, a.pwd, Stops(crc, d, 0))
  }

  predicate Ended(a: Attempt, r: Outcome) {
    (a.Cancel? && r == Canceled) || (a.Timeout? && r == TimedOut)
  }

  ghost predicate Succeeded(crc: Crc32, d: seq<byte>, a: Attempt, r: Outcome)
    requires Region(crc, d)
  {
    a.Typed? && r.Opened? && FirstOpens(crc, d, a.pwd, Stops(crc, d, 0), r.offset)
    && r.offset % ZONE == 0 && 512 * r.sector == 512 * 62 + r.offset
  }

  /** The most prompts there will be: the loop asks at least once. */
  function Limit(authRetry: int): nat {
    if authRetry > 1 then authRetry else 1
  }

  /** SecRegionTryDecrypt up to line 730: one prompt after the other, until one ends it, opens a zone, or was the
      last. */
  method TryDecrypt(crc: Crc32, d: seq<byte>, attempts: seq<Attempt>, authRetry: int) returns (r: Outcome, tried: nat)
    requires Region(crc, d) && |attempts| >= Limit(authRetry)
    ensures 1 <= tried <= Limit(authRetry)
    ensures forall i :: 0 <= i < tried - 1 ==> Refused(crc, d, attempts[i])
    ensures Ended(attempts[tried - 1], r) || Succeeded(crc, d, attempts[tried - 1], r)
         || (r == CrcError && Refused(crc, d, attempts[tried - 1]) && tried == Limit(authRetry))
  {
    hide *;
    var retry := authRetry;
    tried := 0;
    LimitReached(authRetry, tried);
    while true
      invariant tried < |attempts| && retry == authRetry - tried && (tried > 0 ==> retry > 0)
      invariant forall i :: 0 <= i < tried ==> Refused(crc, d, attempts[i])
      decreases Limit(authRetry) - tried
    {
      LimitReached(authRetry, tried);
      tried := tried + 1;
      r := TryOnce(crc, d, attempts[tried - 1]);
      if r != CrcError {
        return;
      }
      retry := retry - 1;
      if retry <= 0 {
        return;
      }
    }
  }

  lemma LimitReached(authRetry: int, tried: nat)
    requires tried > 0 ==> authRetry > tried
    ensures tried + 1 <= Limit(authRetry)
    ensures authRetry - (tried + 1) <= 0 ==> tried + 1 == Limit(authRetry)
    ensures authRetry - (tried + 1) > 0 ==> tried + 1 < Limit(authRetry)
  {
  }

  lemma SectorOf(offset: nat)
    requires offset % ZONE == 0
    ensures 512 * (62 + offset / 512) == 512 * 62 + offset
  {
    var zones := offset / 131072;
    assert offset == 131072 * zones;
    SectorsOf(offset, 256 * zones);
  }

  lemma SectorsOf(offset: nat, n: nat)
    requires offset == 512 * n
    ensures offset / 512 == n
  {
  }

  lemma Settles(crc: Crc32, d: seq<byte>, a: Attempt, found: bool, offset: nat)
    requires Region(crc, d) && a.Typed? && offset % ZONE == 0
    requires if found then FirstOpens(crc, d, a.pwd, Stops(crc, d, 0), offset)
             else NoneOpens(crc, d, a.pwd, Stops(crc, d, 0))
    ensures if found then Succeeded(crc, d, a, Opened(offset, 62 + offset / 512)) else Refused(crc, d, a)
  {
    hide Region, Stops, FirstOpens, NoneOpens;
    SectorOf(offset);
  }

  method TryOnce(crc: Crc32, d: seq<byte>, a: Attempt) returns (r: Outcome)
    requires Region(crc, d)
    ensures if r == CrcError then Refused(crc, d, a) else Ended(a, r) || Succeeded(crc, d, a, r)
  {
    hide Region, Stops, FirstOpens, NoneOpens, SoundBytes, StaysInside, Succeeded, Refused;
    match a {
      case Cancel => r := Canceled;
      case Timeout => r := TimedOut;
      case Typed(pwd) =>
        var found, offset := Scan(crc, d, pwd);
        Settles(crc, d, a, found, offset);
        r := if found then Opened(offset, 62 + offset / 512) else CrcError;
    }
  }
}
