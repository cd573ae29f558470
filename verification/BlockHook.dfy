/** The hooked block device of the loader and its overlay of saved sectors (DcsInt.c, lines 196-345). */
module BlockHook {
  import opened Bytes
  import opened Volume

  /** A DCS_DISK_ENTRY as far as the overlay looks at it. */
  datatype DiskEntry = Sectors(offset: u32, start: u64, length: u64) | OtherEntry

  function Wrap64(x: int): u64 {
    x % TWO_64
  }

  lemma WrapOnce(x: int)
    ensures -1 <= x ==> Wrap64(x) == (if x < 0 then TWO_64 - 1 else if x < TWO_64 then x else Wrap64(x - TWO_64))
  {
  }

  /** x is one of the `length` places from `start` on. */
  predicate InSpan(x: int, start: int, length: int) {
    start <= x < start + length
  }

  predicate InRange(x: int, first: int, last: int) {
    first <= x <= last
  }

  ghost predicate IsIntersection(start1: int, length1: int, start2: int, end2: int, start: int, length: int) {
    forall x :: InSpan(x, start, length) <==> InSpan(x, start1, length1) && InRange(x, start2, end2)
  }

  lemma Intersection(start1: int, length1: int, start2: int, end2: int, start: int, length: int)
    requires var first := if start1 >= start2 then start1 else start2;
      var end := if start1 + length1 - 1 <= end2 then start1 + length1 else end2 + 1;
      if first < end then start == first && length == end - first else length == 0
    ensures IsIntersection(start1, length1, start2, end2, start, length)
  {
  }

  /** With 64-bit arithmetic as compiled. For a request that is not empty and does not wrap, the exact intersection; an
      empty request at offset 0 wraps around and meets every entry. */
  method GetIntersection(start1: u64, length1: u32, start2: u64, end2: u64)
    returns (intersectStart: u64, intersectLength: u32)
    ensures length1 > 0 && start1 + length1 <= TWO_64 ==>
      IsIntersection(start1, length1, start2, end2, intersectStart, intersectLength)
    ensures length1 > 0 && start1 + length1 <= TWO_64 ==> start1 <= intersectStart && intersectLength <= length1
    ensures intersectLength == 0 ==> intersectStart == start1
    ensures start1 == 0 && length1 == 0 && start2 <= end2 < start2 + TWO_32 - 1 ==>
      intersectStart == start2 && intersectLength == end2 - start2 + 1
  {
    hide IsIntersection, Wrap64;
    WrapOnce(start1 + length1 - 1);
    var end1 := Wrap64(start1 + length1 - 1);
    var intersectEnd: u64 := if end1 <= end2 then end1 else end2;
    intersectStart := if start1 >= start2 then start1 else start2;
    WrapOnce(intersectEnd + 1 - intersectStart);
    intersectLength := if intersectStart > intersectEnd then 0 else Wrap64(intersectEnd + 1 - intersectStart) % TWO_32;
    if intersectLength == 0 {
      intersectStart := start1;
    }
    if length1 > 0 && start1 + length1 <= TWO_64 {
      Intersection(start1, length1, start2, end2, intersectStart, intersectLength);
    }
  }

  /** An entry whose end does not wrap around. */
  predicate Sound(e: DiskEntry) {
    e.Sectors? ==> 0 < e.start + e.length <= TWO_64
  }

  /** Byte p of a request at disk offset x is one the entry stands for. */
  predicate Covers(e: DiskEntry, x: int, p: int) {
    e.Sectors? && e.start <= x + p < e.start + e.length
  }

  /** The entries, and the saved bytes: SecRegionData from SecRegionOffset on. */
  datatype Overlay = Overlay(entries: seq<DiskEntry>, region: seq<byte>) {
    predicate Valid() {
      forall i :: 0 <= i < |entries| ==> Sound(entries[i])
    }

    predicate Reachable(i: int, x: int, p: int)
      requires 0 <= i < |entries|
    {
      Covers(entries[i], x, p) ==> 0 <= entries[i].offset + p < |region|
    }

    /** The byte that entry i supplies: the source is indexed from the start of the request. */
    function Saved(i: int, x: int, p: int): byte
      requires 0 <= i < |entries| && Covers(entries[i], x, p) && Reachable(i, x, p)
    {
      region[entries[i].offset + p]
    }

    /** Every byte that a request of n bytes at disk offset x copies lies in the region. */
    predicate Inside(x: int, n: int) {
      forall i, p :: 0 <= i < |entries| && 0 <= p < n ==> Reachable(i, x, p)
    }

    /** Byte p of a request at disk offset x after the first n entries. */
    function Byte(x: int, p: nat, b: byte, n: nat): byte
      requires n <= |entries| && forall i :: 0 <= i < n ==> Reachable(i, x, p)
    {
      if n == 0 then b
      else if Covers(entries[n - 1], x, p) then Saved(n - 1, x, p)
      else Byte(x, p, b, n - 1)
    }

    function Applied(x: int, buf: seq<byte>): (r: seq<byte>)
      requires Inside(x, |buf|)
      ensures |r| == |buf|
    {
      seq(|buf|, p requires 0 <= p < |buf| => Byte(x, p, buf[p], |entries|))
    }

    predicate Untouched(x: int, p: int, n: nat)
      requires n <= |entries|
    {
      forall i :: 0 <= i < n ==> !Covers(entries[i], x, p)
    }

    /** Entry i is the last that covers the byte. */
    predicate LastAt(i: nat, x: int, p: int, n: nat)
      requires n <= |entries|
    {
      i < n && Covers(entries[i], x, p) && forall j :: i < j < n ==> !Covers(entries[j], x, p)
    }

    /** No byte of the request is overlaid. */
    predicate Clear(x: int, n: int) {
      forall p :: 0 <= p < n ==> Untouched(x, p, |entries|)
    }
  }

  /** Exactly the bytes that some entry covers are replaced, each from the last entry that covers it. */
  lemma {:induction false} OverlaidByte(o: Overlay, x: int, p: nat, b: byte, n: nat)
    requires n <= |o.entries| && forall i :: 0 <= i < n ==> o.Reachable(i, x, p)
    ensures o.Untouched(x, p, n) ==> o.Byte(x, p, b, n) == b
    ensures forall i: nat :: o.LastAt(i, x, p, n) ==> o.Reachable(i, x, p) && o.Byte(x, p, b, n) == o.Saved(i, x, p)
  {
    if n > 0 {
      OverlaidByte(o, x, p, b, n - 1);
      forall i: nat | o.LastAt(i, x, p, n)
        ensures o.Reachable(i, x, p) && o.Byte(x, p, b, n) == o.Saved(i, x, p)
      {
        assert i < n - 1 ==> o.LastAt(i, x, p, n - 1);
      }
    }
  }

  lemma ClearUntouched(o: Overlay, x: int, buf: seq<byte>)
    requires o.Clear(x, |buf|)
    ensures o.Inside(x, |buf|) && o.Applied(x, buf) == buf
  {
    forall i, p | 0 <= i < |o.entries| && 0 <= p < |buf| ensures o.Reachable(i, x, p) {
      assert o.Untouched(x, p, |o.entries|);
    }
    forall p | 0 <= p < |buf| ensures o.Applied(x, buf)[p] == buf[p] {
      assert o.Untouched(x, p, |o.entries|);
      OverlaidByte(o, x, p, buf[p], |o.entries|);
    }
  }

  /** Where the region holds disk byte x + p of entry e. */
  function Home(e: DiskEntry, x: int, p: int): int
    requires e.Sectors?
  {
    e.offset + (x + p - e.start)
  }

  /** The byte of the request is the one saved for it. */
  predicate ReadsHome(o: Overlay, x: int, p: nat, b: byte, i: nat)
    requires i < |o.entries| && o.entries[i].Sectors?
  {
    && (forall j :: 0 <= j < |o.entries| ==> o.Reachable(j, x, p)) && 0 <= Home(o.entries[i], x, p) < |o.region|
    && o.Byte(x, p, b, |o.entries|) == o.region[Home(o.entries[i], x, p)]
  }

  /** A byte of the request is replaced by one as far from the one saved for it as the two starts are; so it is the
      right one, whatever was saved, exactly when the request starts where the entry does. */
  lemma HomeExactly(o: Overlay, x: int, p: nat, b: byte, i: nat)
    requires o.LastAt(i, x, p, |o.entries|) && forall j :: 0 <= j < |o.entries| ==> o.Reachable(j, x, p)
    requires 0 <= Home(o.entries[i], x, p) < |o.region|
    ensures 0 <= Home(o.entries[i], x, p) + (o.entries[i].start - x) < |o.region|
    ensures o.Byte(x, p, b, |o.entries|) == o.region[Home(o.entries[i], x, p) + (o.entries[i].start - x)]
    ensures (forall region: seq<byte> :: |region| == |o.region| ==> ReadsHome(o.(region := region), x, p, b, i))
       <==> x == o.entries[i].start
  {
    var home := Home(o.entries[i], x, p);
    LastSupplies(o, o.region, x, p, b, i);
    if x == o.entries[i].start {
      forall region: seq<byte> | |region| == |o.region| ensures ReadsHome(o.(region := region), x, p, b, i) {
        LastSupplies(o, region, x, p, b, i);
      }
    } else {
      var region: seq<byte> := Zeros(|o.region|)[home := 1];
      LastSupplies(o, region, x, p, b, i);
      assert |region| == |o.region| && !ReadsHome(o.(region := region), x, p, b, i);
    }
  }

  lemma LastSupplies(o: Overlay, region: seq<byte>, x: int, p: nat, b: byte, i: nat)
    requires o.LastAt(i, x, p, |o.entries|) && |region| == |o.region|
    requires forall j :: 0 <= j < |o.entries| ==> o.Reachable(j, x, p)
    ensures var r := o.(region := region);
      && (forall j :: 0 <= j < |r.entries| ==> r.Reachable(j, x, p)) && 0 <= o.entries[i].offset + p < |region|
      && r.Byte(x, p, b, |r.entries|) == region[o.entries[i].offset + p]
  {
    var r := o.(region := region);
    forall j | 0 <= j < |r.entries| ensures r.Reachable(j, x, p) {
      assert o.Reachable(j, x, p);
    }
    assert r.LastAt(i, x, p, |r.entries|);
    OverlaidByte(r, x, p, b, |r.entries|);
  }

  /** Sector 9 of a saved run that starts at sector 8 is read back as the saved sector 8. */
  lemma OverlayShifts(first: Sector, second: Sector)
    requires first != second
    ensures var o := Overlay([Sectors(0, 8 * 512, 1024)], first + second);
      o.Inside(9 * 512, 512) && o.Applied(9 * 512, second) == first != second
  {
    var o := Overlay([Sectors(0, 8 * 512, 1024)], first + second);
    assert o.Inside(9 * 512, 512);
    forall p | 0 <= p < 512 ensures o.Applied(9 * 512, second)[p] == first[p] {
      assert o.LastAt(0, 9 * 512, p, 1);
      OverlaidByte(o, 9 * 512, p, second[p], 1);
    }
  }

  /** One turn of the loop in UpdateDataBuffer. */
  method OverlayEntry(buf: array<byte>, start: u64, o: Overlay, i: nat)
    requires i < |o.entries| && Sound(o.entries[i]) && 0 < buf.Length < TWO_32 && start + buf.Length <= TWO_64
    requires forall p :: 0 <= p < buf.Length ==> o.Reachable(i, start, p)
    modifies buf
    ensures forall p :: 0 <= p < buf.Length ==>
      o.Reachable(i, start, p) && buf[p] == if Covers(o.entries[i], start, p) then o.Saved(i, start, p) else old(buf[p])
  {
    var e := o.entries[i];
    if e.Sectors? {
      var last := Wrap64(e.start + e.length - 1);
      var intersectStart, intersectLength := GetIntersection(start, buf.Length, e.start, last);
      forall p | 0 <= p < buf.Length
        ensures Covers(e, start, p) <==> InSpan(start + p, intersectStart, intersectLength)
      {
        assert InSpan(start + p, start, buf.Length);
        assert InSpan(start + p, intersectStart, intersectLength) <==> InRange(start + p, e.start, last);
      }
      if intersectLength != 0 {
        assert InSpan(intersectStart + intersectLength - 1, intersectStart, intersectLength);
        assert InSpan(intersectStart + intersectLength - 1, start, buf.Length);
        var at := intersectStart - start;
        assert forall p :: at <= p < at + intersectLength ==> Covers(e, start, p) && o.Reachable(i, start, p);
        forall p | at <= p < at + intersectLength {
          buf[p] := o.Saved(i, start, p);
        }
      }
    }
  }

  /** UpdateDataBuffer, for a request within the 64-bit range whose saved bytes lie in the region. */
  method UpdateDataBuffer(buf: array<byte>, sector: u64, o: Overlay)
    requires 0 < buf.Length < TWO_32 && 512 * sector + buf.Length <= TWO_64
    requires o.Valid() && o.Inside(512 * sector, buf.Length)
    modifies buf
    ensures buf[..] == o.Applied(512 * sector, old(buf[..]))
  {
    ghost var was := buf[..];
    var start := Wrap64(512 * sector);
    for i := 0 to |o.entries|
      invariant forall p :: 0 <= p < buf.Length ==> buf[p] == o.Byte(start, p, was[p], i)
    {
      OverlayEntry(buf, start, o, i);
    }
    assert buf[..] == o.Applied(512 * sector, was);
  }

  // ---- the device ----

  /** A buffer of sectors as bytes, and back. */
  function Flat(buf: seq<Sector>): (b: seq<byte>)
    ensures |b| == 512 * |buf|
  {
    seq(512 * |buf|, i requires 0 <= i < 512 * |buf| => buf[i / 512][i % 512])
  }

  function Units(b: seq<byte>): (buf: seq<Sector>)
    requires |b| % 512 == 0
    ensures |buf| == |b| / 512
  {
    seq(|b| / 512, k requires 0 <= k < |b| / 512 => UnitAt(b, k))
  }

  function UnitAt(b: seq<byte>, k: nat): Sector
    requires 512 * k + 512 <= |b|
  {
    b[512 * k..512 * k + 512]
  }

  lemma UnitsFlat(buf: seq<Sector>)
    ensures Units(Flat(buf)) == buf
  {
    forall k | 0 <= k < |buf| ensures Units(Flat(buf))[k] == buf[k] {
      forall i | 0 <= i < 512 ensures UnitAt(Flat(buf), k)[i] == buf[k][i] {
        assert (512 * k + i) / 512 == k && (512 * k + i) % 512 == i;
      }
    }
  }

  /** What the loader knows of the encrypted volume; all in bytes. */
  datatype Crypto = Crypto(cipher: Cipher, areaStart: u64, areaLength: u64, authBoot: bool) {
    predicate InArea(sector: int) {
      areaStart / 512 <= sector < (areaStart + areaLength) / 512
    }

    /** The sector that a request for `lba` is about. */
    function Sector(lba: nat): nat {
      lba + if authBoot then 0 else areaStart / 512
    }

    /** The sectors all lie in the area, or all outside. */
    predicate Whole(first: nat, count: nat) {
      forall k :: first <= k < first + count ==> (InArea(k) <==> InArea(first))
    }

    function PlainAt(k: nat, s: Volume.Sector): Volume.Sector {
      if InArea(k) then cipher.dec(k, s) else s
    }

    /** The disk as a device without encryption would hold it. */
    function Plain(disk: seq<Volume.Sector>): (p: seq<Volume.Sector>)
      ensures |p| == |disk|
    {
      seq(|disk|, k requires 0 <= k < |disk| => PlainAt(k, disk[k]))
    }
  }

  // ---- the same without reference to how the device computes it ----

  /** The disk sector that block 0 is: counted from the encrypted area, unless the boot is authenticated. */
  function Origin(c: Crypto): nat {
    if c.authBoot then 0 else c.areaStart / 512
  }

  /** A sector as a reader sees it. */
  function Opened(c: Crypto, k: nat, s: Sector): Sector {
    if c.areaStart / 512 <= k < (c.areaStart + c.areaLength) / 512 then c.cipher.dec(k, s) else s
  }

  /** A sector as it is stored. */
  function Closed(c: Crypto, k: nat, s: Sector): Sector {
    if c.areaStart / 512 <= k < (c.areaStart + c.areaLength) / 512 then c.cipher.enc(k, s) else s
  }

  /** p is what a reader sees of the disk. */
  predicate IsPlain(c: Crypto, disk: seq<Sector>, p: seq<Sector>) {
    |p| == |disk| && forall k :: 0 <= k < |disk| ==> p[k] == Opened(c, k, disk[k])
  }

  /** Block i of the buffer is disk sector lba + i, counted from the origin, as a reader sees it. */
  predicate ReadInPlace(c: Crypto, disk: seq<Sector>, lba: nat, buf: seq<Sector>) {
    && Origin(c) + lba + |buf| <= |disk|
    && forall i :: 0 <= i < |buf| ==> buf[i] == Opened(c, Origin(c) + lba + i, disk[Origin(c) + lba + i])
  }

  /** Those sectors are written, encrypted where they belong to the area, and no others. */
  predicate WrittenInPlace(c: Crypto, was: seq<Sector>, now: seq<Sector>, lba: nat, data: seq<Sector>) {
    var first := Origin(c) + lba;
    && first + |data| <= |was| == |now|
    && (forall k :: 0 <= k < |was| && !(first <= k < first + |data|) ==> now[k] == was[k])
    && forall k :: first <= k < first + |data| ==> now[k] == Closed(c, k, data[k - first])
  }

  lemma PlainExactly(c: Crypto, disk: seq<Sector>)
    ensures IsPlain(c, disk, c.Plain(disk))
    ensures c.cipher.Valid() ==> forall k :: 0 <= k < |disk| ==> disk[k] == Closed(c, k, c.Plain(disk)[k])
  {
  }

  lemma PlainInPlace(c: Crypto, disk: seq<Sector>, lba: nat, buf: seq<Sector>)
    requires c.Sector(lba) + |buf| <= |disk| && buf == c.Plain(disk)[c.Sector(lba)..c.Sector(lba) + |buf|]
    ensures ReadInPlace(c, disk, lba, buf)
  {
    PlainExactly(c, disk);
    hide Crypto.Plain, Opened;
    var p, first := c.Plain(disk), c.Sector(lba);
    forall i | 0 <= i < |buf| ensures buf[i] == Opened(c, first + i, disk[first + i]) {
      assert p[first..first + |buf|][i] == p[first + i];
    }
  }

  /** Off the borders, deciding by the first sector is deciding sector by sector. */
  lemma ReadPlain(c: Crypto, disk: seq<Sector>, first: nat, count: nat)
    requires 0 < count && first + count <= |disk| && c.Whole(first, count)
    ensures var raw := disk[first..first + count];
      (if c.InArea(first) then DecryptUnits(c.cipher, first, raw) else raw) == c.Plain(disk)[first..first + count]
  {
  }

  /** A device whose ReadBlocks and WriteBlocks have been replaced. */
  class HookedDevice {
    var sectors: seq<Sector>
    const crypto: Crypto
    const overlay: Overlay

    constructor (sectors: seq<Sector>, crypto: Crypto, overlay: Overlay)
      ensures this.sectors == sectors && this.crypto == crypto && this.overlay == overlay
    {
      this.sectors, this.crypto, this.overlay := sectors, crypto, overlay;
    }

    ghost predicate Valid()
      reads this
    {
      && crypto.cipher.Valid() && crypto.areaStart + crypto.areaLength < TWO_64
      && overlay.Valid() && 512 * |sectors| < TWO_64
    }

    /** A request that is not empty, stays on the disk and in 32 bits, and copies nothing from outside the region. */
    predicate Fits(lba: nat, count: nat)
      reads this
    {
      && 0 < 512 * count < TWO_32 && crypto.Sector(lba) + count <= |sectors|
      && overlay.Inside(512 * crypto.Sector(lba), 512 * count)
    }

    /** A request clear of the saved sectors, and on one side of the borders of the encrypted area. */
    predicate Proper(lba: nat, count: nat)
      reads this
    {
      && Fits(lba, count)
      && crypto.Whole(crypto.Sector(lba), count) && overlay.Clear(512 * crypto.Sector(lba), 512 * count)
    }

    /** The overlay on a buffer of sectors. */
    method UpdateSectors(buf: seq<Sector>, sector: nat) returns (r: seq<Sector>)
      requires overlay.Valid() && 0 < 512 * |buf| < TWO_32 && 512 * (sector + |buf|) < TWO_64
      requires overlay.Inside(512 * sector, 512 * |buf|)
      ensures r == Units(overlay.Applied(512 * sector, Flat(buf)))
      ensures overlay.Clear(512 * sector, 512 * |buf|) ==> r == buf
    {
      var flat := Flat(buf);
      var bytes := new byte[|flat|](i requires 0 <= i < |flat| => flat[i]);
      assert bytes[..] == flat;
      UpdateDataBuffer(bytes, sector, overlay);
      r := Units(bytes[..]);
      UnitsFlat(buf);
      if overlay.Clear(512 * sector, 512 * |buf|) {
        ClearUntouched(overlay, 512 * sector, flat);
      }
    }

    /** IntBlockIO_Read: whether to decrypt is decided by the first sector alone. */
    method Read(lba: nat, count: nat) returns (buf: seq<Sector>)
      requires Valid() && Fits(lba, count)
      ensures var first := crypto.Sector(lba); var raw := sectors[first..first + count];
        && |buf| == count
        && (var clear := if crypto.InArea(first) then DecryptUnits(crypto.cipher, first, raw) else raw;
            buf == Units(overlay.Applied(512 * first, Flat(clear))))
        && (Proper(lba, count) ==> buf == crypto.Plain(sectors)[first..first + count])
      ensures Proper(lba, count) ==> ReadInPlace(crypto, sectors, lba, buf)
    {
      hide Overlay.Applied, Overlay.Inside, Overlay.Clear, Overlay.Valid, Flat, Units, Crypto.Plain, Crypto.Whole,
           ReadInPlace;
      var startSector := Wrap64(lba + if crypto.authBoot then 0 else crypto.areaStart / 512);
      var inside := crypto.areaStart / 512 <= startSector < (crypto.areaStart + crypto.areaLength) / 512;
      assert startSector == crypto.Sector(lba) && inside == crypto.InArea(startSector);
      hide Crypto.Sector, Crypto.InArea, DecryptUnits;
      buf := sectors[startSector..startSector + count];
      if inside {
        buf := DecryptUnits(crypto.cipher, startSector, buf);
      }
      if Proper(lba, count) {
        ReadPlain(crypto, sectors, startSector, count);
      }
      buf := UpdateSectors(buf, startSector);
      if Proper(lba, count) {
        PlainInPlace(crypto, sectors, lba, buf);
      }
    }

    /** IntBlockIO_Write. */
    method Write(lba: nat, data: seq<Sector>)
      requires Valid() && Fits(lba, |data|)
      modifies this
      ensures Valid()
      ensures var first := crypto.Sector(lba);
        sectors == Splice(old(sectors), first,
                          if crypto.InArea(first)
                          then EncryptUnits(crypto.cipher, first, Units(overlay.Applied(512 * first, Flat(data))))
                          else data)
      ensures old(Proper(lba, |data|)) ==>
        crypto.Plain(sectors) == Splice(old(crypto.Plain(sectors)), crypto.Sector(lba), data)
      ensures old(Proper(lba, |data|)) ==> WrittenInPlace(crypto, old(sectors), sectors, lba, data)
    {
      hide Overlay.Applied, Overlay.Inside, Overlay.Clear, Overlay.Valid, Flat, Units, Crypto.Plain, Crypto.Whole,
           Splice, WrittenInPlace;
      var startSector := Wrap64(lba + if crypto.authBoot then 0 else crypto.areaStart / 512);
      assert startSector == crypto.Sector(lba);
      ghost var was := sectors;
      if crypto.areaStart / 512 <= startSector < (crypto.areaStart + crypto.areaLength) / 512 {
        var writeCrypted := UpdateSectors(data, startSector);
        ghost var kept := writeCrypted;
        writeCrypted := EncryptUnits(crypto.cipher, startSector, writeCrypted);
        sectors := Splice(sectors, startSector, writeCrypted);
        if old(Proper(lba, |data|)) {
          assert kept == data;
          WrittenPlain(crypto, was, startSector, data, writeCrypted);
          WrittenSectors(crypto, was, lba, data, writeCrypted);
        }
      } else {
        sectors := Splice(sectors, startSector, data);
        if old(Proper(lba, |data|)) {
          WrittenPlain(crypto, was, startSector, data, data);
          WrittenSectors(crypto, was, lba, data, data);
        }
      }
    }
  }

  lemma SplicedAt(disk: seq<Sector>, first: nat, data: seq<Sector>, k: nat)
    requires first + |data| <= |disk| && k < |disk|
    ensures Splice(disk, first, data)[k] == if first <= k < first + |data| then data[k - first] else disk[k]
  {
  }

  /** Writing what reads back as `data` is writing `data`, as far as a reader can see. */
  lemma WrittenPlain(c: Crypto, disk: seq<Sector>, first: nat, data: seq<Sector>, stored: seq<Sector>)
    requires c.cipher.Valid() && first + |data| <= |disk| && c.Whole(first, |data|)
    requires stored == if c.InArea(first) then EncryptUnits(c.cipher, first, data) else data
    ensures c.Plain(Splice(disk, first, stored)) == Splice(c.Plain(disk), first, data)
  {
    hide Splice, Crypto.InArea;
    var now, want := Splice(disk, first, stored), Splice(c.Plain(disk), first, data);
    forall k | 0 <= k < |disk| ensures c.Plain(now)[k] == want[k] {
      SplicedAt(disk, first, stored, k);
      SplicedAt(c.Plain(disk), first, data, k);
    }
    assert c.Plain(now) == want;
  }

  lemma WrittenSectors(c: Crypto, disk: seq<Sector>, lba: nat, data: seq<Sector>, stored: seq<Sector>)
    requires c.Sector(lba) + |data| <= |disk| && c.Whole(c.Sector(lba), |data|)
    requires stored == if c.InArea(c.Sector(lba)) then EncryptUnits(c.cipher, c.Sector(lba), data) else data
    ensures WrittenInPlace(c, disk, Splice(disk, c.Sector(lba), stored), lba, data)
  {
    hide Splice;
    var first := c.Sector(lba);
    var now := Splice(disk, first, stored);
    forall k | 0 <= k < |disk|
      ensures now[k] == if first <= k < first + |data| then stored[k - first] else disk[k]
    {
      SplicedAt(disk, first, stored, k);
    }
    hide Closed;
    forall k | first <= k < first + |data| ensures now[k] == Closed(c, k, data[k - first]) {
      StoredUnit(c, first, data, stored, k - first);
    }
  }

  lemma StoredUnit(c: Crypto, first: nat, data: seq<Sector>, stored: seq<Sector>, k: nat)
    requires c.Whole(first, |data|) && k < |data|
    requires stored == if c.InArea(first) then EncryptUnits(c.cipher, first, data) else data
    ensures stored[k] == Closed(c, first + k, data[k])
  {
    assert c.InArea(first + k) <==> c.InArea(first);
  }

  predicate SameSide(c: Crypto, first: nat, k: nat) {
    c.InArea(first + k) == c.InArea(first)
  }

  /** A request across a border of the area comes out right exactly when decryption happens to fix the sectors on the
      far side; where the cipher moves every sector of the request, exactly when it crosses no border. */
  lemma StraddlingExactly(c: Crypto, disk: seq<Sector>, first: nat, count: nat)
    requires first + count <= |disk|
    ensures var raw := disk[first..first + count];
      var buf := if c.InArea(first) then DecryptUnits(c.cipher, first, raw) else raw;
      && (buf == c.Plain(disk)[first..first + count]
          <==> forall k: nat :: k < count && !SameSide(c, first, k) ==> c.cipher.dec(first + k, raw[k]) == raw[k])
      && ((forall k: nat :: k < count ==> c.cipher.dec(first + k, raw[k]) != raw[k]) ==>
            (buf == c.Plain(disk)[first..first + count] <==> c.Whole(first, count)))
  {
    var raw := disk[first..first + count];
    var buf := if c.InArea(first) then DecryptUnits(c.cipher, first, raw) else raw;
    var plain := c.Plain(disk)[first..first + count];
    forall k: nat | k < count
      ensures buf[k] == plain[k] <==> SameSide(c, first, k) || c.cipher.dec(first + k, raw[k]) == raw[k]
    {
    }
    if forall k: nat :: k < count ==> SameSide(c, first, k) || c.cipher.dec(first + k, raw[k]) == raw[k] {
      assert buf == plain;
    }
    WholeAt(c, first, count);
  }

  lemma WholeAt(c: Crypto, first: nat, count: nat)
    ensures c.Whole(first, count) <==> forall k: nat :: k < count ==> SameSide(c, first, k)
  {
    if c.Whole(first, count) {
      forall k: nat | k < count ensures SameSide(c, first, k) {
        assert c.InArea(first + k) <==> c.InArea(first);
      }
    } else {
      var k :| first <= k < first + count && c.InArea(k) != c.InArea(first);
      assert !SameSide(c, first, k - first);
    }
  }

  // ---- runs ----

  datatype Request = ReadBlocks(lba: nat, count: nat) | WriteBlocks(lba: nat, data: seq<Sector>)

  /** An unencrypted device that serves the same requests, `origin` sectors further on: its sectors, and what the reads
      return. */
  datatype Reference = Reference(disk: seq<Sector>, answers: seq<seq<Sector>>)

  function Serves(origin: nat, disk: seq<Sector>, requests: seq<Request>): (r: Reference)
    requires AllOnDisk(origin, |disk|, requests)
    ensures |r.disk| == |disk|
  {
    if requests == [] then Reference(disk, [])
    else
      assert OnDisk(origin, |disk|, requests[|requests| - 1]);
      ServesOne(origin, Serves(origin, disk, requests[..|requests| - 1]), requests[|requests| - 1])
  }

  function ServesOne(origin: nat, before: Reference, r: Request): (after: Reference)
    requires OnDisk(origin, |before.disk|, r)
    ensures |after.disk| == |before.disk|
  {
    match r
    case ReadBlocks(lba, count) =>
      before.(answers := before.answers + [before.disk[origin + lba..origin + lba + count]])
    case WriteBlocks(lba, data) => before.(disk := Splice(before.disk, origin + lba, data))
  }

  predicate OnDisk(origin: nat, size: nat, r: Request) {
    match r
    case ReadBlocks(lba, count) => origin + lba + count <= size
    case WriteBlocks(lba, data) => origin + lba + |data| <= size
  }

  predicate AllOnDisk(origin: nat, size: nat, requests: seq<Request>) {
    forall i :: 0 <= i < |requests| ==> OnDisk(origin, size, requests[i])
  }

  /** The last plaintext written to sector k, if any. */
  function LastWritten(origin: nat, requests: seq<Request>, k: nat): Option<Sector> {
    if requests == [] then None
    else
      var r := requests[|requests| - 1];
      if r.WriteBlocks? && origin + r.lba <= k < origin + r.lba + |r.data| then Some(r.data[k - (origin + r.lba)])
      else LastWritten(origin, requests[..|requests| - 1], k)
  }

  /** A sector of the reference device holds what was last written to it. */
  lemma {:induction false} HoldsLastWritten(origin: nat, disk: seq<Sector>, requests: seq<Request>, k: nat)
    requires k < |disk| && AllOnDisk(origin, |disk|, requests)
    ensures var w := LastWritten(origin, requests, k);
      Serves(origin, disk, requests).disk[k] == if w.Some? then w.value else disk[k]
    decreases |requests|
  {
    if requests != [] {
      var before := requests[..|requests| - 1];
      HoldsLastWritten(origin, disk, before, k);
      var r := requests[|requests| - 1];
      if r.WriteBlocks? && origin + r.lba <= k < origin + r.lba + |r.data| {
        var first, d := origin + r.lba, Serves(origin, disk, before).disk;
        assert Splice(d, first, r.data)[first..first + |r.data|][k - first] == r.data[k - first];
      }
    }
  }

  function ReadsIn(requests: seq<Request>): nat {
    if requests == [] then 0
    else ReadsIn(requests[..|requests| - 1]) + if requests[|requests| - 1].ReadBlocks? then 1 else 0
  }

  /** If request i is a read, its result holds, sector by sector, what was last written before it. */
  predicate ReadsLast(origin: nat, disk: seq<Sector>, requests: seq<Request>, results: seq<seq<Sector>>, i: nat)
    requires i < |requests| && OnDisk(origin, |disk|, requests[i])
  {
    requests[i].ReadBlocks? ==>
      var n, first := ReadsIn(requests[..i]), origin + requests[i].lba;
      && n < |results| && |results[n]| == requests[i].count
      && forall k :: 0 <= k < requests[i].count ==> results[n][k] == Holds(origin, disk, requests[..i], first + k)
  }

  function Holds(origin: nat, disk: seq<Sector>, requests: seq<Request>, k: nat): Sector
    requires k < |disk|
  {
    var w := LastWritten(origin, requests, k);
    if w.Some? then w.value else disk[k]
  }

  /** Every read of a run returns what was last written before it. */
  lemma {:induction false} EveryReadLast(origin: nat, disk: seq<Sector>, requests: seq<Request>)
    requires AllOnDisk(origin, |disk|, requests)
    ensures |Serves(origin, disk, requests).answers| == ReadsIn(requests)
    ensures forall i :: 0 <= i < |requests| ==>
      ReadsLast(origin, disk, requests, Serves(origin, disk, requests).answers, i)
    decreases |requests|
  {
    if requests != [] {
      var before, last := requests[..|requests| - 1], |requests| - 1;
      EveryReadLast(origin, disk, before);
      var earlier, answers := Serves(origin, disk, before), Serves(origin, disk, requests).answers;
      forall i | 0 <= i < |requests| ensures ReadsLast(origin, disk, requests, answers, i) {
        if i < last {
          ReadLastKept(origin, disk, requests, earlier.answers, answers, i);
        } else if requests[last].ReadBlocks? {
          LastRead(origin, disk, requests);
        }
      }
    }
  }

  lemma ReadLastKept(origin: nat, disk: seq<Sector>, requests: seq<Request>, a: seq<seq<Sector>>, b: seq<seq<Sector>>,
                     i: nat)
    requires i < |requests| - 1 && OnDisk(origin, |disk|, requests[i]) && a <= b
    requires ReadsLast(origin, disk, requests[..|requests| - 1], a, i)
    ensures ReadsLast(origin, disk, requests, b, i)
  {
    assert requests[..|requests| - 1][..i] == requests[..i];
  }

  lemma LastRead(origin: nat, disk: seq<Sector>, requests: seq<Request>)
    requires requests != [] && AllOnDisk(origin, |disk|, requests) && requests[|requests| - 1].ReadBlocks?
    requires |Serves(origin, disk, requests[..|requests| - 1]).answers| == ReadsIn(requests[..|requests| - 1])
    ensures OnDisk(origin, |disk|, requests[|requests| - 1])
    ensures ReadsLast(origin, disk, requests, Serves(origin, disk, requests).answers, |requests| - 1)
  {
    hide *;
    var before, r := requests[..|requests| - 1], requests[|requests| - 1];
    LastOnDisk(origin, |disk|, requests);
    ReadAnswer(origin, disk, requests);
    var got := Slice(origin, disk, before, origin + r.lba, r.count);
    LastIsLast(origin, disk, requests, Serves(origin, disk, before).answers, got);
  }

  lemma Slice(origin: nat, disk: seq<Sector>, requests: seq<Request>, first: nat, count: nat) returns (got: seq<Sector>)
    requires first + count <= |disk| && AllOnDisk(origin, |disk|, requests)
    ensures got == Serves(origin, disk, requests).disk[first..first + count]
    ensures forall k :: 0 <= k < count ==> got[k] == Holds(origin, disk, requests, first + k)
  {
    hide Serves, LastWritten, AllOnDisk;
    var d := Serves(origin, disk, requests).disk;
    got := d[first..first + count];
    forall k | 0 <= k < count ensures got[k] == Holds(origin, disk, requests, first + k) {
      HoldsLastWritten(origin, disk, requests, first + k);
      assert got[k] == d[first + k];
    }
  }

  lemma LastIsLast(origin: nat, disk: seq<Sector>, requests: seq<Request>, earlier: seq<seq<Sector>>, got: seq<Sector>)
    requires requests != [] && OnDisk(origin, |disk|, requests[|requests| - 1]) && requests[|requests| - 1].ReadBlocks?
    requires |earlier| == ReadsIn(requests[..|requests| - 1]) && |got| == requests[|requests| - 1].count
    requires forall k :: 0 <= k < |got| ==>
      got[k] == Holds(origin, disk, requests[..|requests| - 1], origin + requests[|requests| - 1].lba + k)
    ensures ReadsLast(origin, disk, requests, earlier + [got], |requests| - 1)
  {
    hide Holds, ReadsIn;
  }

  lemma LastOnDisk(origin: nat, size: nat, requests: seq<Request>)
    requires requests != [] && AllOnDisk(origin, size, requests)
    ensures AllOnDisk(origin, size, requests[..|requests| - 1]) && OnDisk(origin, size, requests[|requests| - 1])
  {
  }

  lemma ReadAnswer(origin: nat, disk: seq<Sector>, requests: seq<Request>)
    requires requests != [] && AllOnDisk(origin, |disk|, requests)
    requires requests[|requests| - 1].ReadBlocks?
    ensures var before, r := Serves(origin, disk, requests[..|requests| - 1]), requests[|requests| - 1];
      && origin + r.lba + r.count <= |disk|
      && Serves(origin, disk, requests).answers
         == before.answers + [before.disk[origin + r.lba..origin + r.lba + r.count]]
  {
    assert OnDisk(origin, |disk|, requests[|requests| - 1]);
  }

  /** What the whole run reads, and what it leaves, is what the unencrypted device reads and holds: every read returns
      what was last written; and every sector of the area is on the disk encrypted under its own number. */
  method Serve(device: HookedDevice, requests: seq<Request>) returns (results: seq<seq<Sector>>)
    requires device.Valid()
    requires forall i :: 0 <= i < |requests| ==>
      match requests[i]
      case ReadBlocks(lba, count) => device.Proper(lba, count)
      case WriteBlocks(lba, data) => device.Proper(lba, |data|)
    modifies device
    ensures var c, was, now := device.crypto, old(device.sectors), device.sectors;
      var origin := if c.authBoot then 0 else c.areaStart / 512;
      && IsPlain(c, was, c.Plain(was)) && AllOnDisk(origin, |was|, requests)
      && results == Serves(origin, c.Plain(was), requests).answers
      && IsPlain(c, now, Serves(origin, c.Plain(was), requests).disk)
      && (forall k :: 0 <= k < |now| ==> now[k] == Closed(c, k, Serves(origin, c.Plain(was), requests).disk[k]))
      && forall i :: 0 <= i < |requests| ==> ReadsLast(origin, c.Plain(was), requests, results, i)
  {
    hide ReadInPlace, WrittenInPlace, Crypto.Plain, Serves, IsPlain, Closed, ReadsLast, AllOnDisk;
    ghost var c, plain := device.crypto, device.crypto.Plain(device.sectors);
    ghost var origin: nat := if c.authBoot then 0 else c.areaStart / 512;
    PlainExactly(c, device.sectors);
    ProperOnDisk(device, requests, origin);
    results := [];
    NothingServed(origin, plain, requests);
    for i := 0 to |requests|
      invariant device.Valid() && |device.sectors| == |old(device.sectors)|
      invariant AllOnDisk(origin, |plain|, requests) && AllOnDisk(origin, |plain|, requests[..i])
      invariant Serves(origin, plain, requests[..i]) == Reference(c.Plain(device.sectors), results)
    {
      ghost var before := results;
      match requests[i] {
        case ReadBlocks(lba, count) =>
          var buf := device.Read(lba, count);
          results := results + [buf];
        case WriteBlocks(lba, data) =>
          device.Write(lba, data);
      }
      OneServed(origin, plain, requests, i);
    }
    assert requests[..|requests|] == requests;
    PlainExactly(c, device.sectors);
    EveryReadLast(origin, plain, requests);
  }

  lemma NothingServed(origin: nat, disk: seq<Sector>, requests: seq<Request>)
    ensures AllOnDisk(origin, |disk|, requests[..0]) && Serves(origin, disk, requests[..0]) == Reference(disk, [])
  {
    assert requests[..0] == [];
  }

  lemma OneServed(origin: nat, disk: seq<Sector>, requests: seq<Request>, i: nat)
    requires i < |requests| && AllOnDisk(origin, |disk|, requests)
    ensures AllOnDisk(origin, |disk|, requests[..i]) && AllOnDisk(origin, |disk|, requests[..i + 1])
    ensures OnDisk(origin, |disk|, requests[i])
    ensures Serves(origin, disk, requests[..i + 1])
         == ServesOne(origin, Serves(origin, disk, requests[..i]), requests[i])
  {
    hide Serves, ServesOne, OnDisk;
    assert OnDisk(origin, |disk|, requests[i]);
    ServesLast(origin, disk, requests[..i + 1]);
    assert requests[..i + 1][..i] == requests[..i];
  }

  lemma ServesLast(origin: nat, disk: seq<Sector>, requests: seq<Request>)
    requires requests != [] && AllOnDisk(origin, |disk|, requests)
    ensures var before, last := requests[..|requests| - 1], requests[|requests| - 1];
      && AllOnDisk(origin, |disk|, before) && OnDisk(origin, |disk|, last)
      && Serves(origin, disk, requests) == ServesOne(origin, Serves(origin, disk, before), last)
  {
    assert OnDisk(origin, |disk|, requests[|requests| - 1]);
    hide ServesOne, OnDisk;
  }

  lemma ProperOnDisk(device: HookedDevice, requests: seq<Request>, origin: nat)
    requires origin == if device.crypto.authBoot then 0 else device.crypto.areaStart / 512
    requires forall i :: 0 <= i < |requests| ==>
      match requests[i]
      case ReadBlocks(lba, count) => device.Proper(lba, count)
      case WriteBlocks(lba, data) => device.Proper(lba, |data|)
    ensures AllOnDisk(origin, |device.sectors|, requests)
  {
  }
}
