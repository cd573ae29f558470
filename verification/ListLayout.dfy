/** What a saved disk-entry list is, and when it may be trusted, in bytes (BootCommon.h, lines 78-215): the layout with
    its places and constants, without reference to how the list is built or tested. */
module ListLayout {
  import opened Bytes
  import opened TableLayout
  import opened TableSpec
  import opened DeListSpec
  import Tables

  /** The little-endian double word at a place. */
  function LongAt(s: seq<byte>, at: nat): (w: u64)
    requires at + 8 <= |s|
  {
    var lo: int, hi: int := WordAt(s, at), WordAt(s, at + 4);
    lo + 0x1_0000_0000 * hi
  }

  // ---- the file ----

  /** Entry i has this type and this start, and at the place it names, a whole sector, lies the part. */
  predicate Recorded(f: seq<byte>, i: nat, typ: nat, start: nat, part: seq<byte>)
    requires |f| >= 1024 && i < 15
  {
    var entry := 544 + 32 * i;
    var at := WordAt(f, entry + 4);
    && WordAt(f, entry) == typ && at % 512 == 0 && LongAt(f, entry + 16) == start && LongAt(f, entry + 24) == |part|
    && at + |part| <= |f| && f[at..at + |part|] == part
  }

  /** Entry i records the part, or there is none and it is zero. */
  predicate RecordedIf(f: seq<byte>, i: nat, typ: nat, start: nat, part: Part)
    requires |f| >= 1024 && i < 15
  {
    if part.Some? then Recorded(f, i, typ, start, part.value)
    else forall k :: 544 + 32 * i <= k < 576 + 32 * i ==> f[k] == 0
  }

  /** A table's header and entries, in entries h and h + 1, with the bytes of the disk they belong to. */
  predicate TableRecorded(f: seq<byte>, h: nat, g: Option<Gpt>)
    requires |f| >= 1024 && h < 14
  {
    if g.Some? then
      && Recorded(f, h, 1, LongAt(g.value.hdr, 24) * 512 % 0x1_0000_0000_0000_0000, g.value.hdr)
      && Recorded(f, h + 1, 1, LongAt(g.value.hdr, 72) * 512 % 0x1_0000_0000_0000_0000, g.value.entrys)
    else RecordedIf(f, h, 1, 0, None) && RecordedIf(f, h + 1, 1, 0, None)
  }

  /** "DCSDELST", no revision, 512 bytes, their CRC, ten entries, and the length of the file. */
  predicate ListHeaderRight(crc: seq<byte> -> u32, f: seq<byte>)
    requires |f| >= 1024
  {
    && f[512..520] == [0x44, 0x43, 0x53, 0x44, 0x45, 0x4C, 0x53, 0x54]
    && WordAt(f, 520) == 0 && WordAt(f, 524) == 512 && WordAt(f, 528) == crc(Zeroed(f[512..1024]))
    && WordAt(f, 532) == 0 && WordAt(f, 536) == 10 && WordAt(f, 540) == |f|
  }

  /** The file saved for these parts. */
  predicate SavedRight(crc: seq<byte> -> u32, c: Components, f: seq<byte>)
    requires c.cryptoHeader.Some?
  {
    && |f| >= 1024 && f[..512] == c.cryptoHeader.value && ListHeaderRight(crc, f)
    && Recorded(f, 0, 1, 31744, c.cryptoHeader.value) && Recorded(f, 1, 2, 0, f[512..1024])
    && f[608..640] == c.diskId
    && TableRecorded(f, 3, c.main) && TableRecorded(f, 5, c.alt)
    && RecordedIf(f, 7, 4, 0, c.exec) && RecordedIf(f, 8, 5, 0, c.pwdCache) && RecordedIf(f, 9, 6, 0, c.rnd)
  }

  lemma WordOfSlice(s: seq<byte>, at: nat, n: nat, k: nat)
    requires at + n <= |s| && k + 4 <= n
    ensures WordAt(s[at..at + n], k) == WordAt(s, at + k) == U32At(s[at..at + n], k)
  {
    WordIsLe(s[at..at + n], k);
  }

  lemma LongIsLe(s: seq<byte>, at: nat)
    requires at + 8 <= |s|
    ensures U64At(s, at) == LongAt(s, at)
  {
    hide FromLe32, WordAt;
    var b := s[at..at + 8];
    assert b[..4] == s[at..at + 4] && b[4..] == s[at + 4..at + 8];
    WordIsLe(s, at);
    WordIsLe(s, at + 4);
  }

  lemma LongOfSlice(s: seq<byte>, at: nat, n: nat, k: nat)
    requires at + n <= |s| && k + 8 <= n
    ensures LongAt(s[at..at + n], k) == LongAt(s, at + k) == U64At(s[at..at + n], k)
  {
    hide WordAt, U32At, U64At;
    WordOfSlice(s, at, n, k);
    WordOfSlice(s, at, n, k + 4);
    LongIsLe(s[at..at + n], k);
  }

  /** An entry, in bytes of the file. */
  lemma EntryInBytes(f: seq<byte>, i: nat)
    requires |f| >= 1024 && i < 15
    ensures Listed(f, i).typ == WordAt(f, 544 + 32 * i) && Listed(f, i).offset == WordAt(f, 548 + 32 * i)
    ensures Listed(f, i).start == LongAt(f, 560 + 32 * i) && Listed(f, i).length == LongAt(f, 568 + 32 * i)
  {
    hide WordAt, LongAt, U32At, U64At;
    var entry := 544 + 32 * i;
    WordOfSlice(f, entry, 32, 0);
    WordOfSlice(f, entry, 32, 4);
    LongOfSlice(f, entry, 32, 16);
    LongOfSlice(f, entry, 32, 24);
  }

  lemma PartRecorded(crc: Crc32, c: Components, i: nat)
    requires c.Complete() && i < TOTAL && i != DISK_ID && i != LIST
    ensures |SavedFile(crc, c)| >= 1024
    ensures RecordedIf(SavedFile(crc, c), i, TypeOf(i), StartOf(c, i), Shape(c)[i])
  {
    hide SavedFile, Listed, Shape, Position, TypeOf, StartOf, WordAt, LongAt, U64At, U32At, RawAt;
    ItemSaved(crc, c, i);
    PartSaved(crc, c, i);
    EntryInBytes(SavedFile(crc, c), i);
    Aligned(Shape(c), i);
    if Shape(c)[i].None? {
      EmptyEntry(crc, c, i);
    } else {
      var f, part := SavedFile(crc, c), Shape(c)[i].value;
      assert ItemAt(c, i) == Item(TypeOf(i), Position(Shape(c), i), StartOf(c, i), |part|);
      assert f[Position(Shape(c), i)..Position(Shape(c), i) + |part|] == part;
    }
  }

  lemma EmptyEntry(crc: Crc32, c: Components, i: nat)
    requires c.Complete() && i < TOTAL && i != DISK_ID && Shape(c)[i].None?
    ensures |SavedFile(crc, c)| >= 1024
    ensures forall k :: 544 + 32 * i <= k < 576 + 32 * i ==> SavedFile(crc, c)[k] == 0
  {
    hide SavedFile, Shape, Position;
    EntrySaved(crc, c, i);
    var raw := NO_ITEM.Encoded();
    forall k | 544 + 32 * i <= k < 576 + 32 * i ensures SavedFile(crc, c)[k] == 0 {
      assert RawAt(SavedFile(crc, c), i)[k - 544 - 32 * i] == raw[k - 544 - 32 * i] == 0;
    }
  }

  lemma ListRecorded(crc: Crc32, c: Components)
    requires c.Complete()
    ensures |SavedFile(crc, c)| >= 1024
    ensures Recorded(SavedFile(crc, c), 1, 2, 0, SavedFile(crc, c)[512..1024])
  {
    hide SavedFile, Listed, Shape, Position, WordAt, LongAt, U64At, U32At;
    ItemSaved(crc, c, LIST);
    ListInFile(crc, c);
    ShapeOfParts(crc, c, LIST);
    EntryInBytes(SavedFile(crc, c), LIST);
    ListItem(c);
  }

  lemma ListItem(c: Components)
    requires c.Complete() && Position(Shape(c), 1) == 512
    ensures ItemAt(c, LIST) == Item(2, 512, 0, 512)
  {
    hide Position;
  }

  lemma ListWords(de: seq<Raw32>, dataSize: u32, crc: u32)
    requires |de| == 15
    ensures var l := ListBlock(de, dataSize, crc);
      && l[..8] == [0x44, 0x43, 0x53, 0x44, 0x45, 0x4C, 0x53, 0x54] && WordAt(l, 8) == 0 && WordAt(l, 12) == 512
      && WordAt(l, 16) == crc && WordAt(l, 20) == 0 && WordAt(l, 24) == 10 && WordAt(l, 28) == dataSize
      && Zeroed(l) == ListBlock(de, dataSize, 0)
  {
    var l, z := ListBlock(de, dataSize, crc), ListBlock(de, dataSize, 0);
    assert l[..8] == LIST_SIGN;
    assert l[12..16] == Le32(512) && l[16..20] == Le32(crc) && l[24..28] == Le32(TOTAL) && l[28..32] == Le32(dataSize);
    hide ListBlock;
    ListZeroed(de, dataSize, crc);
    LeWord(l, 12, 512);
    LeWord(l, 16, crc);
    LeWord(l, 24, TOTAL);
    LeWord(l, 28, dataSize);
  }

  lemma LeWord(s: seq<byte>, at: nat, x: u32)
    requires at + 4 <= |s| && s[at..at + 4] == Le32(x)
    ensures WordAt(s, at) == x
  {
    hide Le32, FromLe32, WordAt;
    Le32RoundTrip(x);
    WordIsLe(s, at);
  }

  lemma ListZeroed(de: seq<Raw32>, dataSize: u32, crc: u32)
    requires |de| == 15
    ensures var l := ListBlock(de, dataSize, crc);
      WordAt(l, 8) == 0 && WordAt(l, 20) == 0 && Zeroed(l) == ListBlock(de, dataSize, 0)
  {
    var l, z := ListBlock(de, dataSize, crc), ListBlock(de, dataSize, 0);
    assert l[..16] == z[..16] && z[16..20] == [0, 0, 0, 0] && l[20..] == z[20..];
    assert z == z[..16] + z[16..20] + z[20..];
  }

  lemma SizeFits(c: Components)
    requires c.Sized()
    ensures Position(Shape(c), TOTAL) < TWO_32
  {
  }

  lemma ListHeaderSaved(crc: Crc32, c: Components)
    requires c.Complete()
    ensures |SavedFile(crc, c)| >= 1024 && ListHeaderRight(crc, SavedFile(crc, c))
  {
    hide SavedFile, Shape, Position, WordAt, Zeroed, ListBlock;
    SizeFits(c);
    var f, size: u32 := SavedFile(crc, c), Position(Shape(c), TOTAL);
    ListInFile(crc, c);
    ListWords(Entries(c), size, crc(ListBlock(Entries(c), size, 0)));
    forall k: nat | k < 32 && k % 4 == 0 ensures WordAt(f[512..1024], k) == WordAt(f, 512 + k) {
      WordOfSlice(f, 512, 512, k);
    }
    SliceOfSlice(f, 512, 512, 0, 8);
  }

  lemma TableIsRecorded(crc: Crc32, c: Components, h: nat, g: Option<Gpt>)
    requires c.Complete() && ((h == 3 && g == c.main) || (h == 5 && g == c.alt))
    ensures |SavedFile(crc, c)| >= 1024 && TableRecorded(SavedFile(crc, c), h, g)
  {
    hide SavedFile, Position, WordAt, LongAt, Recorded, U64At, Components.Sized;
    PartRecorded(crc, c, h);
    PartRecorded(crc, c, h + 1);
    if g.Some? {
      LongIsLe(g.value.hdr, 24);
      LongIsLe(g.value.hdr, 72);
    }
  }

  /** The file is as it should be, byte for byte. */
  lemma FileSavedRight(crc: Crc32, c: Components)
    requires c.Complete()
    ensures SavedRight(crc, c, SavedFile(crc, c))
  {
    hide SavedFile, Position, Recorded, TableRecorded, ListHeaderRight, Components.Sized, EntryRaw;
    ListHeaderSaved(crc, c);
    ListRecorded(crc, c);
    PartRecorded(crc, c, 0);
    DiskIdSaved(crc, c);
    TableIsRecorded(crc, c, 3, c.main);
    TableIsRecorded(crc, c, 5, c.alt);
    PartRecorded(crc, c, 7);
    PartRecorded(crc, c, 8);
    PartRecorded(crc, c, 9);
  }

  lemma DiskIdSaved(crc: Crc32, c: Components)
    requires c.Complete()
    ensures |SavedFile(crc, c)| >= 1024 && SavedFile(crc, c)[..512] == c.cryptoHeader.value
    ensures SavedFile(crc, c)[608..640] == c.diskId
  {
    hide SavedFile, Position, Shape;
    EntrySaved(crc, c, DISK_ID);
  }

  // ---- trust ----

  /** "EFI PART", the CRC of the header, entries of at least 128 bytes. */
  predicate HeaderRight(crc: seq<byte> -> u32, h: seq<byte>)
    requires |h| == 512
  {
    && h[..8] == [0x45, 0x46, 0x49, 0x20, 0x50, 0x41, 0x52, 0x54]
    && ChecksumRight(crc, h, 0, 512) && WordAt(h, 84) >= 128
  }

  /** "PWDCACHE" and the CRC of the block with the CRC itself zeroed. */
  predicate CacheRight(crc: seq<byte> -> u32, b: seq<byte>)
    requires |b| == 512
  {
    && b[..8] == [0x50, 0x57, 0x44, 0x43, 0x41, 0x43, 0x48, 0x45]
    && WordAt(b, 8) == crc(b[..8] + [0, 0, 0, 0] + b[12..])
  }

  /** A table that the parser will take: the header names a place below 2^55 and holds the CRC of the entries. */
  predicate TableRight(crc: seq<byte> -> u32, g: Gpt) {
    && HeaderRight(crc, g.hdr) && LongAt(g.hdr, 24) < 0x80_0000_0000_0000
    && |g.entrys| > 0 && WordAt(g.hdr, 88) == crc(g.entrys)
  }

  predicate PartsRight(crc: seq<byte> -> u32, c: Components) {
    && (c.pwdCache.Some? ==> CacheRight(crc, c.pwdCache.value))
    && (c.main.Some? ==> TableRight(crc, c.main.value)) && (c.alt.Some? ==> TableRight(crc, c.alt.value))
    && (c.main.Some? && c.alt.Some? ==> c.main.value.entrys == c.alt.value.entrys)
  }

  lemma HeaderGoodExactly(crc: Crc32, g: Gpt)
    ensures g.HeaderGood(crc) <==> HeaderRight(crc, g.hdr)
  {
    hide CrcOk, ChecksumRight, WordAt, U32At;
    HeaderReadable(g.hdr);
    Tables.CrcOkExactly(crc, g.hdr, 0, 512);
    WordIsLe(g.hdr, 84);
    WordOfSlice(g.hdr, 0, 512, 84);
    assert g.hdr[0..512] == g.hdr;
  }

  lemma HeaderReadable(h: Block)
    ensures TableSpec.Readable(h, 0, 512)
  {
  }

  lemma CacheGoodExactly(crc: Crc32, b: Block)
    ensures PwdGood(crc, b) <==> CacheRight(crc, b)
  {
    hide WordAt, U32At;
    WordOfSlice(b, 0, 512, 8);
    assert b[0..512] == b;
    assert BlankPwd(b) == b[..8] + [0, 0, 0, 0] + b[12..];
  }

  lemma TableGoodExactly(crc: Crc32, g: Gpt)
    ensures (g.HeaderGood(crc) && g.MyLba() < TWO_64 / 512 && g.ArrayGood(crc)) <==> TableRight(crc, g)
  {
    hide Gpt.HeaderGood, HeaderRight, WordAt, U32At, LongAt, U64At;
    HeaderGoodExactly(crc, g);
    LongIsLe(g.hdr, 24);
    WordOfSlice(g.hdr, 0, 512, 88);
    assert g.hdr[0..512] == g.hdr;
  }

  /** What the parser's checks come to, for parts saved together. */
  lemma GoodExactly(crc: Crc32, c: Components)
    ensures c.Good(crc) <==> PartsRight(crc, c)
  {
    hide PwdGood, CacheRight, TableRight, Gpt.HeaderGood, Gpt.MyLba, Gpt.ArrayGood;
    if c.pwdCache.Some? {
      CacheGoodExactly(crc, c.pwdCache.value);
    }
    if c.main.Some? {
      TableGoodExactly(crc, c.main.value);
    }
    if c.alt.Some? {
      TableGoodExactly(crc, c.alt.value);
    }
  }

  /** A header listed in entry i is right, and says it belongs where it is recorded. */
  predicate HeaderTrusted(crc: seq<byte> -> u32, s: seq<byte>, i: nat)
    requires |s| >= 1024 && i < 15
  {
    WordAt(s, 544 + 32 * i) == 1 ==>
      var at: nat := WordAt(s, 548 + 32 * i);
      at + 512 <= |s| && HeaderRight(crc, s[at..at + 512]) && LongAt(s, 560 + 32 * i) / 512 == LongAt(s, at + 24)
  }

  /** The bytes of the array behind a header at `at`. */
  function ArrayBytes(s: seq<byte>, at: nat): (n: nat)
    requires at + 512 <= |s|
  {
    Product(WordAt(s, at + 80), WordAt(s, at + 84))
  }

  /** The array at `a` has as many bytes as the header at `at` says, at least one, and their CRC is the one in it. */
  predicate ArrayRight(crc: seq<byte> -> u32, s: seq<byte>, at: nat, a: nat) {
    && at + 512 <= |s| && ArrayBytes(s, at) > 0 && a + ArrayBytes(s, at) <= |s|
    && WordAt(s, at + 88) == crc(s[a..a + ArrayBytes(s, at)])
  }

  predicate ArrayTrusted(crc: seq<byte> -> u32, s: seq<byte>, h: nat)
    requires |s| >= 1024 && h < 14
  {
    WordAt(s, 576 + 32 * h) == 1 ==> ArrayRight(crc, s, WordAt(s, 548 + 32 * h), WordAt(s, 580 + 32 * h))
  }

  /** Equal bytes at two places. */
  predicate SameAt(s: seq<byte>, m: nat, a: nat, n: nat) {
    m + n <= |s| && a + n <= |s| && s[m..m + n] == s[a..a + n]
  }

  /** Two arrays listed are equal, as far as 32 bits of the first one's size go. */
  predicate ArraysSame(s: seq<byte>)
    requires |s| >= 1024
  {
    WordAt(s, 672) == 1 && WordAt(s, 736) == 1 ==>
      && WordAt(s, 644) + 512 <= |s|
      && SameAt(s, WordAt(s, 676), WordAt(s, 740), ArrayBytes(s, WordAt(s, 644)) % 0x1_0000_0000)
  }

  /** When a file may be trusted. */
  predicate Trusted(crc: seq<byte> -> u32, s: seq<byte>)
    requires |s| >= 1024
  {
    && (WordAt(s, 832) == 6 ==> LongAt(s, 856) == 512)
    && (WordAt(s, 800) == 5 ==>
          var at: nat := WordAt(s, 804);
          at + 512 <= |s| && CacheRight(crc, s[at..at + 512]))
    && HeaderTrusted(crc, s, 3) && ArrayTrusted(crc, s, 3)
    && HeaderTrusted(crc, s, 5) && ArrayTrusted(crc, s, 5)
    && ArraysSame(s)
  }
}
