/** The saved disk-entry list as bytes (BootCommon.h, lines 78-215; GptEdit.c, lines 190-423). */
module DeListSpec {
  import opened Bytes
  import opened TableSpec

  type Block = b: seq<byte> | |b| == 512 witness Zeros(512)
  type Raw32 = b: seq<byte> | |b| == 32 witness Zeros(32)

  const LIST: nat := 1
  const DISK_ID: nat := 2
  const MAIN_HDR: nat := 3
  const MAIN_ENTRYS: nat := 4
  const ALT_HDR: nat := 5
  const ALT_ENTRYS: nat := 6
  const EXEC: nat := 7
  const PWD_CACHE: nat := 8
  const RND: nat := 9
  const TOTAL: nat := 10

  const DE_SECTORS: u32 := 1
  const DE_LIST: u32 := 2
  const DE_EXEC_PARAMS: u32 := 4
  const DE_PWD_CACHE: u32 := 5
  const DE_RND: u32 := 6

  /** "DCSDELST", "EFI PART", "PWDCACHE". */
  const LIST_SIGN: seq<byte> := [0x44, 0x43, 0x53, 0x44, 0x45, 0x4C, 0x53, 0x54]
  const GPT_SIGN: seq<byte> := [0x45, 0x46, 0x49, 0x20, 0x50, 0x41, 0x52, 0x54]
  const PWD_SIGN: seq<byte> := [0x50, 0x57, 0x44, 0x43, 0x41, 0x43, 0x48, 0x45]

  /** A DCS_DISK_ENTRY of the list; all but sector entries leave Start at zero. */
  datatype Item = Item(typ: u32, offset: u32, start: u64, length: u64) {
    function Encoded(): (b: Raw32) {
      Le32(typ) + Le32(offset) + Zeros(8) + Le64(start) + Le64(length)
    }
  }

  function ItemOf(b: Raw32): Item {
    Item(U32At(b, 0), U32At(b, 4), U64At(b, 16), U64At(b, 24))
  }

  lemma ItemRoundTrip(i: Item)
    ensures ItemOf(i.Encoded()) == i
  {
    var a, b, c, d, e := Le32(i.typ), Le32(i.offset), Zeros(8), Le64(i.start), Le64(i.length);
    var r := i.Encoded();
    assert r[0..4] == a && r[4..8] == b && r[16..24] == d && r[24..32] == e;
    Le32RoundTrip(i.typ);
    Le32RoundTrip(i.offset);
    Le64RoundTrip(i.start);
    Le64RoundTrip(i.length);
  }

  const NO_ITEM: Item := Item(0, 0, 0, 0)

  // ---- what is saved ----

  function Product(n: nat, size: nat): nat {
    n * size
  }

  /** A GPT header sector and its entry array. */
  datatype Gpt = Gpt(hdr: Block, entrys: seq<byte>) {
    function MyLba(): u64 { U64At(hdr, 24) }
    function EntryLba(): u64 { U64At(hdr, 72) }
    function ArraySize(): nat {
      Product(U32At(hdr, 80), U32At(hdr, 84))
    }

    /** The header checks of the parser, the place recorded for the header apart. */
    predicate HeaderGood(crc: Crc32) {
      hdr[..8] == GPT_SIGN && CrcOk(crc, hdr, 0, 512) && U32At(hdr, 84) >= 128
    }

    /** GptCheckEntryArray. */
    predicate ArrayGood(crc: Crc32) {
      |entrys| != 0 && U32At(hdr, 88) == crc(entrys)
    }
  }

  function BlankPwd(b: Block): Block {
    b[..8] + Zeros(4) + b[12..]
  }

  predicate PwdGood(crc: Crc32, b: Block) {
    b[..8] == PWD_SIGN && U32At(b, 8) == crc(BlankPwd(b))
  }

  /** DeCryptoHeader, DeDiskId and the optional globals. */
  datatype Components = Components(cryptoHeader: Option<Block>, diskId: Raw32, main: Option<Gpt>, alt: Option<Gpt>,
                                   exec: Option<Block>, pwdCache: Option<Block>, rnd: Option<Block>)
  {
    /** The blocks in memory are as long as their headers say, the two arrays equally long, and all fits 32 bits. */
    predicate Sized() {
      && (main.Some? ==> |main.value.entrys| == main.value.ArraySize())
      && (alt.Some? ==> |alt.value.entrys| == alt.value.ArraySize())
      && (main.Some? && alt.Some? ==> |main.value.entrys| == |alt.value.entrys|)
      && Position(Parts(this, Zeros(512)), TOTAL) < TWO_32
    }

    /** With a crypto header, the list is in the second sector, where the parser looks for it. */
    predicate Complete() {
      Sized() && cryptoHeader.Some?
    }

    predicate GptGood(crc: Crc32, g: Option<Gpt>) {
      g.Some? ==> g.value.HeaderGood(crc) && g.value.MyLba() < TWO_64 / 512 && g.value.ArrayGood(crc)
    }

    /** All the parser's checks, as conditions on what is saved. */
    predicate Good(crc: Crc32) {
      && (pwdCache.Some? ==> PwdGood(crc, pwdCache.value))
      && GptGood(crc, main) && GptGood(crc, alt)
      && (main.Some? && alt.Some? ==> main.value.entrys == alt.value.entrys)
    }
  }

  // ---- the file: padded parts, one after the other ----

  type Part = Option<seq<byte>>

  function PartOf(b: Option<Block>): Part {
    if b.Some? then Some(b.value) else None
  }

  /** DeData, in the order of the indices; the disk id travels in the list itself. */
  function Parts(c: Components, list: Block): (p: seq<Part>)
    ensures |p| == TOTAL
  {
    [PartOf(c.cryptoHeader), Some(list), None,
     if c.main.Some? then Some(c.main.value.hdr) else None, if c.main.Some? then Some(c.main.value.entrys) else None,
     if c.alt.Some? then Some(c.alt.value.hdr) else None, if c.alt.Some? then Some(c.alt.value.entrys) else None,
     PartOf(c.exec), PartOf(c.pwdCache), PartOf(c.rnd)]
  }

  function Ceil512(n: nat): nat {
    (n + 511) / 512 * 512
  }

  function PaddedSize(p: Part): nat {
    if p.None? then 0 else Ceil512(|p.value|)
  }

  function PaddedBytes(p: Part): (b: seq<byte>)
    ensures |b| == PaddedSize(p)
  {
    if p.None? then [] else p.value + Zeros(Ceil512(|p.value|) - |p.value|)
  }

  /** Where part i begins. */
  function Position(parts: seq<Part>, i: nat): nat
    requires i <= |parts|
  {
    if i == 0 then 0 else Position(parts, i - 1) + PaddedSize(parts[i - 1])
  }

  function FileOf(parts: seq<Part>, n: nat): (f: seq<byte>)
    requires n <= |parts|
    ensures |f| == Position(parts, n)
  {
    if n == 0 then [] else FileOf(parts, n - 1) + PaddedBytes(parts[n - 1])
  }

  /** Every part lies in the file at its position, and positions are whole sectors. */
  lemma {:induction false} PartLies(parts: seq<Part>, n: nat, i: nat)
    requires i < n <= |parts|
    ensures Position(parts, i) % 512 == 0
    ensures Position(parts, i) + PaddedSize(parts[i]) <= Position(parts, n)
    ensures FileOf(parts, n)[Position(parts, i)..Position(parts, i) + PaddedSize(parts[i])] == PaddedBytes(parts[i])
    decreases n
  {
    hide Ceil512, PaddedSize, PaddedBytes;
    Aligned(parts, i);
    if i < n - 1 {
      PartLies(parts, n - 1, i);
      SliceOfPrefix(FileOf(parts, n - 1), PaddedBytes(parts[n - 1]), Position(parts, i), PaddedSize(parts[i]));
    } else {
      SliceOfRest(FileOf(parts, i), PaddedBytes(parts[i]));
    }
  }

  lemma SliceOfRest(f: seq<byte>, rest: seq<byte>)
    ensures (f + rest)[|f|..|f| + |rest|] == rest
  {
  }

  lemma SliceOfPrefix(f: seq<byte>, rest: seq<byte>, at: nat, n: nat)
    requires at + n <= |f|
    ensures (f + rest)[at..at + n] == f[at..at + n]
  {
  }

  lemma {:induction false} Aligned(parts: seq<Part>, i: nat)
    requires i <= |parts|
    ensures Position(parts, i) % 512 == 0
  {
    if i > 0 {
      Aligned(parts, i - 1);
    }
  }

  /** Recorded places do not overlap. */
  lemma {:induction false} PartsDisjoint(parts: seq<Part>, i: nat, j: nat)
    requires i < j < |parts|
    ensures Position(parts, i) + PaddedSize(parts[i]) <= Position(parts, j)
    decreases j
  {
    if i < j - 1 {
      PartsDisjoint(parts, i, j - 1);
    }
  }

  /** Positions depend on the sizes alone. */
  lemma {:induction false} PositionBySize(p: seq<Part>, q: seq<Part>, i: nat)
    requires i <= |p| == |q| && forall k :: 0 <= k < i ==> PaddedSize(p[k]) == PaddedSize(q[k])
    ensures Position(p, i) == Position(q, i)
  {
    if i > 0 {
      PositionBySize(p, q, i - 1);
    }
  }

  /** A part is found, without its padding, at the recorded offset. */
  lemma PartRead(parts: seq<Part>, n: nat, i: nat)
    requires i < n <= |parts| && parts[i].Some?
    ensures Position(parts, i) + |parts[i].value| <= Position(parts, n)
    ensures FileOf(parts, n)[Position(parts, i)..Position(parts, i) + |parts[i].value|] == parts[i].value
  {
    hide FileOf, Position, Ceil512;
    PartLies(parts, n, i);
    var at, size := Position(parts, i), |parts[i].value|;
    Unpadded(parts[i]);
    SliceOfSlice(FileOf(parts, n), at, PaddedSize(parts[i]), 0, size);
  }

  lemma Unpadded(p: Part)
    requires p.Some?
    ensures |p.value| <= PaddedSize(p) && PaddedBytes(p)[0..|p.value|] == p.value
  {
  }

  lemma SliceOfSlice(s: seq<byte>, at: nat, n: nat, i: nat, j: nat)
    requires at + n <= |s| && i <= j <= n
    ensures s[at..at + n][i..j] == s[at + i..at + j]
  {
    var x, y := s[at..at + n][i..j], s[at + i..at + j];
    assert |x| == |y| && forall k :: 0 <= k < |x| ==> x[k] == y[k];
  }

  // ---- the list ----

  function TypeOf(i: nat): u32 {
    if i == LIST then DE_LIST else if i == EXEC then DE_EXEC_PARAMS else if i == PWD_CACHE then DE_PWD_CACHE
    else if i == RND then DE_RND else DE_SECTORS
  }

  function Start512(lba: u64): u64 {
    lba * 512 % TWO_64
  }

  /** Where on the disk the sectors of part i belong. */
  function StartOf(c: Components, i: nat): u64 {
    if i == 0 then 62 * 512
    else if i == MAIN_HDR && c.main.Some? then Start512(c.main.value.MyLba())
    else if i == MAIN_ENTRYS && c.main.Some? then Start512(c.main.value.EntryLba())
    else if i == ALT_HDR && c.alt.Some? then Start512(c.alt.value.MyLba())
    else if i == ALT_ENTRYS && c.alt.Some? then Start512(c.alt.value.EntryLba())
    else 0
  }

  /** The sizes are known before the list is filled in. */
  function Shape(c: Components): (p: seq<Part>)
    ensures |p| == TOTAL
  {
    Parts(c, Zeros(512))
  }

  lemma ShapeFits(c: Components, i: nat)
    requires c.Sized() && i < TOTAL
    ensures Position(Shape(c), i) + PaddedSize(Shape(c)[i]) < TWO_32
  {
    PartLies(Shape(c), TOTAL, i);
  }

  function ItemAt(c: Components, i: nat): Item
    requires c.Sized() && i < TOTAL
  {
    ShapeFits(c, i);
    var part := Shape(c)[i];
    if part.None? then NO_ITEM else Item(TypeOf(i), Position(Shape(c), i), StartOf(c, i), |part.value|)
  }

  function EntryRaw(c: Components, i: nat): Raw32
    requires c.Sized()
  {
    if i == DISK_ID then c.diskId else if i < TOTAL then ItemAt(c, i).Encoded() else Zeros(32)
  }

  /** DCS_DISK_ENTRY_LIST with the given entries. */
  function ListBlock(de: seq<Raw32>, dataSize: u32, crc: u32): (b: Block)
    requires |de| == 15
  {
    var head := LIST_SIGN + Zeros(4) + Le32(512) + Le32(crc) + Zeros(4) + Le32(TOTAL) + Le32(dataSize);
    head + seq(480, k requires 0 <= k < 480 => de[k / 32][k % 32])
  }

  lemma ListBlockEntry(de: seq<Raw32>, dataSize: u32, crc: u32, i: nat)
    requires |de| == 15 && i < 15
    ensures ListBlock(de, dataSize, crc)[32 + 32 * i..64 + 32 * i] == de[i]
  {
    var b := ListBlock(de, dataSize, crc);
    var body := seq(480, k requires 0 <= k < 480 => de[k / 32][k % 32]);
    assert b[32..] == body;
    forall k | 0 <= k < 32 ensures b[32 + 32 * i..64 + 32 * i][k] == de[i][k] {
      assert b[32 + 32 * i + k] == body[32 * i + k];
      assert (32 * i + k) / 32 == i && (32 * i + k) % 32 == k;
    }
  }

  function Entries(c: Components): (de: seq<Raw32>)
    requires c.Sized()
    ensures |de| == 15
  {
    seq(15, i requires 0 <= i < 15 => EntryRaw(c, i))
  }

  function ListOf(crc: Crc32, c: Components): Block
    requires c.Sized()
  {
    var size := Position(Shape(c), TOTAL);
    ListBlock(Entries(c), size, crc(ListBlock(Entries(c), size, 0)))
  }

  /** The file. */
  function SavedFile(crc: Crc32, c: Components): (f: seq<byte>)
    requires c.Sized()
  {
    FileOf(Parts(c, ListOf(crc, c)), TOTAL)
  }

  // ---- reading it back ----

  /** Entry i of the list in the second sector. */
  function RawAt(buf: seq<byte>, i: nat): Raw32
    requires |buf| >= 1024 && i < 15
  {
    buf[544 + 32 * i..576 + 32 * i]
  }

  function Listed(buf: seq<byte>, i: nat): Item
    requires |buf| >= 1024 && i < 15
  {
    ItemOf(RawAt(buf, i))
  }

  /** The list in the file records every part, */
  lemma ItemSaved(crc: Crc32, c: Components, i: nat)
    requires c.Complete() && i < TOTAL && i != DISK_ID
    ensures |SavedFile(crc, c)| >= 1024 && Listed(SavedFile(crc, c), i) == ItemAt(c, i)
  {
    hide ListOf, SavedFile, ItemAt, ItemOf;
    EntrySaved(crc, c, i);
    ItemRoundTrip(ItemAt(c, i));
  }

  /** and the part is where it is recorded to be. */
  lemma PartSaved(crc: Crc32, c: Components, i: nat)
    requires c.Sized() && i < TOTAL && i != LIST
    ensures var f, at, part := SavedFile(crc, c), Position(Shape(c), i), Shape(c)[i];
      part.Some? ==> at + |part.value| <= |f| && f[at..at + |part.value|] == part.value
  {
    hide ListOf, FileOf, Position, Ceil512, PaddedSize;
    var parts := Parts(c, ListOf(crc, c));
    ShapeOfParts(crc, c, i);
    if parts[i].Some? {
      PartRead(parts, TOTAL, i);
    }
  }

  lemma SameSizes(c: Components, list: Block, k: nat)
    requires k < TOTAL
    ensures PaddedSize(Parts(c, list)[k]) == PaddedSize(Shape(c)[k])
    ensures k == LIST || (k == 0 && c.cryptoHeader.Some?) ==> PaddedSize(Shape(c)[k]) == 512
  {
    if k == LIST {
      assert Parts(c, list)[k] == Some(list) && Shape(c)[k] == Some(Zeros(512));
    } else if k == 0 {
      assert Shape(c)[k] == PartOf(c.cryptoHeader);
    }
  }

  lemma ShapeOfParts(crc: Crc32, c: Components, i: nat)
    requires c.Sized() && i <= TOTAL
    ensures Position(Parts(c, ListOf(crc, c)), i) == Position(Shape(c), i)
    ensures c.cryptoHeader.Some? ==> Position(Shape(c), 1) == 512 && Position(Shape(c), TOTAL) >= 1024
  {
    hide ListOf, Parts, Shape, PaddedSize, Ceil512;
    forall k | 0 <= k < TOTAL ensures PaddedSize(Parts(c, ListOf(crc, c))[k]) == PaddedSize(Shape(c)[k]) {
      SameSizes(c, ListOf(crc, c), k);
    }
    PositionBySize(Parts(c, ListOf(crc, c)), Shape(c), i);
    SameSizes(c, ListOf(crc, c), 0);
    SameSizes(c, ListOf(crc, c), 1);
    PartLies(Shape(c), TOTAL, 1);
  }

  lemma EntrySaved(crc: Crc32, c: Components, i: nat)
    requires c.Complete() && i < 15
    ensures |SavedFile(crc, c)| == Position(Shape(c), TOTAL) >= 1024
    ensures RawAt(SavedFile(crc, c), i) == EntryRaw(c, i)
    ensures SavedFile(crc, c)[..512] == c.cryptoHeader.value
  {
    hide ListOf, SavedFile, EntryRaw, Shape, Position;
    ListInFile(crc, c);
    ListOfEntry(crc, c, i);
    SliceOfSlice(SavedFile(crc, c), 512, 512, 32 + 32 * i, 64 + 32 * i);
  }

  lemma ListOfEntry(crc: Crc32, c: Components, i: nat)
    requires c.Complete() && i < 15
    ensures ListOf(crc, c)[32 + 32 * i..64 + 32 * i] == EntryRaw(c, i)
  {
    hide ListBlock, EntryRaw;
    var size := Position(Shape(c), TOTAL);
    ListBlockEntry(Entries(c), size, crc(ListBlock(Entries(c), size, 0)), i);
  }

  lemma ListInFile(crc: Crc32, c: Components)
    requires c.Complete()
    ensures |SavedFile(crc, c)| == Position(Shape(c), TOTAL) >= 1024
    ensures SavedFile(crc, c)[512..1024] == ListOf(crc, c)
    ensures SavedFile(crc, c)[..512] == c.cryptoHeader.value
  {
    hide ListOf, FileOf;
    var parts := Parts(c, ListOf(crc, c));
    ShapeOfParts(crc, c, TOTAL);
    PartRead(parts, TOTAL, 0);
    PartRead(parts, TOTAL, LIST);
    assert Position(parts, 0) == 0;
    assert Position(parts, 1) == 512;
  }

  /** Recorded places are whole sectors of the file and do not overlap. */
  lemma PlacesDisjoint(crc: Crc32, c: Components, i: nat, j: nat)
    requires c.Complete() && i < j < TOTAL && i != DISK_ID && j != DISK_ID && Shape(c)[i].Some? && Shape(c)[j].Some?
    ensures var f := SavedFile(crc, c);
      && |f| >= 1024 && Listed(f, i).offset % 512 == 0 && Listed(f, j).offset % 512 == 0
      && Listed(f, i).offset + Ceil512(Listed(f, i).length) <= Listed(f, j).offset
      && Listed(f, j).offset + Ceil512(Listed(f, j).length) <= |f|
  {
    hide SavedFile, Listed, Shape, Position, Ceil512;
    ItemSaved(crc, c, i);
    ItemSaved(crc, c, j);
    Aligned(Shape(c), i);
    Aligned(Shape(c), j);
    PartsDisjoint(Shape(c), i, j);
    PartLies(Shape(c), TOTAL, j);
    ListInFile(crc, c);
  }

  /** The padded lengths of the first n entries, as recorded. */
  function RecordedSum(f: seq<byte>, n: nat): nat
    requires |f| >= 1024 && n <= TOTAL
  {
    if n == 0 then 0
    else RecordedSum(f, n - 1) + if n - 1 == DISK_ID then 0 else Ceil512(Listed(f, n - 1).length)
  }

  lemma {:induction false} RecordedSumIsPosition(crc: Crc32, c: Components, n: nat)
    requires c.Complete() && n <= TOTAL && |SavedFile(crc, c)| >= 1024
    ensures RecordedSum(SavedFile(crc, c), n) == Position(Shape(c), n)
  {
    hide SavedFile, Listed, Shape;
    if n > 0 {
      RecordedSumIsPosition(crc, c, n - 1);
      NoDiskPart(c);
      if n - 1 != DISK_ID {
        ItemSaved(crc, c, n - 1);
      }
    }
  }

  lemma NoDiskPart(c: Components)
    ensures Shape(c)[DISK_ID].None?
  {
  }

  /** DataSize is the sum of the padded lengths, and the length of the file. */
  lemma DataSizeIsSum(crc: Crc32, c: Components)
    requires c.Complete()
    ensures var f := SavedFile(crc, c); |f| >= 1024 && U32At(f, 540) == |f| == RecordedSum(f, TOTAL)
  {
    var f, size := SavedFile(crc, c), Position(Shape(c), TOTAL);
    ListInFile(crc, c);
    RecordedSumIsPosition(crc, c, TOTAL);
    ListBlockSize(Entries(c), size, crc(ListBlock(Entries(c), size, 0)));
    hide SavedFile, RecordedSum, ListBlock, Shape, Position;
    SliceOfSlice(f, 512, 512, 28, 32);
  }

  lemma ListBlockSize(de: seq<Raw32>, dataSize: u32, crc: u32)
    requires |de| == 15
    ensures U32At(ListBlock(de, dataSize, crc), 28) == dataSize
  {
    var a, b, d, e, f, g := LIST_SIGN, Zeros(4), Le32(512), Le32(crc), Le32(TOTAL), Le32(dataSize);
    var l := ListBlock(de, dataSize, crc);
    assert l[28..32] == g;
    Le32RoundTrip(dataSize);
  }
}
