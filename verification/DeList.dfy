/** Saving the disk-entry list and reading it back (GptEdit.c, lines 190-312, 336-423). */
module DeList {
  import opened Bytes
  import opened TableSpec
  import opened DeListSpec
  import opened ListLayout
  import opened TableLayout
  import Tables

  // ---- saving ----

  /** DeList, DeData and Offset while the list is filled in. */
  class ListWriter {
    var de: seq<Raw32>
    var deData: seq<Part>
    var offset: u32

    constructor ()
      ensures de == seq(15, _ => Zeros(32)) && deData == seq(TOTAL, _ => None) && offset == 0
    {
      de, deData, offset := seq(15, _ => Zeros(32)), seq(TOTAL, _ => None), 0;
    }

    /** The entries below i are as they will be in the file, the others still empty. */
    ghost predicate Filled(c: Components, i: nat)
      requires c.Sized() && i <= TOTAL
      reads this
    {
      && |de| == 15 && |deData| == TOTAL
      && (forall k :: 0 <= k < 15 ==> de[k] == if k < i then EntryRaw(c, k) else Zeros(32))
      && (forall k :: 0 <= k < TOTAL ==> deData[k] == if k < i then Shape(c)[k] else None)
      && offset == Position(Shape(c), i)
    }

    /** DeList_UPDATE_BEGIN to DeList_UPDATE_END; `start` is what the lines between put into Sectors.Start. */
    method Update(ghost c: Components, data: Part, typ: u32, index: nat, start: u64)
      requires c.Sized() && index < TOTAL && index != DISK_ID && Filled(c, index)
      requires data == Shape(c)[index] && typ == TypeOf(index) && (data.Some? ==> start == StartOf(c, index))
      modifies this
      ensures Filled(c, index + 1)
    {
      hide Shape;
      ShapeFits(c, index);
      if data.None? {
        NothingThere(c, index);
      } else {
        deData := deData[index := data];
        de := de[index := Item(typ, offset, start, |data.value|).Encoded()];
        offset := offset + (|data.value| + 511) / 512 * 512;
      }
    }

    /** The disk id is copied into its entry. */
    method UpdateDiskId(ghost c: Components, diskId: Raw32)
      requires c.Sized() && diskId == c.diskId && Filled(c, DISK_ID)
      modifies this
      ensures Filled(c, DISK_ID + 1)
    {
      de := de[DISK_ID := diskId];
    }

    /** The loop that writes the parts, the list among them with its final contents. */
    method Write(list: Block, ghost c: Components) returns (file: seq<byte>)
      requires c.Sized() && Filled(c, TOTAL)
      ensures file == FileOf(Parts(c, list), TOTAL)
    {
      hide Parts, Shape, Position, EntryRaw;
      file := [];
      for i := 0 to TOTAL
        invariant file == FileOf(Parts(c, list), i)
      {
        var data := if i == LIST && deData[i].Some? then Some(list) else deData[i];
        PartOrList(c, list, i);
        assert data == Parts(c, list)[i];
        if data.Some? {
          var len := |data.value|;
          var pad := (len + 511) / 512 * 512 - len;
          assert data.value + Zeros(pad) == PaddedBytes(data);
          file := file + (data.value + Zeros(pad));
        }
      }
    }
  }

  lemma PartOrList(c: Components, list: Block, i: nat)
    requires i < TOTAL
    ensures Shape(c)[LIST].Some? && Parts(c, list)[i] == if i == LIST then Some(list) else Shape(c)[i]
  {
  }

  /** An absent part leaves its entry empty. */
  lemma NothingThere(c: Components, i: nat)
    requires c.Sized() && i < TOTAL && i != DISK_ID && Shape(c)[i].None?
    ensures EntryRaw(c, i) == Zeros(32)
  {
    var z, e := NO_ITEM.Encoded(), Zeros(32);
    forall k | 0 <= k < 32 ensures z[k] == e[k] {
    }
    assert z == e;
  }

  /** The steps up to the disk id. */
  method SaveFixed(w: ListWriter, c: Components)
    requires c.Sized() && w.Filled(c, 0)
    modifies w
    ensures w.Filled(c, MAIN_HDR)
  {
    hide Position, ListWriter.Filled, EntryRaw;
    w.Update(c, PartOf(c.cryptoHeader), DE_SECTORS, 0, 62 * 512);
    w.Update(c, Some(Zeros(512)), DE_LIST, LIST, 0);
    w.UpdateDiskId(c, c.diskId);
  }

  method SaveMainGpt(w: ListWriter, c: Components)
    requires c.Sized() && w.Filled(c, MAIN_HDR)
    modifies w
    ensures w.Filled(c, ALT_HDR)
  {
    hide Position, ListWriter.Filled, EntryRaw, U64At;
    var g := c.main;
    w.Update(c, if g.Some? then Some(g.value.hdr) else None, DE_SECTORS, MAIN_HDR,
             if g.Some? then Start512(g.value.MyLba()) else 0);
    w.Update(c, if g.Some? then Some(g.value.entrys) else None, DE_SECTORS, MAIN_ENTRYS,
             if g.Some? then Start512(g.value.EntryLba()) else 0);
  }

  method SaveAltGpt(w: ListWriter, c: Components)
    requires c.Sized() && w.Filled(c, ALT_HDR)
    modifies w
    ensures w.Filled(c, EXEC)
  {
    hide Position, ListWriter.Filled, EntryRaw, U64At;
    var g := c.alt;
    w.Update(c, if g.Some? then Some(g.value.hdr) else None, DE_SECTORS, ALT_HDR,
             if g.Some? then Start512(g.value.MyLba()) else 0);
    w.Update(c, if g.Some? then Some(g.value.entrys) else None, DE_SECTORS, ALT_ENTRYS,
             if g.Some? then Start512(g.value.EntryLba()) else 0);
  }

  method SaveParams(w: ListWriter, c: Components)
    requires c.Sized() && w.Filled(c, EXEC)
    modifies w
    ensures w.Filled(c, TOTAL)
  {
    hide Position, ListWriter.Filled, EntryRaw;
    w.Update(c, PartOf(c.exec), DE_EXEC_PARAMS, EXEC, 0);
    w.Update(c, PartOf(c.pwdCache), DE_PWD_CACHE, PWD_CACHE, 0);
    w.Update(c, PartOf(c.rnd), DE_RND, RND, 0);
  }

  lemma NoEntryBehind(c: Components)
    requires c.Sized()
    ensures forall k :: TOTAL <= k < 15 ==> EntryRaw(c, k) == Zeros(32)
  {
  }

  /** DeListSaveToFile. */
  method DeListSaveToFile(crc: Crc32, c: Components) returns (file: seq<byte>)
    requires c.Sized()
    ensures file == SavedFile(crc, c)
    ensures c.cryptoHeader.Some? ==> SavedRight(crc, c, file)
  {
    hide Shape, Parts, FileOf, EntryRaw, SavedRight;
    var w := new ListWriter();
    SaveFixed(w, c);
    SaveMainGpt(w, c);
    SaveAltGpt(w, c);
    SaveParams(w, c);
    NoEntryBehind(c);
    assert w.de == Entries(c);
    var list := ListBlock(w.de, w.offset, crc(ListBlock(w.de, w.offset, 0)));
    file := w.Write(list, c);
    if c.cryptoHeader.Some? {
      FileSavedRight(crc, c);
    }
  }

  // ---- reading ----

  /** What the globals are set to. */
  datatype Globals = Globals(cryptoHeader: Block, diskId: Raw32, mainHdr: Option<Block>, mainEntrys: Option<seq<byte>>,
                             altHdr: Option<Block>, altEntrys: Option<seq<byte>>,
                             exec: Option<Block>, pwdCache: Option<Block>, rnd: Option<Block>)

  function GlobalsOf(c: Components): Globals
    requires c.cryptoHeader.Some?
  {
    Globals(c.cryptoHeader.value, c.diskId,
            if c.main.Some? then Some(c.main.value.hdr) else None,
            if c.main.Some? then Some(c.main.value.entrys) else None,
            if c.alt.Some? then Some(c.alt.value.hdr) else None, if c.alt.Some? then Some(c.alt.value.entrys) else None,
            c.exec, c.pwdCache, c.rnd)
  }

  predicate Is(buf: seq<byte>, i: nat, typ: u32)
    requires |buf| >= 1024 && i < 15
  {
    Listed(buf, i).typ == typ
  }

  /** A listed block of 512 bytes lies in the buffer. */
  predicate BlockInside(buf: seq<byte>, i: nat, typ: u32)
    requires |buf| >= 1024 && i < 15
  {
    Is(buf, i, typ) ==> Listed(buf, i).offset + 512 <= |buf|
  }

  function BlockAt(buf: seq<byte>, i: nat): Block
    requires |buf| >= 1024 && i < 15 && Listed(buf, i).offset + 512 <= |buf|
  {
    buf[Listed(buf, i).offset..Listed(buf, i).offset + 512]
  }

  function ArraySizeAt(buf: seq<byte>, h: nat): nat
    requires |buf| >= 1024 && h < 15 && Listed(buf, h).offset + 512 <= |buf|
  {
    Gpt(BlockAt(buf, h), []).ArraySize()
  }

  /** A listed entry array lies in the buffer, and so does the header that tells its size. */
  predicate ArrayInside(buf: seq<byte>, h: nat, e: nat)
    requires |buf| >= 1024 && h < 15 && e < 15
  {
    Is(buf, e, DE_SECTORS) ==>
      && Is(buf, h, DE_SECTORS) && Listed(buf, h).offset + 512 <= |buf|
      && Listed(buf, e).offset + ArraySizeAt(buf, h) <= |buf|
  }

  /** The parser looks at nothing outside the buffer. */
  predicate Inside(buf: seq<byte>) {
    && |buf| >= 1024
    && BlockInside(buf, MAIN_HDR, DE_SECTORS) && BlockInside(buf, ALT_HDR, DE_SECTORS)
    && BlockInside(buf, EXEC, DE_EXEC_PARAMS) && BlockInside(buf, PWD_CACHE, DE_PWD_CACHE)
    && BlockInside(buf, RND, DE_RND)
    && ArrayInside(buf, MAIN_HDR, MAIN_ENTRYS) && ArrayInside(buf, ALT_HDR, ALT_ENTRYS)
    && ComparisonInside(buf)
  }

  predicate ComparisonInside(buf: seq<byte>)
    requires |buf| >= 1024 && ArrayInside(buf, MAIN_HDR, MAIN_ENTRYS)
  {
    Is(buf, MAIN_ENTRYS, DE_SECTORS) && Is(buf, ALT_ENTRYS, DE_SECTORS) ==>
      Listed(buf, ALT_ENTRYS).offset + ArraySizeAt(buf, MAIN_HDR) <= |buf|
  }

  function ArrayAt(buf: seq<byte>, h: nat, e: nat): seq<byte>
    requires |buf| >= 1024 && h < 15 && e < 15 && ArrayInside(buf, h, e) && Is(buf, e, DE_SECTORS)
  {
    buf[Listed(buf, e).offset..Listed(buf, e).offset + ArraySizeAt(buf, h)]
  }

  /** Header i is sound, and recorded where it says it belongs. */
  predicate HeaderOk(crc: Crc32, buf: seq<byte>, i: nat)
    requires |buf| >= 1024 && i < 15 && BlockInside(buf, i, DE_SECTORS)
  {
    Is(buf, i, DE_SECTORS) ==>
      && Gpt(BlockAt(buf, i), []).HeaderGood(crc)
      && Listed(buf, i).start / 512 == Gpt(BlockAt(buf, i), []).MyLba()
  }

  predicate ArrayOk(crc: Crc32, buf: seq<byte>, h: nat, e: nat)
    requires |buf| >= 1024 && h < 15 && e < 15 && ArrayInside(buf, h, e)
  {
    Is(buf, e, DE_SECTORS) ==> Gpt(BlockAt(buf, h), ArrayAt(buf, h, e)).ArrayGood(crc)
  }

  /** CompareMem takes the product of the two 32-bit fields in 32 bits. */
  function Compared(size: nat): (n: nat)
    ensures n <= size
    ensures size < TWO_32 ==> n == size
  {
    size % TWO_32
  }

  predicate ArraysAgree(buf: seq<byte>)
    requires |buf| >= 1024 && ArrayInside(buf, MAIN_HDR, MAIN_ENTRYS) && ComparisonInside(buf)
  {
    Is(buf, MAIN_ENTRYS, DE_SECTORS) && Is(buf, ALT_ENTRYS, DE_SECTORS) ==>
      var size, m, a := ArraySizeAt(buf, MAIN_HDR), Listed(buf, MAIN_ENTRYS).offset, Listed(buf, ALT_ENTRYS).offset;
      buf[m..m + Compared(size)] == buf[a..a + Compared(size)]
  }

  /** What the parser accepts. */
  predicate Accepts(crc: Crc32, buf: seq<byte>)
    requires Inside(buf)
  {
    && (Is(buf, RND, DE_RND) ==> Listed(buf, RND).length == 512)
    && (Is(buf, PWD_CACHE, DE_PWD_CACHE) ==> PwdGood(crc, BlockAt(buf, PWD_CACHE)))
    && HeaderOk(crc, buf, MAIN_HDR) && ArrayOk(crc, buf, MAIN_HDR, MAIN_ENTRYS)
    && HeaderOk(crc, buf, ALT_HDR) && ArrayOk(crc, buf, ALT_HDR, ALT_ENTRYS)
    && ArraysAgree(buf)
  }

  function BlockIf(buf: seq<byte>, i: nat, typ: u32): Option<Block>
    requires |buf| >= 1024 && i < 15 && BlockInside(buf, i, typ)
  {
    if Is(buf, i, typ) then Some(BlockAt(buf, i)) else None
  }

  function ArrayIf(buf: seq<byte>, h: nat, e: nat): Option<seq<byte>>
    requires |buf| >= 1024 && h < 15 && e < 15 && ArrayInside(buf, h, e)
  {
    if Is(buf, e, DE_SECTORS) then Some(ArrayAt(buf, h, e)) else None
  }

  /** and what it then finds. */
  function Loaded(buf: seq<byte>): Globals
    requires Inside(buf)
  {
    Globals(buf[..512], RawAt(buf, DISK_ID),
            BlockIf(buf, MAIN_HDR, DE_SECTORS), ArrayIf(buf, MAIN_HDR, MAIN_ENTRYS),
            BlockIf(buf, ALT_HDR, DE_SECTORS), ArrayIf(buf, ALT_HDR, ALT_ENTRYS),
            BlockIf(buf, EXEC, DE_EXEC_PARAMS), BlockIf(buf, PWD_CACHE, DE_PWD_CACHE), BlockIf(buf, RND, DE_RND))
  }

  /** The CRC field of the password cache is cleared for the check, and put back only if it was right. */
  method CheckPwdCache(crc: Crc32, buf: array<byte>, at: nat) returns (ok: bool)
    requires at + 512 <= buf.Length
    modifies buf
    ensures ok <==> PwdGood(crc, old(buf[..])[at..at + 512])
    ensures ok ==> buf[..] == old(buf[..])
    ensures forall k :: 0 <= k < buf.Length && !(at + 8 <= k < at + 12) ==> buf[k] == old(buf[k])
  {
    ghost var was := buf[..];
    ghost var b: Block := was[at..at + 512];
    if buf[at..at + 8] != PWD_SIGN {
      assert was[at..at + 8] == b[..8];
      return false;
    }
    assert was[at..at + 8] == b[..8];
    assert buf[at + 8..at + 12] == b[8..12];
    var crcSaved := buf[at + 8..at + 12];
    forall k | 0 <= k < 4 {
      buf[at + 8 + k] := 0;
    }
    assert buf[at..at + 512] == BlankPwd(b);
    var found := crc(buf[at..at + 512]);
    if found != FromLe32(crcSaved) {
      return false;
    }
    forall k | 0 <= k < 4 {
      buf[at + 8 + k] := crcSaved[k];
    }
    forall k | 0 <= k < buf.Length ensures buf[k] == was[k] {
      if at + 8 <= k < at + 12 {
        assert buf[at + 8 + (k - (at + 8))] == crcSaved[k - (at + 8)];
      }
    }
    assert buf[..] == was;
    ok := true;
  }

  method CheckHeader(crc: Crc32, buf: array<byte>, i: nat) returns (ok: bool, hdr: Option<Block>)
    requires i < 15 && buf.Length >= 1024 && BlockInside(buf[..], i, DE_SECTORS)
    modifies buf
    ensures buf[..] == old(buf[..])
    ensures ok <==> HeaderOk(crc, buf[..], i)
    ensures hdr == BlockIf(buf[..], i, DE_SECTORS)
  {
    hide Listed, U32At, U64At;
    ghost var was := buf[..];
    var item := Listed(buf[..], i);
    ok, hdr := true, None;
    if item.typ == DE_SECTORS {
      var b: Block := buf[item.offset..item.offset + 512];
      assert b == BlockAt(buf[..], i);
      hdr := Some(b);
      BlockCrc(crc, buf[..], item.offset);
      var crcOk := Tables.GptHeaderCheckCrc(crc, buf, item.offset, 512);
      ok := b[..8] == GPT_SIGN && crcOk && item.start / 512 == U64At(b, 24) && U32At(b, 84) >= 128;
    }
  }

  /** A header checked inside the buffer is a header checked by itself. */
  lemma BlockCrc(crc: Crc32, buf: seq<byte>, at: nat)
    requires at + 512 <= |buf|
    ensures var b := buf[at..at + 512];
      && Readable(buf, at, 512) && Readable(b, 0, 512) && (CrcOk(crc, buf, at, 512) <==> CrcOk(crc, b, 0, 512))
  {
    var b := buf[at..at + 512];
    SliceOfSlice(buf, at, 512, 12, 16);
    SliceOfSlice(buf, at, 512, 16, 20);
    assert SizeAt(b, 0) == SizeAt(buf, at) && CrcAt(b, 0) == CrcAt(buf, at);
    if SizeAt(b, 0) <= 512 {
      SliceOfSlice(buf, at, 512, 0, SizeAt(b, 0));
    }
  }

  method CheckArray(crc: Crc32, buf: array<byte>, h: nat, e: nat) returns (ok: bool, entrys: Option<seq<byte>>)
    requires h < 15 && e < 15 && buf.Length >= 1024 && ArrayInside(buf[..], h, e)
    ensures ok <==> ArrayOk(crc, buf[..], h, e)
    ensures entrys == ArrayIf(buf[..], h, e)
  {
    hide Listed;
    var item := Listed(buf[..], e);
    ok, entrys := true, None;
    if item.typ == DE_SECTORS {
      var hdr: Block := buf[Listed(buf[..], h).offset..Listed(buf[..], h).offset + 512];
      assert hdr == BlockAt(buf[..], h);
      var n: int, s: int := U32At(hdr, 80), U32At(hdr, 84);
      assert n * s == ArraySizeAt(buf[..], h);
      var a := buf[item.offset..item.offset + n * s];
      entrys := Some(a);
      ok := |a| != 0 && U32At(hdr, 88) == crc(a);
    }
  }

  /** DeListParseSaved, from globals that are not set yet. */
  method DeListParseSaved(crc: Crc32, deBuffer: array<byte>) returns (ok: bool, g: Globals)
    requires Inside(deBuffer[..])
    modifies deBuffer
    ensures ok <==> Accepts(crc, old(deBuffer[..]))
    ensures ok <==> Trusted(crc, old(deBuffer[..]))
    ensures ok ==> g == Loaded(old(deBuffer[..])) && deBuffer[..] == old(deBuffer[..])
  {
    hide HeaderOk, ArrayOk, PwdGood, Listed, RawAt, Trusted;
    AcceptsExactly(crc, deBuffer[..]);
    ghost var was := deBuffer[..];
    g := Globals(deBuffer[..512], RawAt(deBuffer[..], DISK_ID), None, None, None, None, None, None, None);
    if Listed(deBuffer[..], EXEC).typ == DE_EXEC_PARAMS {
      g := g.(exec := Some(BlockAt(deBuffer[..], EXEC)));
    }
    if Listed(deBuffer[..], RND).typ == DE_RND {
      g := g.(rnd := Some(BlockAt(deBuffer[..], RND)));
      if Listed(deBuffer[..], RND).length != 512 {
        return false, g;
      }
    }
    if Listed(deBuffer[..], PWD_CACHE).typ == DE_PWD_CACHE {
      g := g.(pwdCache := Some(BlockAt(deBuffer[..], PWD_CACHE)));
      ok := CheckPwdCache(crc, deBuffer, Listed(deBuffer[..], PWD_CACHE).offset);
      if !ok {
        return;
      }
    }
    assert deBuffer[..] == was;
    var mainHdr, mainEntrys, altHdr, altEntrys;
    ok, mainHdr, mainEntrys := CheckGpt(crc, deBuffer, MAIN_HDR, MAIN_ENTRYS);
    if !ok {
      return;
    }
    ok, altHdr, altEntrys := CheckGpt(crc, deBuffer, ALT_HDR, ALT_ENTRYS);
    if !ok {
      return;
    }
    g := g.(mainHdr := mainHdr, mainEntrys := mainEntrys, altHdr := altHdr, altEntrys := altEntrys);
    ok := CompareArrays(deBuffer);
  }

  method CheckGpt(crc: Crc32, buf: array<byte>, h: nat, e: nat)
    returns (ok: bool, hdr: Option<Block>, entrys: Option<seq<byte>>)
    requires h < 15 && e < 15 && buf.Length >= 1024 && BlockInside(buf[..], h, DE_SECTORS) && ArrayInside(buf[..], h, e)
    modifies buf
    ensures buf[..] == old(buf[..])
    ensures ok <==> HeaderOk(crc, buf[..], h) && ArrayOk(crc, buf[..], h, e)
    ensures ok ==> hdr == BlockIf(buf[..], h, DE_SECTORS) && entrys == ArrayIf(buf[..], h, e)
  {
    hide HeaderOk, ArrayOk;
    entrys := None;
    ok, hdr := CheckHeader(crc, buf, h);
    if ok {
      ok, entrys := CheckArray(crc, buf, h, e);
    }
  }

  method CompareArrays(buf: array<byte>) returns (ok: bool)
    requires Inside(buf[..])
    ensures ok <==> ArraysAgree(buf[..])
  {
    hide Listed, BlockAt, U32At;
    ok := true;
    if Listed(buf[..], MAIN_ENTRYS).typ == DE_SECTORS && Listed(buf[..], ALT_ENTRYS).typ == DE_SECTORS {
      var n := Compared(ArraySizeAt(buf[..], MAIN_HDR));
      var m, a := Listed(buf[..], MAIN_ENTRYS).offset, Listed(buf[..], ALT_ENTRYS).offset;
      ok := buf[m..m + n] == buf[a..a + n];
    }
  }

  // ---- what is accepted, in bytes ----

  lemma HeaderOkExactly(crc: Crc32, buf: seq<byte>, i: nat)
    requires |buf| >= 1024 && i < 15 && BlockInside(buf, i, DE_SECTORS)
    ensures HeaderOk(crc, buf, i) <==> HeaderTrusted(crc, buf, i)
  {
    hide Listed, HeaderRight, Gpt.HeaderGood, WordAt, LongAt, U64At;
    EntryInBytes(buf, i);
    if Is(buf, i, DE_SECTORS) {
      var at := Listed(buf, i).offset;
      HeaderGoodExactly(crc, Gpt(BlockAt(buf, i), []));
      LongOfSlice(buf, at, 512, 24);
    }
  }

  lemma ArraySizeInBytes(buf: seq<byte>, h: nat)
    requires |buf| >= 1024 && h < 15 && Listed(buf, h).offset + 512 <= |buf|
    ensures ArraySizeAt(buf, h) == ArrayBytes(buf, Listed(buf, h).offset)
    ensures U32At(BlockAt(buf, h), 88) == WordAt(buf, Listed(buf, h).offset + 88)
  {
    hide Listed, WordAt, U32At;
    var at := Listed(buf, h).offset;
    WordOfSlice(buf, at, 512, 80);
    WordOfSlice(buf, at, 512, 84);
    WordOfSlice(buf, at, 512, 88);
  }

  lemma ArrayOkExactly(crc: Crc32, buf: seq<byte>, h: nat)
    requires |buf| >= 1024 && h < 14 && ArrayInside(buf, h, h + 1)
    ensures ArrayOk(crc, buf, h, h + 1) <==> ArrayTrusted(crc, buf, h)
  {
    hide Listed, WordAt, ArraySizeAt, ArrayBytes, U32At;
    EntryInBytes(buf, h);
    EntryInBytes(buf, h + 1);
    if Is(buf, h + 1, DE_SECTORS) {
      ArraySizeInBytes(buf, h);
    }
  }

  lemma ArraysAgreeExactly(buf: seq<byte>)
    requires |buf| >= 1024 && ArrayInside(buf, MAIN_HDR, MAIN_ENTRYS) && ComparisonInside(buf)
    ensures ArraysAgree(buf) <==> ArraysSame(buf)
  {
    hide Listed, WordAt, ArraySizeAt, ArrayBytes;
    EntryInBytes(buf, MAIN_HDR);
    EntryInBytes(buf, MAIN_ENTRYS);
    EntryInBytes(buf, ALT_ENTRYS);
    if Is(buf, MAIN_ENTRYS, DE_SECTORS) && Is(buf, ALT_ENTRYS, DE_SECTORS) {
      ArraySizeInBytes(buf, MAIN_HDR);
    }
  }

  lemma ParamsExactly(crc: Crc32, buf: seq<byte>)
    requires Inside(buf)
    ensures (Is(buf, RND, DE_RND) ==> Listed(buf, RND).length == 512)
       <==> (WordAt(buf, 832) == 6 ==> LongAt(buf, 856) == 512)
    ensures (Is(buf, PWD_CACHE, DE_PWD_CACHE) ==> PwdGood(crc, BlockAt(buf, PWD_CACHE)))
       <==> (WordAt(buf, 800) == 5 ==>
               WordAt(buf, 804) + 512 <= |buf| && CacheRight(crc, buf[WordAt(buf, 804)..WordAt(buf, 804) + 512]))
  {
    hide Listed, WordAt, LongAt, PwdGood, CacheRight, ArrayInside, ComparisonInside;
    EntryInBytes(buf, RND);
    EntryInBytes(buf, PWD_CACHE);
    if Is(buf, PWD_CACHE, DE_PWD_CACHE) {
      CacheGoodExactly(crc, BlockAt(buf, PWD_CACHE));
    }
  }

  /** The parser trusts a file exactly when its bytes are to be trusted. */
  lemma AcceptsExactly(crc: Crc32, buf: seq<byte>)
    requires Inside(buf)
    ensures Accepts(crc, buf) <==> Trusted(crc, buf)
  {
    hide Listed, WordAt, LongAt, PwdGood, CacheRight, HeaderOk, HeaderTrusted, ArrayOk, ArrayTrusted, ArraysAgree,
         ArraysSame, BlockAt;
    ParamsExactly(crc, buf);
    HeaderOkExactly(crc, buf, MAIN_HDR);
    HeaderOkExactly(crc, buf, ALT_HDR);
    ArrayOkExactly(crc, buf, MAIN_HDR);
    ArrayOkExactly(crc, buf, ALT_HDR);
    ArraysAgreeExactly(buf);
  }

  // ---- saving and reading back ----

  lemma BlockSaved(crc: Crc32, c: Components, i: nat)
    requires c.Complete() && i in {MAIN_HDR, ALT_HDR, EXEC, PWD_CACHE, RND}
    requires Shape(c)[i].Some? ==> |Shape(c)[i].value| == 512
    ensures |SavedFile(crc, c)| >= 1024 && BlockInside(SavedFile(crc, c), i, TypeOf(i))
    ensures BlockIf(SavedFile(crc, c), i, TypeOf(i)) == if Shape(c)[i].Some? then Some(Shape(c)[i].value) else None
  {
    hide SavedFile, Listed, Shape, Position;
    ItemSaved(crc, c, i);
    PartSaved(crc, c, i);
  }

  /** The two indices of a table, and the table. */
  predicate IsTable(c: Components, h: nat, g: Option<Gpt>) {
    (h == MAIN_HDR && g == c.main) || (h == ALT_HDR && g == c.alt)
  }

  lemma TableShape(c: Components, h: nat, g: Option<Gpt>)
    requires c.Sized() && IsTable(c, h, g)
    ensures Shape(c)[h] == if g.Some? then Some(g.value.hdr) else None
    ensures Shape(c)[h + 1] == if g.Some? then Some(g.value.entrys) else None
    ensures g.Some? ==> |g.value.entrys| == g.value.ArraySize() && StartOf(c, h) == Start512(g.value.MyLba())
    ensures g.Some? ==> |g.value.entrys| < TWO_32
  {
    ShapeFits(c, h + 1);
  }

  lemma TableSaved(crc: Crc32, c: Components, h: nat, g: Option<Gpt>)
    requires c.Complete() && IsTable(c, h, g)
    ensures var f := SavedFile(crc, c);
      && |f| >= 1024 && BlockInside(f, h, DE_SECTORS) && ArrayInside(f, h, h + 1)
      && BlockIf(f, h, DE_SECTORS) == (if g.Some? then Some(g.value.hdr) else None)
      && ArrayIf(f, h, h + 1) == (if g.Some? then Some(g.value.entrys) else None)
      && (Is(f, h, DE_SECTORS) <==> g.Some?) && (Is(f, h + 1, DE_SECTORS) <==> g.Some?)
      && (g.Some? ==> Listed(f, h).start == Start512(g.value.MyLba()) && ArraySizeAt(f, h) == |g.value.entrys|)
  {
    hide SavedFile, Listed, Shape, Position, Components.Sized, StartOf, U64At, U32At, Start512;
    TableShape(c, h, g);
    BlockSaved(crc, c, h);
    ItemSaved(crc, c, h);
    ItemSaved(crc, c, h + 1);
    PartSaved(crc, c, h + 1);
    var f := SavedFile(crc, c);
    if g.Some? {
      assert BlockAt(f, h) == g.value.hdr;
    }
  }

  lemma Start512Back(lba: u64)
    ensures Start512(lba) / 512 == lba <==> lba < TWO_64 / 512
  {
  }

  lemma TableChecks(crc: Crc32, c: Components, h: nat, g: Option<Gpt>)
    requires c.Complete() && IsTable(c, h, g)
    ensures var f := SavedFile(crc, c);
      && |f| >= 1024 && BlockInside(f, h, DE_SECTORS) && ArrayInside(f, h, h + 1)
      && (HeaderOk(crc, f, h) && ArrayOk(crc, f, h, h + 1) <==> c.GptGood(crc, g))
  {
    hide SavedFile, Listed, Shape, Position, Components.Sized, StartOf, U64At, U32At, Start512, CrcOk;
    TableSaved(crc, c, h, g);
    if g.Some? {
      Start512Back(g.value.MyLba());
      HeaderGoodAlone(crc, g.value);
    }
  }

  /** The header checks look at the header alone. */
  lemma HeaderGoodAlone(crc: Crc32, g: Gpt)
    ensures Gpt(g.hdr, []).HeaderGood(crc) <==> g.HeaderGood(crc)
    ensures Gpt(g.hdr, []).MyLba() == g.MyLba()
  {
  }

  lemma SavedInside(crc: Crc32, c: Components)
    requires c.Complete()
    ensures Inside(SavedFile(crc, c))
  {
    hide SavedFile, Listed, Position, Components.Sized, StartOf, U64At, U32At, Start512;
    TableSaved(crc, c, MAIN_HDR, c.main);
    TableSaved(crc, c, ALT_HDR, c.alt);
    BlockSaved(crc, c, EXEC);
    BlockSaved(crc, c, PWD_CACHE);
    BlockSaved(crc, c, RND);
    if c.main.Some? && c.alt.Some? {
      SameArraySizes(c);
    }
  }

  lemma SameArraySizes(c: Components)
    requires c.Sized() && c.main.Some? && c.alt.Some?
    ensures |c.main.value.entrys| == |c.alt.value.entrys|
  {
  }

  lemma SavedArraysAgree(crc: Crc32, c: Components)
    requires c.Complete() && Inside(SavedFile(crc, c))
    ensures ArraysAgree(SavedFile(crc, c))
       <==> (c.main.Some? && c.alt.Some? ==> c.main.value.entrys == c.alt.value.entrys)
  {
    hide SavedFile, Listed, Inside, ArrayIf, ArraysAgree, Components.Sized, Shape, Is, ArrayAt, BlockAt, Position,
         StartOf, Start512;
    TableSaved(crc, c, MAIN_HDR, c.main);
    TableSaved(crc, c, ALT_HDR, c.alt);
    if c.main.Some? && c.alt.Some? {
      SameArraySizes(c);
      TableShape(c, MAIN_HDR, c.main);
    }
    ArraysAgreeMeans(SavedFile(crc, c), if c.main.Some? then Some(c.main.value.entrys) else None,
                     if c.alt.Some? then Some(c.alt.value.entrys) else None);
  }

  lemma ArraysAgreeMeans(f: seq<byte>, main: Option<seq<byte>>, alt: Option<seq<byte>>)
    requires Inside(f) && ArrayIf(f, MAIN_HDR, MAIN_ENTRYS) == main && ArrayIf(f, ALT_HDR, ALT_ENTRYS) == alt
    requires main.Some? && alt.Some? ==> |main.value| == |alt.value| < TWO_32
    ensures ArraysAgree(f) <==> (main.Some? && alt.Some? ==> main.value == alt.value)
  {
    hide Listed, U32At;
    if main.Some? && alt.Some? {
      var n := ArraySizeAt(f, MAIN_HDR);
      assert |main.value| == n == Compared(n);
    }
  }

  /** Reading back a saved list gives every component back, and the parser accepts it exactly when the parts are good:
      checksums right, places in range, both tables equal. */
  lemma SavedThenParsed(crc: Crc32, c: Components)
    requires c.Complete()
    ensures var f := SavedFile(crc, c);
      Inside(f) && Loaded(f) == GlobalsOf(c) && (Accepts(crc, f) <==> c.Good(crc))
  {
    SavedInside(crc, c);
    SavedArraysAgree(crc, c);
    TableChecks(crc, c, MAIN_HDR, c.main);
    TableChecks(crc, c, ALT_HDR, c.alt);
    SavedLoaded(crc, c);
    SavedParams(crc, c);
    hide SavedFile, Listed, Position, Shape, Components.Sized, Inside, HeaderOk, ArrayOk, ArraysAgree, PwdGood,
         Components.GptGood;
  }

  lemma SavedParams(crc: Crc32, c: Components)
    requires c.Complete() && Inside(SavedFile(crc, c))
    ensures var f := SavedFile(crc, c);
      && (Is(f, RND, DE_RND) ==> Listed(f, RND).length == 512)
      && (Is(f, PWD_CACHE, DE_PWD_CACHE) <==> c.pwdCache.Some?)
      && (c.pwdCache.Some? ==> BlockAt(f, PWD_CACHE) == c.pwdCache.value)
  {
    hide SavedFile, Listed, Position, Components.Sized;
    ItemSaved(crc, c, RND);
    ItemSaved(crc, c, PWD_CACHE);
    BlockSaved(crc, c, PWD_CACHE);
  }

  lemma SavedLoaded(crc: Crc32, c: Components)
    requires c.Complete() && Inside(SavedFile(crc, c))
    ensures Loaded(SavedFile(crc, c)) == GlobalsOf(c)
  {
    hide SavedFile, Listed, Position, Components.Sized, Inside, StartOf;
    EntrySaved(crc, c, DISK_ID);
    TableSaved(crc, c, MAIN_HDR, c.main);
    TableSaved(crc, c, ALT_HDR, c.alt);
    BlockSaved(crc, c, EXEC);
    BlockSaved(crc, c, PWD_CACHE);
    BlockSaved(crc, c, RND);
  }

  /** Without a crypto header the list comes first, so the parser takes the list for the crypto header, and the main GPT
      header, if there is one, for the list: every entry it sees is a piece of that header. */
  lemma NoHeaderMisplacesList(crc: Crc32, c: Components)
    requires c.Sized() && c.cryptoHeader.None?
    ensures |SavedFile(crc, c)| >= 512 && SavedFile(crc, c)[..512] == ListOf(crc, c)
    ensures Inside(SavedFile(crc, c)) ==> Loaded(SavedFile(crc, c)).cryptoHeader == ListOf(crc, c)
    ensures c.main.Some? ==>
      |SavedFile(crc, c)| >= 1024
      && forall i :: 0 <= i < 15 ==> RawAt(SavedFile(crc, c), i) == c.main.value.hdr[32 + 32 * i..64 + 32 * i]
  {
    hide ListOf, Inside, FileOf;
    ListFirst(crc, c);
    if c.main.Some? {
      HeaderSecond(crc, c);
      forall i | 0 <= i < 15
        ensures RawAt(SavedFile(crc, c), i) == c.main.value.hdr[32 + 32 * i..64 + 32 * i]
      {
        hide SavedFile;
        SliceOfSlice(SavedFile(crc, c), 512, 512, 32 + 32 * i, 64 + 32 * i);
      }
    }
  }

  lemma ListFirst(crc: Crc32, c: Components)
    requires c.Sized() && c.cryptoHeader.None?
    ensures |SavedFile(crc, c)| >= 512 && SavedFile(crc, c)[..512] == ListOf(crc, c)
  {
    hide ListOf;
    var parts := Parts(c, ListOf(crc, c));
    PartRead(parts, TOTAL, LIST);
    assert Position(parts, LIST) == PaddedSize(parts[0]) == 0;
  }

  lemma HeaderSecond(crc: Crc32, c: Components)
    requires c.Sized() && c.cryptoHeader.None? && c.main.Some?
    ensures |SavedFile(crc, c)| >= 1024 && SavedFile(crc, c)[512..1024] == c.main.value.hdr
  {
    hide ListOf;
    var parts := Parts(c, ListOf(crc, c));
    PartRead(parts, TOTAL, MAIN_HDR);
    assert Position(parts, 1) == PaddedSize(parts[0]) == 0;
    assert Position(parts, 2) == PaddedSize(parts[1]) == 512;
    assert Position(parts, 3) == 512;
  }

  /** The two routines one after the other. */
  method SaveAndParse(crc: Crc32, c: Components) returns (ok: bool, g: Globals)
    requires c.Complete()
    ensures ok <==> PartsRight(crc, c)
    ensures ok ==> g == GlobalsOf(c)
  {
    hide SavedFile, Inside, Accepts, Loaded, GlobalsOf, Components.Good, Components.Sized, PartsRight, Trusted,
         SavedRight;
    GoodExactly(crc, c);
    var file := DeListSaveToFile(crc, c);
    var deBuffer := new byte[|file|](i requires 0 <= i < |file| => file[i]);
    assert deBuffer[..] == file;
    SavedThenParsed(crc, c);
    ok, g := DeListParseSaved(crc, deBuffer);
  }
}
