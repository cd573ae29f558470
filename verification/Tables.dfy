/** The EFI tables container as the firmware edits it in place (GptRead.c, lines 27-83 and 214-364; GptEdit.c, lines
    749-928). */
module Tables {
  import opened Bytes
  import opened TableSpec
  import opened TableLayout

  /** CopyMem into a byte buffer. */
  method CopyMem(raw: array<byte>, at: nat, piece: seq<byte>)
    requires at + |piece| <= raw.Length
    modifies raw
    ensures raw[..] == Splice(old(raw[..]), at, piece)
  {
    forall i | 0 <= i < |piece| {
      raw[at + i] := piece[i];
    }
    assert raw[at..at + |piece|] == piece;
    assert raw[..] == Splice(old(raw[..]), at, piece);
  }

  /** GptHeaderCheckCrcAltSize: the CRC field is cleared for the computation and put back. */
  method GptHeaderCheckCrcAltSize(crc: Crc32, raw: array<byte>, pos: nat, maxSize: nat, size: u32) returns (ok: bool)
    requires pos + 20 <= raw.Length
    requires (maxSize != 0 && size > maxSize) || pos + size <= raw.Length
    modifies raw
    ensures raw[..] == old(raw[..])
    ensures ok <==>
      (size != 0 && !(maxSize != 0 && size > maxSize)
       && CrcAt(old(raw[..]), pos) == crc(Blank(old(raw[..])[pos..pos + size])))
  {
    if size == 0 {
      return false;
    }
    if maxSize != 0 && size > maxSize {
      return false;
    }
    ghost var was := raw[..];
    var orgCrc := raw[pos + OFFSET_CRC..pos + OFFSET_CRC + 4];
    CopyMem(raw, pos + OFFSET_CRC, [0, 0, 0, 0]);
    assert raw[pos..pos + size] == Blank(was[pos..pos + size]) by {
      var z := Splice(was, pos + OFFSET_CRC, [0, 0, 0, 0]);
      assert forall i :: pos + 16 <= i < pos + 20 ==> z[i] == z[pos + 16..pos + 20][i - pos - 16];
      assert raw[..] == z;
    }
    var computed := crc(raw[pos..pos + size]);
    CopyMem(raw, pos + OFFSET_CRC, orgCrc);
    assert raw[..] == was by {
      var z := Splice(was, pos + OFFSET_CRC, [0, 0, 0, 0]);
      var y := Splice(z, pos + OFFSET_CRC, orgCrc);
      assert forall i :: pos + 16 <= i < pos + 20 ==> y[i] == y[pos + 16..pos + 20][i - pos - 16];
      assert y == was;
    }
    ok := FromLe32(orgCrc) == computed;
  }

  /** The HeaderSize field. */
  method ReadSize(raw: array<byte>, pos: nat) returns (size: u32)
    requires pos + 20 <= raw.Length
    ensures size == SizeAt(raw[..], pos)
  {
    assert raw[..][pos + OFFSET_SIZE..pos + OFFSET_SIZE + 4] == raw[pos + OFFSET_SIZE..pos + OFFSET_SIZE + 4];
    size := FromLe32(raw[pos + OFFSET_SIZE..pos + OFFSET_SIZE + 4]);
  }

  /** The Signature field. */
  method ReadSign(raw: array<byte>, pos: nat) returns (sign: Sign)
    requires pos + 20 <= raw.Length
    ensures sign == raw[..][pos..pos + 8]
  {
    assert raw[..][pos..pos + 8] == raw[pos..pos + 8];
    sign := raw[pos..pos + 8];
  }

  method GptHeaderCheckCrc(crc: Crc32, raw: array<byte>, pos: nat, maxSize: nat) returns (ok: bool)
    requires Readable(raw[..], pos, maxSize)
    modifies raw
    ensures raw[..] == old(raw[..])
    ensures ok <==> CrcOk(crc, raw[..], pos, maxSize)
  {
    ghost var was := raw[..];
    var size := ReadSize(raw, pos);
    ok := GptHeaderCheckCrcAltSize(crc, raw, pos, maxSize, size);
  }

  /** The signature and CRC of the outer header are as they should be. */
  predicate GoodOuter(crc: Crc32, s: seq<byte>, maxSize: nat)
    requires 20 <= |s| && (s[..8] == EFITABLE ==> Readable(s, 0, maxSize))
  {
    s[..8] == EFITABLE && CrcOk(crc, s, 0, maxSize)
  }

  /** Every header that a walk reaches lies in the buffer. */
  predicate StaysInside(crc: Crc32, s: seq<byte>, maxSize: nat, sign: Option<Sign>) {
    && 20 <= |s|
    && (s[..8] == EFITABLE ==> Readable(s, 0, maxSize))
    && (GoodOuter(crc, s, maxSize) ==> WalkFrom(crc, s, SizeAt(s, 0), HEADER, sign) != Outside)
  }

  /** What TablesVerify accepts. */
  predicate Accepted(crc: Crc32, s: seq<byte>, maxSize: nat)
    requires StaysInside(crc, s, maxSize, None)
  {
    GoodOuter(crc, s, maxSize) && WalkFrom(crc, s, SizeAt(s, 0), HEADER, None) == Sound
  }

  // ---- what is accepted, in bytes ----

  lemma ZeroedIsBlank(s: seq<byte>)
    ensures Zeroed(s) == Blank(s)
  {
  }

  lemma CrcOkExactly(crc: Crc32, s: seq<byte>, pos: nat, maxSize: nat)
    requires Readable(s, pos, maxSize)
    ensures CrcOk(crc, s, pos, maxSize) <==> ChecksumRight(crc, s, pos, if maxSize == 0 then |s| else pos + maxSize)
    ensures pos + 20 <= |s| && SizeAt(s, pos) == WordAt(s, pos + 12)
  {
    hide Blank, Zeroed, FromLe32, WordAt;
    WordIsLe(s, pos + 12);
    WordIsLe(s, pos + 16);
    if pos + SizeAt(s, pos) <= |s| {
      ZeroedIsBlank(s[pos..pos + SizeAt(s, pos)]);
    }
  }

  /** One turn of a walk, in bytes. */
  lemma WalkTurn(crc: Crc32, s: seq<byte>, rawSize: nat, tpos: nat, sign: Option<Sign>) returns (next: nat)
    requires tpos < rawSize <= |s| && WalkFrom(crc, s, rawSize, tpos, sign) != Outside
    ensures tpos + 20 <= |s| && next == tpos + WordAt(s, tpos + 12)
    ensures ChecksumRight(crc, s, tpos, rawSize) ==> tpos < next <= rawSize
    ensures WalkFrom(crc, s, rawSize, tpos, sign)
         == if !ChecksumRight(crc, s, tpos, rawSize) then Broken
            else if sign.Some? && s[tpos..tpos + 8] == sign.value then Found(tpos, next - tpos)
            else WalkFrom(crc, s, rawSize, next, sign)
  {
    hide WalkFrom, CrcOk, SizeAt, WordAt, Zeroed, Readable;
    WalkUnfolds(crc, s, rawSize, tpos, sign);
    CrcOkExactly(crc, s, tpos, rawSize - tpos);
    next := tpos + WordAt(s, tpos + 12);
  }

  lemma WalkEnds(crc: Crc32, s: seq<byte>, rawSize: nat, tpos: nat)
    requires rawSize <= |s| && rawSize <= tpos
    ensures WalkFrom(crc, s, rawSize, tpos, None) == Sound && ChainRight(crc, s, tpos, rawSize)
  {
  }

  lemma {:induction false} WalkIsChain(crc: Crc32, s: seq<byte>, rawSize: nat, tpos: nat)
    requires rawSize <= |s| && WalkFrom(crc, s, rawSize, tpos, None) != Outside
    ensures WalkFrom(crc, s, rawSize, tpos, None) == Sound <==> ChainRight(crc, s, tpos, rawSize)
    decreases rawSize - tpos
  {
    hide *;
    if tpos >= rawSize {
      WalkEnds(crc, s, rawSize, tpos);
    } else {
      var next := WalkTurn(crc, s, rawSize, tpos, None);
      ChainTurn(crc, s, tpos, rawSize);
      if ChecksumRight(crc, s, tpos, rawSize) {
        WalkIsChain(crc, s, rawSize, next);
      }
    }
  }

  lemma ChainTurn(crc: Crc32, s: seq<byte>, pos: nat, end: nat)
    requires pos < end && pos + 20 <= |s|
    ensures ChainRight(crc, s, pos, end)
       <==> ChecksumRight(crc, s, pos, end) && ChainRight(crc, s, pos + WordAt(s, pos + 12), end)
  {
  }

  /** What a search finds: a record with the signature and its own checksum, in a container with its own. */
  lemma {:induction false} WalkFinds(crc: Crc32, s: seq<byte>, rawSize: nat, tpos: nat, sign: Sign)
    requires rawSize <= |s| && WalkFrom(crc, s, rawSize, tpos, Some(sign)).Found?
    ensures var w := WalkFrom(crc, s, rawSize, tpos, Some(sign));
      && tpos <= w.pos && ChecksumRight(crc, s, w.pos, rawSize)
      && s[w.pos..w.pos + 8] == sign && w.size == WordAt(s, w.pos + 12)
    decreases rawSize - tpos
  {
    hide *;
    NotFoundBehind(crc, s, rawSize, tpos, sign);
    var next := WalkTurn(crc, s, rawSize, tpos, Some(sign));
    if s[tpos..tpos + 8] != sign {
      WalkFinds(crc, s, rawSize, next, sign);
    }
  }

  lemma NotFoundBehind(crc: Crc32, s: seq<byte>, rawSize: nat, tpos: nat, sign: Sign)
    requires rawSize <= |s| && WalkFrom(crc, s, rawSize, tpos, Some(sign)).Found?
    ensures tpos < rawSize
  {
  }

  lemma FoundIsRight(crc: Crc32, s: seq<byte>, sign: Sign)
    requires StaysInside(crc, s, 0, Some(sign)) && Lookup(crc, s, sign).Found?
    ensures var w := Lookup(crc, s, sign);
      && s[..8] == [0x45, 0x46, 0x49, 0x54, 0x41, 0x42, 0x4C, 0x45] && ChecksumRight(crc, s, 0, |s|)
      && 24 <= w.pos && ChecksumRight(crc, s, w.pos, WordAt(s, 12))
      && s[w.pos..w.pos + 8] == sign && w.size == WordAt(s, w.pos + 12)
  {
    hide CrcOk, ChecksumRight, WordAt, SizeAt, WalkFrom;
    CrcOkExactly(crc, s, 0, 0);
    OuterFits(crc, s, 0);
    WalkFinds(crc, s, SizeAt(s, 0), HEADER, sign);
  }

  /** TablesVerify accepts exactly the byte strings that are sound. */
  lemma AcceptedExactly(crc: Crc32, s: seq<byte>, maxSize: nat)
    requires StaysInside(crc, s, maxSize, None)
    ensures Accepted(crc, s, maxSize) <==> SoundBytes(crc, s, maxSize)
  {
    hide CrcOk, ChecksumRight, WordAt, SizeAt, WalkFrom, ChainRight, Readable;
    if s[..8] == EFITABLE {
      CrcOkExactly(crc, s, 0, maxSize);
      if CrcOk(crc, s, 0, maxSize) {
        OuterFits(crc, s, maxSize);
        WalkIsChain(crc, s, SizeAt(s, 0), HEADER);
      }
    }
  }

  lemma OuterFits(crc: Crc32, s: seq<byte>, maxSize: nat)
    requires Readable(s, 0, maxSize) && CrcOk(crc, s, 0, maxSize)
    ensures SizeAt(s, 0) <= |s|
  {
  }

  lemma WalkUnfolds(crc: Crc32, s: seq<byte>, rawSize: nat, tpos: nat, sign: Option<Sign>)
    requires tpos < rawSize <= |s| && WalkFrom(crc, s, rawSize, tpos, sign) != Outside
    ensures Readable(s, tpos, rawSize - tpos) && tpos + 20 <= |s|
    ensures CrcOk(crc, s, tpos, rawSize - tpos) ==> SizeAt(s, tpos) > 0
    ensures WalkFrom(crc, s, rawSize, tpos, sign)
         == if !CrcOk(crc, s, tpos, rawSize - tpos) then Broken
            else if sign.Some? && s[tpos..tpos + 8] == sign.value then Found(tpos, SizeAt(s, tpos))
            else WalkFrom(crc, s, rawSize, tpos + SizeAt(s, tpos), sign)
  {
  }

  /** The loop over the records: TablesVerify runs it to the end, the searches to the first match. */
  method WalkTables(crc: Crc32, tables: array<byte>, rawSize: nat, sign: Option<Sign>) returns (w: Walk)
    requires rawSize <= tables.Length && WalkFrom(crc, tables[..], rawSize, HEADER, sign) != Outside
    modifies tables
    ensures tables[..] == old(tables[..])
    ensures w == WalkFrom(crc, tables[..], rawSize, HEADER, sign)
  {
    hide SizeAt, CrcOk, Readable;
    ghost var s := tables[..];
    var tpos := HEADER;
    while tpos < rawSize
      invariant tables[..] == s
      invariant WalkFrom(crc, s, rawSize, tpos, sign) == WalkFrom(crc, s, rawSize, HEADER, sign)
      decreases rawSize - tpos
    {
      WalkUnfolds(crc, s, rawSize, tpos, sign);
      hide WalkFrom;
      var good := GptHeaderCheckCrc(crc, tables, tpos, rawSize - tpos);
      if !good {
        return Broken;
      }
      var size: nat := ReadSize(tables, tpos);
      if sign.Some? {
        var signature := ReadSign(tables, tpos);
        if signature == sign.value {
          return Found(tpos, size);
        }
      }
      tpos := tpos + size;
    }
    return Sound;
  }

  method TablesVerify(crc: Crc32, tables: array?<byte>, maxSize: nat) returns (ok: bool)
    requires tables != null ==> StaysInside(crc, tables[..], maxSize, None)
    modifies tables
    ensures tables != null ==> tables[..] == old(tables[..])
    ensures ok <==> tables != null && Accepted(crc, tables[..], maxSize)
    ensures ok <==> tables != null && SoundBytes(crc, tables[..], maxSize)
  {
    hide SoundBytes;
    if tables == null {
      return false;
    }
    ghost var s := tables[..];
    AcceptedExactly(crc, s, maxSize);
    var outer := ReadSign(tables, 0);
    if outer != EFITABLE {
      return false;
    }
    var good := GptHeaderCheckCrc(crc, tables, 0, maxSize);
    if !good {
      return false;
    }
    var rawSize: nat := ReadSize(tables, 0);
    var w := WalkTables(crc, tables, rawSize, None);
    ok := w == Sound;
  }

  /** What TablesGetData and TablesDelete look for: the first record with the signature, in a good container. */
  function Lookup(crc: Crc32, s: seq<byte>, sign: Sign): Walk
    requires StaysInside(crc, s, 0, Some(sign))
  {
    if GoodOuter(crc, s, 0) then WalkFrom(crc, s, SizeAt(s, 0), HEADER, Some(sign)) else Broken
  }

  /** The search TablesGetData and TablesDelete begin with. */
  method FindTable(crc: Crc32, tables: array<byte>, sign: Sign) returns (found: bool, tpos: nat, size: nat)
    requires StaysInside(crc, tables[..], 0, Some(sign))
    modifies tables
    ensures tables[..] == old(tables[..])
    ensures found <==> Lookup(crc, tables[..], sign).Found?
    ensures found ==> Lookup(crc, tables[..], sign) == Found(tpos, size)
    ensures found ==> HEADER <= tpos && tpos + size <= SizeAt(tables[..], 0) <= tables.Length
  {
    ghost var s := tables[..];
    found, tpos, size := false, HEADER, 0;
    var outer := ReadSign(tables, 0);
    if outer != EFITABLE {
      return;
    }
    var good := GptHeaderCheckCrc(crc, tables, 0, 0);
    if !good {
      return;
    }
    var rawSize: nat := ReadSize(tables, 0);
    var w := WalkTables(crc, tables, rawSize, Some(sign));
    if w.Found? {
      found, tpos, size := true, w.pos, w.size;
    }
  }

  /** `data` and `size` as the caller gets them; the size is a UINTN difference. */
  method TablesGetData(crc: Crc32, tables: array?<byte>, sign: Sign) returns (found: bool, data: nat, size: nat)
    requires tables != null ==> StaysInside(crc, tables[..], 0, Some(sign))
    modifies tables
    ensures tables != null ==> tables[..] == old(tables[..])
    ensures found <==> tables != null && Lookup(crc, tables[..], sign).Found?
    ensures found ==>
      var w := Lookup(crc, tables[..], sign);
      data == w.pos + HEADER && size == (w.size - HEADER) % TWO_64
    ensures found ==>
      && data >= 48 && ChecksumRight(crc, tables[..], 0, tables.Length)
      && ChecksumRight(crc, tables[..], data - 24, WordAt(tables[..], 12))
      && tables[..][data - 24..data - 16] == sign
      && size == (WordAt(tables[..], data - 12) - 24) % 0x1_0000_0000_0000_0000
  {
    hide WordAt, Lookup, StaysInside, Zeroed;
    found, data, size := false, 0, 0;
    if tables != null {
      var tpos, n;
      found, tpos, n := FindTable(crc, tables, sign);
      data, size := tpos + HEADER, (n - HEADER) % TWO_64;
      if found {
        FoundIsRight(crc, tables[..], sign);
      }
    }
  }

  /** The byte-by-byte shift of TablesDelete. */
  method ShiftDown(raw: array<byte>, to: nat, from: nat, end: nat)
    requires to <= from <= end <= raw.Length
    modifies raw
    ensures raw[..to] == old(raw[..to])
    ensures raw[to..end - (from - to)] == old(raw[from..end])
  {
    ghost var was := raw[..];
    var tpos, pos := to, from;
    while pos < end
      invariant from <= pos <= end && tpos == to + (pos - from)
      invariant raw[..to] == was[..to]
      invariant raw[to..tpos] == was[from..pos]
      invariant raw[pos..] == was[pos..]
    {
      assert raw[pos] == raw[pos..][0] == was[pos..][0] == was[pos];
      assert was[from..pos + 1] == was[from..pos] + [was[pos]];
      raw[tpos] := raw[pos];
      assert raw[to..tpos + 1] == raw[to..tpos] + [was[pos]];
      assert raw[pos + 1..] == was[pos + 1..];
      tpos := tpos + 1;
      pos := pos + 1;
    }
  }

  /** Size field, cleared CRC field, CRC: the way both edits close. */
  method Reseal(crc: Crc32, raw: array<byte>, size: nat)
    requires HEADER <= size <= raw.Length && size < TWO_32
    modifies raw
    ensures raw[..size] == Resealed(crc, old(raw[..size]))
  {
    ghost var body := raw[..size];
    CopyMem(raw, OFFSET_SIZE, Le32(size));
    assert raw[..size] == Splice(body, OFFSET_SIZE, Le32(size));
    CopyMem(raw, OFFSET_CRC, [0, 0, 0, 0]);
    ghost var sized := Splice(Splice(body, OFFSET_SIZE, Le32(size)), OFFSET_CRC, [0, 0, 0, 0]);
    assert raw[..size] == sized;
    var c := crc(raw[..size]);
    CopyMem(raw, OFFSET_CRC, Le32(c));
    assert raw[..size] == Splice(sized, OFFSET_CRC, Le32(c));
  }

  /** The first record of the signature is gone and the rest resealed; bytes behind the new end do not matter. */
  predicate ResultOfDelete(crc: Crc32, s: seq<byte>, sign: Sign, now: seq<byte>)
    requires StaysInside(crc, s, 0, Some(sign)) && Lookup(crc, s, sign).Found?
  {
    var rawSize, w := SizeAt(s, 0), Lookup(crc, s, sign);
    && |now| == |s|
    && now[..rawSize - w.size] == Resealed(crc, s[..w.pos] + s[w.pos + w.size..rawSize])
  }

  method CutAndReseal(crc: Crc32, raw: array<byte>, at: nat, size: nat, rawSize: nat)
    requires HEADER <= at && at + size <= rawSize <= raw.Length && rawSize < TWO_32
    modifies raw
    ensures raw[..rawSize - size] == Resealed(crc, old(raw[..at]) + old(raw[at + size..rawSize]))
  {
    hide Resealed;
    ShiftDown(raw, at, at + size, rawSize);
    assert raw[..rawSize - size] == raw[..at] + raw[at..rawSize - size];
    Reseal(crc, raw, rawSize - size);
  }

  /** Deleting cuts the first record of the signature out, in place; the buffer keeps its length. */
  method TablesDelete(crc: Crc32, tables: array<byte>, sign: Sign) returns (ok: bool)
    requires StaysInside(crc, tables[..], 0, Some(sign))
    modifies tables
    ensures ok <==> Lookup(crc, old(tables[..]), sign).Found?
    ensures !ok ==> tables[..] == old(tables[..])
    ensures ok ==> ResultOfDelete(crc, old(tables[..]), sign, tables[..])
  {
    hide SizeAt, Resealed, GoodOuter, StaysInside, WalkFrom, Lookup;
    ghost var s := tables[..];
    var found, tpos, size := FindTable(crc, tables, sign);
    if !found {
      return false;
    }
    var rawSize: nat := ReadSize(tables, 0);
    assert tables[..tpos] == s[..tpos] && tables[tpos + size..rawSize] == s[tpos + size..rawSize];
    CutAndReseal(crc, tables, tpos, size, rawSize);
    assert tables[..][..rawSize - size] == tables[..rawSize - size];
    ok := true;
  }

  /** The new record of TablesAppend, built in memory that keeps its revision and reserved fields. */
  method BuildRecord(crc: Crc32, raw: array<byte>, at: nat, sign: Sign, data: seq<byte>)
    requires at + HEADER + |data| <= raw.Length && HEADER + |data| < TWO_32
    modifies raw
    ensures raw[..at] == old(raw[..at])
    ensures raw[at..at + HEADER + |data|]
         == Sealed(crc, Table(sign, old(raw[at + 8..at + 12]), old(raw[at + 20..at + 24]), data))
  {
    hide Splice, Unsealed, Le32;
    var n := HEADER + |data|;
    ghost var t := Table(sign, raw[at + 8..at + 12], raw[at + 20..at + 24], data);
    ghost var m := raw[..];
    CopyMem(raw, at + OFFSET_SIZE, Le32(n));
    CopyMem(raw, at, sign);
    CopyMem(raw, at + HEADER, data);
    CopyMem(raw, at + OFFSET_CRC, [0, 0, 0, 0]);
    ghost var u := raw[..];
    assert u == Written(m, at, sign, data);
    hide Written;
    WrittenBefore(m, at, sign, data);
    Built(m, at, t);
    assert raw[at..at + n] == u[at..at + n];
    SealRecord(crc, raw, at, n);
  }

  lemma WrittenBefore(m: seq<byte>, at: nat, sign: Sign, data: seq<byte>)
    requires at + HEADER + |data| <= |m| && HEADER + |data| < TWO_32
    ensures Written(m, at, sign, data)[..at] == m[..at]
  {
  }

  /** The CRC of a record whose CRC field is clear. */
  method SealRecord(crc: Crc32, raw: array<byte>, at: nat, n: nat)
    requires HEADER <= n && at + n <= raw.Length
    modifies raw
    ensures raw[..at] == old(raw[..at])
    ensures raw[at..at + n] == Splice(old(raw[at..at + n]), OFFSET_CRC, Le32(crc(old(raw[at..at + n]))))
  {
    ghost var u := raw[..];
    assert raw[at..at + n] == u[at..at + n] && raw[..at] == u[..at];
    var c := crc(raw[at..at + n]);
    CopyMem(raw, at + OFFSET_CRC, Le32(c));
    Closing(u, at, n, Le32(c), raw[..]);
    assert raw[at..at + n] == raw[..][at..at + n] && raw[..at] == raw[..][..at];
  }

  lemma SpliceKeeps(s: seq<byte>, at: nat, piece: seq<byte>, i: nat, j: nat)
    requires at + |piece| <= |s| && i <= j <= |s| && (j <= at || at + |piece| <= i)
    ensures Splice(s, at, piece)[i..j] == s[i..j]
  {
  }

  /** The four writes that build a record at `at`. */
  function Written(m: seq<byte>, at: nat, sign: Sign, data: seq<byte>): (u: seq<byte>)
    requires at + HEADER + |data| <= |m| && HEADER + |data| < TWO_32
    ensures |u| == |m|
  {
    Splice(Splice(Splice(Splice(m, at + OFFSET_SIZE, Le32(HEADER + |data|)), at, sign), at + HEADER, data),
           at + OFFSET_CRC, [0, 0, 0, 0])
  }

  /** The fields that are written, */
  lemma WrittenFields(m: seq<byte>, at: nat, sign: Sign, data: seq<byte>)
    requires at + HEADER + |data| <= |m| && HEADER + |data| < TWO_32
    ensures var u := Written(m, at, sign, data);
      && u[at..at + 8] == sign && u[at + 12..at + 16] == Le32(HEADER + |data|) && u[at + 16..at + 20] == [0, 0, 0, 0]
      && u[at + 24..at + HEADER + |data|] == data
  {
    hide Splice, Le32;
    var n := HEADER + |data|;
    var a := Splice(m, at + OFFSET_SIZE, Le32(n));
    var b := Splice(a, at, sign);
    var c := Splice(b, at + HEADER, data);
    SpliceKeeps(a, at, sign, at + 12, at + 16);
    SpliceKeeps(b, at + HEADER, data, at, at + 8);
    SpliceKeeps(b, at + HEADER, data, at + 12, at + 16);
    SpliceKeeps(c, at + OFFSET_CRC, [0, 0, 0, 0], at, at + 8);
    SpliceKeeps(c, at + OFFSET_CRC, [0, 0, 0, 0], at + 12, at + 16);
    SpliceKeeps(c, at + OFFSET_CRC, [0, 0, 0, 0], at + 24, at + n);
  }

  /** and the two that are not. */
  lemma KeptField(m: seq<byte>, at: nat, sign: Sign, data: seq<byte>, i: nat, j: nat)
    requires at + HEADER + |data| <= |m| && HEADER + |data| < TWO_32
    requires (i == 8 && j == 12) || (i == 20 && j == 24)
    ensures Written(m, at, sign, data)[at + i..at + j] == m[at + i..at + j]
  {
    hide Splice, Le32;
    var a := Splice(m, at + OFFSET_SIZE, Le32(HEADER + |data|));
    var b := Splice(a, at, sign);
    var c := Splice(b, at + HEADER, data);
    SpliceKeeps(m, at + OFFSET_SIZE, Le32(HEADER + |data|), at + i, at + j);
    SpliceKeeps(a, at, sign, at + i, at + j);
    SpliceKeeps(b, at + HEADER, data, at + i, at + j);
    SpliceKeeps(c, at + OFFSET_CRC, [0, 0, 0, 0], at + i, at + j);
  }

  lemma Built(m: seq<byte>, at: nat, t: Record)
    requires at + HEADER + |t.data| <= |m| && t.revision == m[at + 8..at + 12] && t.reserved == m[at + 20..at + 24]
    ensures Written(m, at, t.sign, t.data)[at..at + HEADER + |t.data|] == Unsealed(t)
  {
    hide Written, Unsealed, Splice, Le32;
    UnsealedFields(t);
    WrittenFields(m, at, t.sign, t.data);
    KeptField(m, at, t.sign, t.data, 8, 12);
    KeptField(m, at, t.sign, t.data, 20, 24);
    FromPiecesAt(Written(m, at, t.sign, t.data), at, Unsealed(t));
  }

  lemma Closing(u: seq<byte>, at: nat, n: nat, c: seq<byte>, v: seq<byte>)
    requires |c| == 4 && n >= 20 && at + n <= |u| && v == Splice(u, at + OFFSET_CRC, c)
    ensures v[..at] == u[..at] && v[at..at + n] == Splice(u[at..at + n], OFFSET_CRC, c)
  {
    var x, y := v[at..at + n], Splice(u[at..at + n], OFFSET_CRC, c);
    forall i | 0 <= i < n ensures x[i] == y[i] {
      assert x[i] == v[at + i] && u[at..at + n][i] == u[at + i];
      if OFFSET_CRC <= i < OFFSET_CRC + 4 {
        assert v[at + OFFSET_CRC..at + OFFSET_CRC + 4][i - OFFSET_CRC] == c[i - OFFSET_CRC];
        assert y[OFFSET_CRC..OFFSET_CRC + 4][i - OFFSET_CRC] == c[i - OFFSET_CRC];
      }
    }
  }

  /** The successful part of TablesAppend: a longer buffer, the record behind the old bytes, all resealed. */
  method Extended(crc: Crc32, tables: array<byte>, rawSize: nat, sign: Sign, data: seq<byte>)
    returns (raw: array<byte>, ghost added: Table)
    requires HEADER <= rawSize <= tables.Length && rawSize + HEADER + |data| < TWO_32
    ensures fresh(raw) && added.sign == sign && added.data == data
    ensures raw[..] == Resealed(crc, tables[..rawSize] + Sealed(crc, added))
  {
    var n := rawSize + HEADER + |data|;
    raw := new byte[n];
    CopyMem(raw, 0, tables[..rawSize]);
    assert raw[..rawSize] == tables[..rawSize];
    added := Table(sign, raw[rawSize + 8..rawSize + 12], raw[rawSize + 20..rawSize + 24], data);
    hide Sealed, Resealed, Splice;
    BuildRecord(crc, raw, rawSize, sign, data);
    assert raw[..n] == raw[..rawSize] + raw[rawSize..n];
    assert raw[..n] == tables[..rawSize] + Sealed(crc, added);
    Reseal(crc, raw, n);
    assert raw[..n] == raw[..];
  }

  /** Appending seals the new record behind the container, in a reallocated buffer; the record keeps whatever
      the new memory held in its revision and reserved fields. An allocation of 4 GiB or more fails. */
  method TablesAppend(crc: Crc32, tables: array?<byte>, sign: Sign, data: seq<byte>)
    returns (ok: bool, out: array?<byte>, ghost added: Table)
    requires tables != null ==> StaysInside(crc, tables[..], 0, None)
    requires tables != null && GoodOuter(crc, tables[..], 0) ==> SizeAt(tables[..], 0) >= HEADER
    modifies tables
    ensures tables != null ==> tables[..] == old(tables[..])
    ensures ok <==>
      (tables != null && GoodOuter(crc, tables[..], 0) && SizeAt(tables[..], 0) + HEADER + |data| < TWO_32)
    ensures ok ==> out != null && fresh(out) && added.sign == sign && added.data == data && HEADER + |data| < TWO_32
    ensures ok ==> out[..] == Resealed(crc, tables[..][..SizeAt(tables[..], 0)] + Sealed(crc, added))
  {
    ok, out := false, tables;
    added := Table(sign, Zeros(4), Zeros(4), data);
    if tables == null {
      return;
    }
    var outer := ReadSign(tables, 0);
    if outer != EFITABLE {
      return;
    }
    var good := GptHeaderCheckCrc(crc, tables, 0, 0);
    if !good {
      return;
    }
    var rawSize: nat := ReadSize(tables, 0);
    // MEM_REALLOC
    if rawSize + HEADER + |data| >= TWO_32 {
      return;
    }
    assert tables[..rawSize] == tables[..][..rawSize];
    hide SizeAt, Sealed, Resealed, GoodOuter, StaysInside;
    out, added := Extended(crc, tables, rawSize, sign, data);
    ok := true;
  }

  // ---- containers are what these routines accept and search ----

  /** A container is accepted by TablesVerify, and TablesGetData finds exactly what the map holds: the bytes it
      points at are the data of the signature, and it finds nothing for any other signature. */
  lemma ContainerIsMap(crc: Crc32, revision: Word, reserved: Word, rs: seq<Record>, sign: Sign)
    requires HEADER + |All(crc, rs)| < TWO_32
    ensures var s := Container(crc, revision, reserved, rs);
      && StaysInside(crc, s, |s|, None) && Accepted(crc, s, |s|)
      && StaysInside(crc, s, 0, None) && StaysInside(crc, s, 0, Some(sign)) && GoodOuter(crc, s, 0)
      && SizeAt(s, 0) == |s|
      && Lookup(crc, s, sign) == Search(HEADER, rs, Some(sign))
      && (Lookup(crc, s, sign).Found? <==> sign in Meaning(rs))
      && (sign in Meaning(rs) ==>
            var w := Lookup(crc, s, sign); HEADER <= w.size && s[w.pos + HEADER..w.pos + w.size] == Meaning(rs)[sign])
  {
    var s := Container(crc, revision, reserved, rs);
    ContainerOuter(crc, revision, reserved, rs);
    WalkSearches(crc, s, |s|, HEADER, rs, None);
    WalkSearches(crc, s, |s|, HEADER, rs, Some(sign));
    SearchResult(crc, HEADER, rs, None);
    SearchResult(crc, HEADER, rs, Some(sign));
    MeaningLookup(rs, sign);
    hide Container, CrcOk, SizeAt, Readable, WalkFrom, Search, IndexOf;
    var k := IndexOf(rs, sign);
    if k < |rs| {
      DataAt(crc, s, rs, k);
    }
  }

  /** A saved container with one byte altered behind the size field is refused, unless the CRC cannot tell the two
      apart; with the checksum or the signature altered it always is. */
  lemma AlteredContainer(crc: Crc32, revision: Word, reserved: Word, rs: seq<Record>, i: nat, b: byte)
    requires HEADER + |All(crc, rs)| < TWO_32 && i < |Container(crc, revision, reserved, rs)|
    requires b != Container(crc, revision, reserved, rs)[i]
    ensures var s := Container(crc, revision, reserved, rs);
      var t := s[i := b];
      && SoundBytes(crc, s, |s|)
      && (i < 8 || 16 <= i < 20 || (20 <= i && crc(Zeroed(t)) != crc(Zeroed(s))) ==> !SoundBytes(crc, t, |s|))
  {
    hide *;
    var s := Container(crc, revision, reserved, rs);
    ContainerSound(crc, revision, reserved, rs);
    AlteredRefused(crc, s, |s|, i, b);
    assert s[i := b][..|s|] == s[i := b] && s[..|s|] == s;
  }

  lemma ContainerSound(crc: Crc32, revision: Word, reserved: Word, rs: seq<Record>)
    requires HEADER + |All(crc, rs)| < TWO_32
    ensures var s := Container(crc, revision, reserved, rs);
      |s| >= 20 && SoundBytes(crc, s, |s|) && WordAt(s, 12) == |s|
  {
    hide Container, Accepted, SoundBytes, SizeAt, WordAt, Zeroed, Lookup, Search, Meaning, CrcOk, WalkFrom;
    var s := Container(crc, revision, reserved, rs);
    ContainerIsMap(crc, revision, reserved, rs, EFITABLE);
    AcceptedExactly(crc, s, |s|);
    CrcOkExactly(crc, s, 0, 0);
  }

  lemma ContainerOuter(crc: Crc32, revision: Word, reserved: Word, rs: seq<Record>)
    requires HEADER + |All(crc, rs)| < TWO_32
    ensures var s := Container(crc, revision, reserved, rs);
      && |s| == HEADER + |All(crc, rs)| && s[..8] == EFITABLE && s[HEADER..|s|] == All(crc, rs)
      && Readable(s, 0, |s|) && CrcOk(crc, s, 0, |s|) && Readable(s, 0, 0) && CrcOk(crc, s, 0, 0) && SizeAt(s, 0) == |s|
  {
    var t: Record := Table(EFITABLE, revision, reserved, All(crc, rs));
    var s := Sealed(crc, t);
    assert s[0..|s|] == s;
    RecordAt(crc, s, 0, t, |s|);
    RecordAt(crc, s, 0, t, 0);
  }

  lemma DataAt(crc: Crc32, s: seq<byte>, rs: seq<Record>, k: nat)
    requires k < |rs| && |s| == HEADER + |All(crc, rs)| && s[HEADER..|s|] == All(crc, rs)
    ensures var at := HEADER + OffsetOf(crc, rs, k);
      at + HEADER + |rs[k].data| <= |s| && s[at + HEADER..at + HEADER + |rs[k].data|] == rs[k].data
  {
    hide All, Sealed;
    SplitAll(crc, rs, k);
    MiddlePiece(s, All(crc, rs[..k]), Sealed(crc, rs[k]), All(crc, rs[k + 1..]));
    SealedFields(crc, rs[k]);
    var at, n := HEADER + OffsetOf(crc, rs, k), HEADER + |rs[k].data|;
    SubSlice(s, at, at + n, HEADER, n);
  }

  lemma MiddlePiece(s: seq<byte>, x: seq<byte>, y: seq<byte>, z: seq<byte>)
    requires HEADER <= |s| && s[HEADER..|s|] == x + (y + z)
    ensures HEADER + |x| + |y| <= |s| && s[HEADER + |x|..HEADER + |x| + |y|] == y
  {
    var region := x + (y + z);
    assert region[|x|..|x| + |y|] == y;
    SubSlice(s, HEADER, |s|, |x|, |x| + |y|);
  }

  /** The records left when the one of a signature is taken out. */
  function Others(rs: seq<Record>, sign: Sign): seq<Record> {
    var k := IndexOf(rs, sign);
    if k < |rs| then Without(rs, k) else rs
  }

  /** The container of the given records is what the buffer begins with. */
  ghost predicate Holds(crc: Crc32, revision: Word, reserved: Word, rs: seq<Record>, s: seq<byte>) {
    && HEADER + |All(crc, rs)| < TWO_32 && HEADER + |All(crc, rs)| <= |s|
    && s[..HEADER + |All(crc, rs)|] == Container(crc, revision, reserved, rs)
  }

  /** The same holds of a buffer whose first bytes are a container, as TablesDelete leaves it. */
  lemma PrefixAccepted(crc: Crc32, revision: Word, reserved: Word, rs: seq<Record>, s: seq<byte>, n: nat)
    requires Holds(crc, revision, reserved, rs, s) && n == HEADER + |All(crc, rs)|
    ensures StaysInside(crc, s, 0, None) && GoodOuter(crc, s, 0) && SizeAt(s, 0) == n
  {
    var t: Record := Table(EFITABLE, revision, reserved, All(crc, rs));
    assert s[0..n] == s[..n];
    RecordAt(crc, s, 0, t, 0);
    SealedFields(crc, t);
    SubSlice(s, 0, n, HEADER, n);
    hide Sealed, All, CrcOk;
    WalkSearches(crc, s, n, HEADER, rs, None);
    SearchResult(crc, HEADER, rs, None);
  }

  /** TablesDelete on a container is deletion from the map: it acts when the signature is there ... */
  lemma DeleteOnContainer(crc: Crc32, revision: Word, reserved: Word, rs: seq<Record>, sign: Sign)
    requires HEADER + |All(crc, rs)| < TWO_32 && Distinct(rs)
    ensures StaysInside(crc, Container(crc, revision, reserved, rs), 0, Some(sign))
    ensures Lookup(crc, Container(crc, revision, reserved, rs), sign).Found? <==> sign in Meaning(rs)
    ensures Distinct(Others(rs, sign)) && Meaning(Others(rs, sign)) == Meaning(rs) - {sign}
    ensures sign !in Meaning(rs) ==> Others(rs, sign) == rs
  {
    ContainerIsMap(crc, revision, reserved, rs, sign);
    MeaningLookup(rs, sign);
    hide StaysInside, Container, Distinct, Meaning, Lookup, All, Search, Accepted, GoodOuter, SizeAt;
    var k := IndexOf(rs, sign);
    if k < |rs| {
      MeaningWithout(rs, k);
    }
  }

  lemma LookupFinds(crc: Crc32, revision: Word, reserved: Word, rs: seq<Record>, sign: Sign, k: nat)
    requires HEADER + |All(crc, rs)| < TWO_32 && k == IndexOf(rs, sign) && k < |rs|
    ensures StaysInside(crc, Container(crc, revision, reserved, rs), 0, Some(sign))
    ensures SizeAt(Container(crc, revision, reserved, rs), 0) == |Container(crc, revision, reserved, rs)|
    ensures Lookup(crc, Container(crc, revision, reserved, rs), sign)
         == Found(HEADER + OffsetOf(crc, rs, k), HEADER + |rs[k].data|)
  {
    ContainerIsMap(crc, revision, reserved, rs, sign);
    SearchResult(crc, HEADER, rs, Some(sign));
  }

  /** ... and then leaves a buffer that begins with the container of the other records. */
  lemma DeleteLeaves(crc: Crc32, revision: Word, reserved: Word, rs: seq<Record>, sign: Sign, s: seq<byte>,
                     now: seq<byte>)
    requires HEADER + |All(crc, rs)| < TWO_32 && s == Container(crc, revision, reserved, rs)
    requires IndexOf(rs, sign) < |rs|
    requires StaysInside(crc, s, 0, Some(sign)) && Lookup(crc, s, sign).Found? && ResultOfDelete(crc, s, sign, now)
    ensures Holds(crc, revision, reserved, Others(rs, sign), now)
  {
    hide Resealed, Container, All, IndexOf, Without, OffsetOf, Lookup, StaysInside, SizeAt;
    var k := IndexOf(rs, sign);
    LookupFinds(crc, revision, reserved, rs, sign, k);
    CutOut(crc, revision, reserved, rs, k);
    ContainerLength(crc, revision, reserved, Without(rs, k));
  }

  lemma ContainerLength(crc: Crc32, revision: Word, reserved: Word, rs: seq<Record>)
    requires HEADER + |All(crc, rs)| < TWO_32
    ensures |Container(crc, revision, reserved, rs)| == HEADER + |All(crc, rs)|
  {
  }

  /** TablesAppend on a container without the signature is insertion into the map. */
  lemma AppendOnContainer(crc: Crc32, revision: Word, reserved: Word, rs: seq<Record>, added: Record)
    requires HEADER + |All(crc, rs)| + HEADER + |added.data| < TWO_32 && Distinct(rs) && added.sign !in Meaning(rs)
    ensures Distinct(rs + [added]) && Meaning(rs + [added]) == Meaning(rs)[added.sign := added.data]
    ensures Holds(crc, revision, reserved, rs + [added],
                  Resealed(crc, Container(crc, revision, reserved, rs) + Sealed(crc, added)))
  {
    PutBehind(crc, revision, reserved, rs, added);
    MeaningAppend(rs, added);
    ContainerLength(crc, revision, reserved, rs + [added]);
    hide All, Resealed, Sealed, Container, Distinct, Meaning;
    var c := Container(crc, revision, reserved, rs + [added]);
    assert c[..|c|] == c;
  }

  // ---- the tables file and its two edits ----

  datatype Edit = New(sign: seq<byte>, data: Option<seq<byte>>) | Del(sign: seq<byte>)

  /** The edits that change the file: removals of what is there, and updates that leave the container below 4 GiB. */
  ghost predicate Acts(m: map<Sign, seq<byte>>, e: Edit) {
    |e.sign| == 8
    && match e {
      case New(sign, data) => data.Some? && HEADER + MapSize(m - {sign}) + HEADER + |data.value| < TWO_32
      case Del(sign) => sign in m
    }
  }

  /** What an edit does to the map the file stands for. */
  ghost function Applied(m: map<Sign, seq<byte>>, e: Edit): map<Sign, seq<byte>> {
    if !Acts(m, e) then m
    else match e {
      case New(sign, data) => m[sign := data.value]
      case Del(sign) => m - {sign}
    }
  }

  ghost function AppliedAll(m: map<Sign, seq<byte>>, edits: seq<Edit>): map<Sign, seq<byte>> {
    if edits == [] then m else Applied(AppliedAll(m, edits[..|edits| - 1]), edits[|edits| - 1])
  }

  lemma AppliedNone(m: map<Sign, seq<byte>>)
    ensures AppliedAll(m, []) == m
  {
  }

  lemma AppliedNext(m: map<Sign, seq<byte>>, edits: seq<Edit>, i: nat)
    requires i < |edits|
    ensures AppliedAll(m, edits[..i + 1]) == Applied(AppliedAll(m, edits[..i]), edits[i])
  {
    assert edits[..i + 1][..i] == edits[..i];
  }

  /** TablesLoad, for any file: its bytes, accepted or not by the verification, or a new empty container. */
  method TablesLoad(crc: Crc32, file: Option<seq<byte>>) returns (ok: bool, tables: array<byte>)
    requires file.Some? ==> StaysInside(crc, file.value, |file.value|, None)
    ensures fresh(tables) && tables[..] == if file.Some? then file.value else Container(crc, Zeros(4), Zeros(4), [])
    ensures ok <==> file.None? || Accepted(crc, file.value, |file.value|)
    ensures ok <==> file.None? || SoundBytes(crc, file.value, |file.value|)
  {
    hide Container, Accepted, StaysInside, SoundBytes;
    if file.None? {
      tables := NewContainer(crc);
      ok := true;
    } else {
      tables := new byte[|file.value|];
      CopyMem(tables, 0, file.value);
      assert tables[..] == file.value;
      ok := TablesVerify(crc, tables, tables.Length);
    }
  }

  /** The file DcsTables (absent at first) and the routines that edit it. Saving is taken to succeed. */
  class TablesFile {
    const crc: Crc32
    var file: Option<seq<byte>>
    ghost var revision: Word
    ghost var reserved: Word
    ghost var records: seq<Record>

    ghost predicate Valid()
      reads this
    {
      && Distinct(records) && HEADER + |All(crc, records)| < TWO_32
      && file == if records == [] && file.None? then None else Some(Container(crc, revision, reserved, records))
    }

    ghost function Map(): map<Sign, seq<byte>>
      reads this
    {
      Meaning(records)
    }

    constructor (c: Crc32)
      ensures Valid() && file == None && Map() == map[]
    {
      crc := c;
      file := None;
      revision, reserved, records := Zeros(4), Zeros(4), [];
    }

    /** The file of a valid state is always accepted. */
    method Load() returns (ok: bool, tables: array<byte>)
      requires Valid()
      modifies this`revision, this`reserved
      ensures Valid() && ok && fresh(tables)
      ensures Map() == old(Map())
      ensures tables[..] == Container(crc, revision, reserved, records)
    {
      hide Container, Distinct, All;
      if file.None? {
        revision, reserved := Zeros(4), Zeros(4);
      } else {
        ContainerIsMap(crc, revision, reserved, records, EFITABLE);
      }
      hide Accepted, StaysInside;
      ok, tables := TablesLoad(crc, file);
    }

    /** TablesDelete on the loaded tables: the record goes if it is there. */
    method DeleteLoaded(tables: array<byte>, sign: Sign) returns (ok: bool)
      requires Valid() && tables[..] == Container(crc, revision, reserved, records)
      modifies tables
      ensures ok <==> sign in Map()
      ensures Holds(crc, revision, reserved, Others(records, sign), tables[..])
      ensures Distinct(Others(records, sign)) && Meaning(Others(records, sign)) == Map() - {sign}
    {
      DeleteOnContainer(crc, revision, reserved, records, sign);
      ContainerLength(crc, revision, reserved, records);
      hide Container, All, Distinct, Meaning, Others, StaysInside, Lookup, ResultOfDelete;
      ok := TablesDelete(crc, tables, sign);
      if ok {
        MeaningLookup(records, sign);
        DeleteLeaves(crc, revision, reserved, records, sign, old(tables[..]), tables[..]);
      } else {
        assert tables[..tables.Length] == tables[..];
      }
    }

    method TablesDel(sign: seq<byte>) returns (saved: bool)
      requires Valid()
      modifies this
      ensures Valid()
      ensures saved <==> Acts(old(Map()), Del(sign))
      ensures Map() == Applied(old(Map()), Del(sign))
    {
      hide Container, All, Distinct, Meaning, Others, StaysInside, GoodOuter, SizeAt;
      if |sign| != 8 {
        return false;
      }
      var ok, tables := Load();
      saved := DeleteLoaded(tables, sign);
      if saved {
        PrefixAccepted(crc, revision, reserved, Others(records, sign), tables[..],
                       HEADER + |All(crc, Others(records, sign))|);
        var size := ReadSize(tables, 0);
        assert tables[..][..size] == tables[..size];
        records := Others(records, sign);
        file := Some(tables[..size]);
      }
    }

    method TablesNew(sign: seq<byte>, data: Option<seq<byte>>) returns (saved: bool)
      requires Valid()
      modifies this
      ensures Valid()
      ensures Map() == Applied(old(Map()), New(sign, data))
      // nothing but a bad signature, a missing data file or a container beyond 4 GiB prevents it
      ensures saved <==> Acts(old(Map()), New(sign, data))
    {
      hide Container, All, Distinct, Meaning, Others, Sealed, Resealed, StaysInside, GoodOuter, SizeAt, MapSize;
      if |sign| != 8 {
        return false;
      }
      var _, tables := Load();
      var _ := DeleteLoaded(tables, sign);
      if data.None? {
        return false;
      }
      ghost var rest := Others(records, sign);
      SizeIsMapSize(crc, rest);
      PrefixAccepted(crc, revision, reserved, rest, tables[..], HEADER + |All(crc, rest)|);
      var out;
      ghost var added;
      saved, out, added := TablesAppend(crc, tables, sign, data.value);
      if saved {
        AppendOnContainer(crc, revision, reserved, rest, added);
        PrefixAccepted(crc, revision, reserved, rest + [added], out[..], HEADER + |All(crc, rest + [added])|);
        var size := ReadSize(out, 0);
        assert out[..][..size] == out[..size];
        records := rest + [added];
        file := Some(out[..size]);
      }
    }

    /** Every sequence of edits: the file stays a container, it stands for the map the edits build, and each edit
        reports whether it acted on the map the ones before it had built. */
    method Edit(edits: seq<Edit>) returns (saved: seq<bool>)
      requires Valid()
      modifies this
      ensures Valid() && |saved| == |edits|
      ensures Map() == AppliedAll(old(Map()), edits)
      ensures forall j :: 0 <= j < |edits| ==> (saved[j] <==> Acts(AppliedAll(old(Map()), edits[..j]), edits[j]))
    {
      hide TablesFile.Valid, TablesFile.Map, Applied, AppliedAll, Acts;
      saved := [];
      AppliedNone(Map());
      assert edits[..0] == [];
      for i := 0 to |edits|
        invariant Valid() && i == |saved|
        invariant Map() == AppliedAll(old(Map()), edits[..i])
        invariant forall j :: 0 <= j < i ==> (saved[j] <==> Acts(AppliedAll(old(Map()), edits[..j]), edits[j]))
      {
        var ok;
        match edits[i] {
          case New(sign, data) => ok := TablesNew(sign, data);
          case Del(sign) => ok := TablesDel(sign);
        }
        AppliedNext(old(Map()), edits, i);
        saved := saved + [ok];
      }
      assert edits[..|edits|] == edits;
    }
  }

  method NewContainer(crc: Crc32) returns (tables: array<byte>)
    ensures fresh(tables) && tables[..] == Container(crc, Zeros(4), Zeros(4), [])
  {
    tables := new byte[HEADER](_ => 0);
    CopyMem(tables, 0, EFITABLE);
    ghost var body := tables[..];
    assert body[..8] == EFITABLE && body[8..12] == Zeros(4) && body[20..24] == Zeros(4) && body[24..] == [];
    ResealedIsSealed(crc, body, Table(EFITABLE, Zeros(4), Zeros(4), []));
    assert tables[..HEADER] == body;
    Reseal(crc, tables, HEADER);
    assert tables[..] == tables[..HEADER];
  }
}
