/** The EFI tables container as bytes: CRC-sealed records inside a CRC-sealed record (GptRead.c, lines 214-364). */
module TableSpec {
  import opened Bytes

  /** gBS->CalculateCrc32 over a byte string. */
  type Crc32 = seq<byte> -> u32

  const HEADER: nat := 24
  const OFFSET_SIZE: nat := 12
  const OFFSET_CRC: nat := 16

  type Sign = s: seq<byte> | |s| == 8 witness [0, 0, 0, 0, 0, 0, 0, 0]
  type Word = s: seq<byte> | |s| == 4 witness [0, 0, 0, 0]

  /** EFITABLE_HEADER_SIGN: "EFITABLE". */
  const EFITABLE: Sign := [0x45, 0x46, 0x49, 0x54, 0x41, 0x42, 0x4C, 0x45]

  // ---- reading headers out of memory ----

  function SizeAt(raw: seq<byte>, pos: nat): u32
    requires pos + 20 <= |raw|
  {
    FromLe32(raw[pos + OFFSET_SIZE..pos + OFFSET_SIZE + 4])
  }

  function CrcAt(raw: seq<byte>, pos: nat): u32
    requires pos + 20 <= |raw|
  {
    FromLe32(raw[pos + OFFSET_CRC..pos + OFFSET_CRC + 4])
  }

  /** A table with its CRC field cleared, as the CRC is taken over it. */
  function Blank(s: seq<byte>): (b: seq<byte>)
    ensures |b| == |s|
    ensures forall i :: 0 <= i < |s| ==> b[i] == (if OFFSET_CRC <= i < OFFSET_CRC + 4 then 0 else s[i])
  {
    seq(|s|, i requires 0 <= i < |s| => BlankByte(s, i))
  }

  function BlankByte(s: seq<byte>, i: nat): byte
    requires i < |s|
  {
    if OFFSET_CRC <= i < OFFSET_CRC + 4 then 0 else s[i]
  }

  /** The header and the table it claims lie in memory. */
  predicate Readable(raw: seq<byte>, pos: nat, maxSize: nat) {
    && pos + 20 <= |raw|
    && ((maxSize != 0 && SizeAt(raw, pos) > maxSize) || pos + SizeAt(raw, pos) <= |raw|)
  }

  /** GptHeaderCheckCrc. */
  predicate CrcOk(crc: Crc32, raw: seq<byte>, pos: nat, maxSize: nat)
    requires Readable(raw, pos, maxSize)
  {
    && SizeAt(raw, pos) != 0
    && !(maxSize != 0 && SizeAt(raw, pos) > maxSize)
    && CrcAt(raw, pos) == crc(Blank(raw[pos..pos + SizeAt(raw, pos)]))
  }

  /** How a walk over the records ends. `Outside`: at a header that does not lie in memory. */
  datatype Walk = Sound | Broken | Outside | Found(pos: nat, size: nat)

  /** The walk of TablesVerify (no signature) and of TablesGetData and TablesDelete (a signature). */
  function WalkFrom(crc: Crc32, raw: seq<byte>, rawSize: nat, tpos: nat, sign: Option<Sign>): (w: Walk)
    requires rawSize <= |raw|
    ensures w.Found? ==> sign.Some? && tpos <= w.pos && 0 < w.size && w.pos + w.size <= rawSize && w.pos + 20 <= |raw|
    decreases rawSize - tpos
  {
    if tpos >= rawSize then Sound
    else if !Readable(raw, tpos, rawSize - tpos) then Outside
    else if !CrcOk(crc, raw, tpos, rawSize - tpos) then Broken
    else if sign.Some? && raw[tpos..tpos + 8] == sign.value then Found(tpos, SizeAt(raw, tpos))
    else WalkFrom(crc, raw, rawSize, tpos + SizeAt(raw, tpos), sign)
  }

  // ---- the abstract container ----

  /** A table whose total size fits the 32-bit HeaderSize field. */
  type Record = t: Table | HEADER + |t.data| < TWO_32 witness Table(EFITABLE, Zeros(4), Zeros(4), [])
  datatype Table = Table(sign: Sign, revision: Word, reserved: Word, data: seq<byte>)

  function Unsealed(r: Record): (b: seq<byte>)
    ensures |b| == HEADER + |r.data|
  {
    r.sign + r.revision + Le32(HEADER + |r.data|) + [0, 0, 0, 0] + r.reserved + r.data
  }

  /** A record as it lies in memory. */
  function Sealed(crc: Crc32, r: Record): (b: seq<byte>)
    ensures |b| == HEADER + |r.data|
  {
    Splice(Unsealed(r), OFFSET_CRC, Le32(crc(Unsealed(r))))
  }

  function All(crc: Crc32, rs: seq<Record>): (b: seq<byte>)
  {
    if rs == [] then [] else Sealed(crc, rs[0]) + All(crc, rs[1..])
  }

  /** The container is a record itself, whose data are the records. */
  function Container(crc: Crc32, revision: Word, reserved: Word, rs: seq<Record>): (b: seq<byte>)
    requires HEADER + |All(crc, rs)| < TWO_32
  {
    Sealed(crc, Table(EFITABLE, revision, reserved, All(crc, rs)))
  }

  function IndexOf(rs: seq<Record>, sign: Sign): (k: nat)
    ensures k <= |rs|
    ensures k < |rs| ==> rs[k].sign == sign
    ensures forall i :: 0 <= i < k ==> rs[i].sign != sign
  {
    if rs == [] || rs[0].sign == sign then 0 else 1 + IndexOf(rs[1..], sign)
  }

  // ---- one record in memory ----

  lemma UnsealedFields(r: Record)
    ensures var u := Unsealed(r);
      && u[..8] == r.sign && u[8..12] == r.revision && u[20..24] == r.reserved && u[24..] == r.data
      && u[12..16] == Le32(HEADER + |r.data|) && u[16..20] == [0, 0, 0, 0]
  {
  }

  lemma SealedFields(crc: Crc32, r: Record)
    ensures var b := Sealed(crc, r);
      && b[..8] == r.sign && b[8..12] == r.revision && b[20..24] == r.reserved && b[HEADER..] == r.data
      && b[OFFSET_SIZE..OFFSET_SIZE + 4] == Le32(HEADER + |r.data|)
      && b[OFFSET_CRC..OFFSET_CRC + 4] == Le32(crc(Unsealed(r)))
      && Blank(b) == Unsealed(r)
  {
    var u, b := Unsealed(r), Sealed(crc, r);
    UnsealedFields(r);
    assert forall i :: 16 <= i < 20 ==> u[i] == u[16..20][i - 16];
    assert Blank(b) == u;
    assert b[..8] == u[..8] && b[8..12] == u[8..12] && b[12..16] == u[12..16];
    assert b[20..24] == u[20..24] && b[24..] == u[24..];
  }

  lemma SubSlice<T>(s: seq<T>, lo: nat, hi: nat, a: nat, b: nat)
    requires lo <= hi <= |s| && a <= b <= hi - lo
    ensures s[lo..hi][a..b] == s[lo + a..lo + b]
  {
    var x, y := s[lo..hi][a..b], s[lo + a..lo + b];
    assert forall i :: 0 <= i < b - a ==> x[i] == s[lo..hi][a + i] == y[i];
    assert x == y;
  }

  /** A record wherever it lies: readable, with a good CRC, of its own size and signature. */
  lemma RecordAt(crc: Crc32, raw: seq<byte>, pos: nat, r: Record, maxSize: nat)
    requires pos + HEADER + |r.data| <= |raw|
    requires raw[pos..pos + HEADER + |r.data|] == Sealed(crc, r)
    requires maxSize == 0 || maxSize >= HEADER + |r.data|
    ensures Readable(raw, pos, maxSize) && CrcOk(crc, raw, pos, maxSize)
    ensures SizeAt(raw, pos) == HEADER + |r.data| && raw[pos..pos + 8] == r.sign
    ensures raw[pos + HEADER..pos + SizeAt(raw, pos)] == r.data
  {
    var n := HEADER + |r.data|;
    SealedFields(crc, r);
    hide Sealed, Unsealed, Le32, FromLe32;
    SubSlice(raw, pos, pos + n, 0, 8);
    SubSlice(raw, pos, pos + n, 12, 16);
    SubSlice(raw, pos, pos + n, 16, 20);
    SubSlice(raw, pos, pos + n, HEADER, n);
    Le32RoundTrip(n);
    Le32RoundTrip(crc(Unsealed(r)));
  }

  // ---- whole containers ----

  /** Where record k starts, relative to the first. */
  function OffsetOf(crc: Crc32, rs: seq<Record>, k: nat): nat
    requires k <= |rs|
  {
    |All(crc, rs[..k])|
  }

  /** Where a search through a list of records, the first lying at `tpos`, ends. */
  function Search(tpos: nat, rs: seq<Record>, sign: Option<Sign>): Walk
    decreases |rs|
  {
    if rs == [] then Sound
    else if sign.Some? && rs[0].sign == sign.value then Found(tpos, HEADER + |rs[0].data|)
    else Search(tpos + HEADER + |rs[0].data|, rs[1..], sign)
  }

  lemma {:induction false} SearchResult(crc: Crc32, tpos: nat, rs: seq<Record>, sign: Option<Sign>)
    ensures Search(tpos, rs, sign)
         == if sign.Some? && IndexOf(rs, sign.value) < |rs|
            then Found(tpos + OffsetOf(crc, rs, IndexOf(rs, sign.value)), HEADER + |rs[IndexOf(rs, sign.value)].data|)
            else Sound
    decreases |rs|
  {
    if rs != [] {
      if sign.Some? && rs[0].sign == sign.value {
        assert rs[..0] == [];
      } else {
        SearchResult(crc, tpos + HEADER + |rs[0].data|, rs[1..], sign);
        if sign.Some? && IndexOf(rs[1..], sign.value) < |rs[1..]| {
          OffsetStep(crc, rs, IndexOf(rs[1..], sign.value));
        }
      }
    }
  }

  /** The walk over bytes that are exactly the records of `rs` is the search through `rs`. */
  lemma {:induction false} WalkSearches(crc: Crc32, raw: seq<byte>, rawSize: nat, tpos: nat, rs: seq<Record>,
                                        sign: Option<Sign>)
    requires tpos <= rawSize <= |raw| && raw[tpos..rawSize] == All(crc, rs)
    ensures WalkFrom(crc, raw, rawSize, tpos, sign) == Search(tpos, rs, sign)
    decreases |rs|
  {
    hide Sealed, All, WalkFrom, Search;
    if rs == [] {
      NoneLeft(crc, raw, rawSize, tpos, sign);
    } else {
      WalkStep(crc, raw, rawSize, tpos, rs, sign);
      SearchStep(tpos, rs, sign);
      if !(sign.Some? && rs[0].sign == sign.value) {
        WalkSearches(crc, raw, rawSize, tpos + HEADER + |rs[0].data|, rs[1..], sign);
      }
    }
  }

  lemma NoneLeft(crc: Crc32, raw: seq<byte>, rawSize: nat, tpos: nat, sign: Option<Sign>)
    requires tpos <= rawSize <= |raw| && raw[tpos..rawSize] == All(crc, [])
    ensures WalkFrom(crc, raw, rawSize, tpos, sign) == Search(tpos, [], sign)
  {
    assert tpos == rawSize;
  }

  lemma SearchStep(tpos: nat, rs: seq<Record>, sign: Option<Sign>)
    requires rs != []
    ensures Search(tpos, rs, sign)
         == if sign.Some? && rs[0].sign == sign.value then Found(tpos, HEADER + |rs[0].data|)
            else Search(tpos + HEADER + |rs[0].data|, rs[1..], sign)
  {
  }

  lemma WalkStep(crc: Crc32, raw: seq<byte>, rawSize: nat, tpos: nat, rs: seq<Record>, sign: Option<Sign>)
    requires rs != [] && tpos <= rawSize <= |raw| && raw[tpos..rawSize] == All(crc, rs)
    ensures var n := HEADER + |rs[0].data|;
      && tpos + n <= rawSize && raw[tpos + n..rawSize] == All(crc, rs[1..])
      && WalkFrom(crc, raw, rawSize, tpos, sign)
         == if sign.Some? && rs[0].sign == sign.value then Found(tpos, n)
            else WalkFrom(crc, raw, rawSize, tpos + n, sign)
  {
    FirstRecord(crc, raw, rawSize, tpos, rs);
    hide Sealed, All, CrcOk, Readable, SizeAt;
    assert raw[tpos..tpos + 8] == rs[0].sign;
  }

  lemma FirstRecord(crc: Crc32, raw: seq<byte>, rawSize: nat, tpos: nat, rs: seq<Record>)
    requires rs != [] && tpos <= rawSize <= |raw| && raw[tpos..rawSize] == All(crc, rs)
    ensures var n := HEADER + |rs[0].data|;
      && tpos + n <= rawSize && raw[tpos..tpos + n] == Sealed(crc, rs[0]) && raw[tpos + n..rawSize] == All(crc, rs[1..])
      && Readable(raw, tpos, rawSize - tpos) && CrcOk(crc, raw, tpos, rawSize - tpos)
      && SizeAt(raw, tpos) == n && raw[tpos..tpos + 8] == rs[0].sign
  {
    var n := HEADER + |rs[0].data|;
    var a, b := Sealed(crc, rs[0]), All(crc, rs[1..]);
    hide Sealed;
    assert raw[tpos..rawSize] == a + b;
    assert (a + b)[..n] == a && (a + b)[n..] == b;
    SubSlice(raw, tpos, rawSize, 0, n);
    SubSlice(raw, tpos, rawSize, n, rawSize - tpos);
    RecordAt(crc, raw, tpos, rs[0], rawSize - tpos);
  }

  lemma OffsetStep(crc: Crc32, rs: seq<Record>, k: nat)
    requires k < |rs|
    ensures OffsetOf(crc, rs, k + 1) == HEADER + |rs[0].data| + OffsetOf(crc, rs[1..], k)
  {
    assert rs[..k + 1][1..] == rs[1..][..k] && rs[..k + 1][0] == rs[0];
  }

  lemma {:induction false} AllConcat(crc: Crc32, a: seq<Record>, b: seq<Record>)
    ensures All(crc, a + b) == All(crc, a) + All(crc, b)
    decreases |a|
  {
    if a == [] {
      assert a + b == b;
    } else {
      hide Sealed;
      assert (a + b)[1..] == a[1..] + b && (a + b)[0] == a[0];
      AllConcat(crc, a[1..], b);
      var s, t, u := Sealed(crc, a[0]), All(crc, a[1..]), All(crc, b);
      assert All(crc, a + b) == s + (t + u);
      assert s + (t + u) == (s + t) + u;
    }
  }

  // ---- what a container means ----

  /** The finite map a list of records stands for: the first record of a signature is the one found. */
  function Meaning(rs: seq<Record>): map<Sign, seq<byte>> {
    if rs == [] then map[] else Meaning(rs[1..])[rs[0].sign := rs[0].data]
  }

  predicate Distinct(rs: seq<Record>) {
    rs == [] || (rs[0].sign !in Meaning(rs[1..]) && Distinct(rs[1..]))
  }

  function Without(rs: seq<Record>, k: nat): seq<Record>
    requires k < |rs|
  {
    rs[..k] + rs[k + 1..]
  }

  lemma {:induction false} MeaningLookup(rs: seq<Record>, sign: Sign)
    ensures sign in Meaning(rs) <==> IndexOf(rs, sign) < |rs|
    ensures sign in Meaning(rs) ==> Meaning(rs)[sign] == rs[IndexOf(rs, sign)].data
    decreases |rs|
  {
    if rs != [] {
      MeaningLookup(rs[1..], sign);
    }
  }

  lemma {:induction false} MeaningHas(rs: seq<Record>, k: nat)
    requires k < |rs|
    ensures rs[k].sign in Meaning(rs)
    decreases |rs|
  {
    if k > 0 {
      MeaningHas(rs[1..], k - 1);
    }
  }

  lemma {:induction false} MeaningWithout(rs: seq<Record>, k: nat)
    requires Distinct(rs) && k < |rs|
    ensures Distinct(Without(rs, k)) && Meaning(Without(rs, k)) == Meaning(rs) - {rs[k].sign}
    decreases |rs|
  {
    if k == 0 {
      assert Without(rs, 0) == rs[1..];
    } else {
      assert Without(rs, k)[1..] == Without(rs[1..], k - 1) && Without(rs, k)[0] == rs[0];
      MeaningWithout(rs[1..], k - 1);
      MeaningHas(rs[1..], k - 1);
      assert Meaning(Without(rs, k)) == (Meaning(rs[1..]) - {rs[k].sign})[rs[0].sign := rs[0].data];
    }
  }

  lemma {:induction false} MeaningAppend(rs: seq<Record>, r: Record)
    requires Distinct(rs) && r.sign !in Meaning(rs)
    ensures Distinct(rs + [r]) && Meaning(rs + [r]) == Meaning(rs)[r.sign := r.data]
    decreases |rs|
  {
    if rs == [] {
      assert (rs + [r])[1..] == [];
    } else {
      assert (rs + [r])[1..] == rs[1..] + [r] && (rs + [r])[0] == rs[0];
      MeaningAppend(rs[1..], r);
    }
  }

  /** The bytes the records of a map take. */
  ghost function MapSize(m: map<Sign, seq<byte>>): nat {
    if m == map[] then 0
    else
      var k :| k in m;
      HEADER + |m[k]| + MapSize(m - {k})
  }

  lemma {:induction false} MapSizeWithout(m: map<Sign, seq<byte>>, k: Sign)
    requires k in m
    ensures MapSize(m) == HEADER + |m[k]| + MapSize(m - {k})
    decreases |m|
  {
    var j :| j in m && MapSize(m) == HEADER + |m[j]| + MapSize(m - {j});
    if j != k {
      MapSizeWithout(m - {j}, k);
      MapSizeWithout(m - {k}, j);
      assert m - {j} - {k} == m - {k} - {j};
    }
  }

  /** Records with different signatures take as much room as their map says. */
  lemma {:induction false} SizeIsMapSize(crc: Crc32, rs: seq<Record>)
    requires Distinct(rs)
    ensures |All(crc, rs)| == MapSize(Meaning(rs))
    decreases |rs|
  {
    if rs != [] {
      SizeIsMapSize(crc, rs[1..]);
      MapSizeWithout(Meaning(rs), rs[0].sign);
      assert Meaning(rs) - {rs[0].sign} == Meaning(rs[1..]);
    }
  }

  // ---- edits ----

  /** A table whose size field and CRC are made to fit its bytes. */
  function Resealed(crc: Crc32, body: seq<byte>): (b: seq<byte>)
    requires HEADER <= |body| < TWO_32
    ensures |b| == |body|
  {
    var sized := Splice(Splice(body, OFFSET_SIZE, Le32(|body|)), OFFSET_CRC, [0, 0, 0, 0]);
    Splice(sized, OFFSET_CRC, Le32(crc(sized)))
  }

  lemma ResealedIsSealed(crc: Crc32, body: seq<byte>, r: Record)
    requires HEADER <= |body| < TWO_32
    requires r == Table(body[..8], body[8..12], body[20..24], body[24..])
    ensures Resealed(crc, body) == Sealed(crc, r)
  {
    var sized := Splice(Splice(body, OFFSET_SIZE, Le32(|body|)), OFFSET_CRC, [0, 0, 0, 0]);
    var u := Unsealed(r);
    UnsealedFields(r);
    assert sized[..8] == body[..8] && sized[8..12] == body[8..12];
    assert sized[20..24] == body[20..24] && sized[24..] == body[24..];
    assert sized[12..16] == Splice(body, OFFSET_SIZE, Le32(|body|))[12..16] == Le32(|body|) == u[12..16];
    assert sized[16..20] == [0, 0, 0, 0] == u[16..20];
    FromPieces(sized, u);
    assert Sealed(crc, r) == Splice(u, OFFSET_CRC, Le32(crc(u)));
  }

  lemma FromPieces(a: seq<byte>, b: seq<byte>)
    requires |a| == |b| >= 24
    requires a[..8] == b[..8] && a[8..12] == b[8..12] && a[12..16] == b[12..16] && a[16..20] == b[16..20]
    requires a[20..24] == b[20..24] && a[24..] == b[24..]
    ensures a == b
  {
    assert a == a[..8] + a[8..12] + a[12..16] + a[16..20] + a[20..24] + a[24..];
    assert b == b[..8] + b[8..12] + b[12..16] + b[16..20] + b[20..24] + b[24..];
  }

  lemma FromPiecesAt(u: seq<byte>, at: nat, b: seq<byte>)
    requires |b| >= 24 && at + |b| <= |u|
    requires u[at..at + 8] == b[..8] && u[at + 8..at + 12] == b[8..12] && u[at + 12..at + 16] == b[12..16]
    requires u[at + 16..at + 20] == b[16..20] && u[at + 20..at + 24] == b[20..24] && u[at + 24..at + |b|] == b[24..]
    ensures u[at..at + |b|] == b
  {
    assert u[at..at + |b|] == u[at..at + 8] + u[at + 8..at + 12] + u[at + 12..at + 16] + u[at + 16..at + 20]
        + u[at + 20..at + 24] + u[at + 24..at + |b|];
    assert b == b[..8] + b[8..12] + b[12..16] + b[16..20] + b[20..24] + b[24..];
  }

  /** Cutting record k out of a container and resealing it gives the container without record k. */
  lemma CutOut(crc: Crc32, revision: Word, reserved: Word, rs: seq<Record>, k: nat)
    requires HEADER + |All(crc, rs)| < TWO_32 && k < |rs|
    ensures HEADER + |All(crc, Without(rs, k))| < TWO_32
    ensures var s := Container(crc, revision, reserved, rs);
      var at, n := HEADER + OffsetOf(crc, rs, k), HEADER + |rs[k].data|;
      && at + n <= |s|
      && |Container(crc, revision, reserved, Without(rs, k))| == |s| - n
      && Resealed(crc, s[..at] + s[at + n..|s|]) == Container(crc, revision, reserved, Without(rs, k))
  {
    hide Sealed, All, Resealed, Without;
    SplitAll(crc, rs, k);
    var x, y, z := All(crc, rs[..k]), Sealed(crc, rs[k]), All(crc, rs[k + 1..]);
    CutContainer(crc, Table(EFITABLE, revision, reserved, All(crc, rs)), x, y, z);
  }

  lemma CutContainer(crc: Crc32, t: Record, x: seq<byte>, y: seq<byte>, z: seq<byte>)
    requires t.data == x + (y + z)
    ensures var s := Sealed(crc, t);
      && |s| == HEADER + |x| + |y| + |z|
      && Resealed(crc, s[..HEADER + |x|] + s[HEADER + |x| + |y|..|s|]) == Sealed(crc, t.(data := x + z))
  {
    var s := Sealed(crc, t);
    SealedFields(crc, t);
    hide Sealed, Resealed;
    CutPieces(s, x, y, z);
    assert s[HEADER + |x| + |y|..] == s[HEADER + |x| + |y|..|s|];
    var body := s[..HEADER + |x|] + s[HEADER + |x| + |y|..];
    assert body[..8] == s[..8] && body[8..12] == s[8..12] && body[20..24] == s[20..24];
    ResealedIsSealed(crc, body, t.(data := x + z));
  }

  lemma SplitAll(crc: Crc32, rs: seq<Record>, k: nat)
    requires k < |rs|
    ensures All(crc, rs) == All(crc, rs[..k]) + (Sealed(crc, rs[k]) + All(crc, rs[k + 1..]))
    ensures All(crc, Without(rs, k)) == All(crc, rs[..k]) + All(crc, rs[k + 1..])
  {
    AllFrom(crc, rs, k);
    hide Sealed, All;
    AllConcat(crc, rs[..k], rs[k..]);
    AllConcat(crc, rs[..k], rs[k + 1..]);
  }

  lemma AllFrom(crc: Crc32, rs: seq<Record>, k: nat)
    requires k < |rs|
    ensures rs[..k] + rs[k..] == rs
    ensures All(crc, rs[k..]) == Sealed(crc, rs[k]) + All(crc, rs[k + 1..])
  {
    assert rs[k..][0] == rs[k] && rs[k..][1..] == rs[k + 1..];
  }

  lemma CutPieces(s: seq<byte>, x: seq<byte>, y: seq<byte>, z: seq<byte>)
    requires |s| == HEADER + |x| + |y| + |z| && s[HEADER..] == x + (y + z)
    ensures (s[..HEADER + |x|] + s[HEADER + |x| + |y|..])[HEADER..] == x + z
  {
    var t := s[HEADER..];
    assert t[..|x|] == x && t[|x| + |y|..] == z;
    assert s[..HEADER + |x|][HEADER..] == t[..|x|];
    assert s[HEADER + |x| + |y|..] == t[|x| + |y|..];
    assert (s[..HEADER + |x|] + s[HEADER + |x| + |y|..])[HEADER..]
        == s[..HEADER + |x|][HEADER..] + s[HEADER + |x| + |y|..];
  }

  /** Adding a sealed record behind a container and resealing it gives the longer container. */
  lemma PutBehind(crc: Crc32, revision: Word, reserved: Word, rs: seq<Record>, r: Record)
    requires HEADER + |All(crc, rs)| + HEADER + |r.data| < TWO_32
    ensures HEADER + |All(crc, rs + [r])| < TWO_32
    ensures Resealed(crc, Container(crc, revision, reserved, rs) + Sealed(crc, r))
         == Container(crc, revision, reserved, rs + [r])
  {
    assert All(crc, [r]) == Sealed(crc, r) by {
      assert [r][1..] == [] && Sealed(crc, r) + [] == Sealed(crc, r);
    }
    hide Sealed, All, Resealed;
    AllConcat(crc, rs, [r]);
    ExtendContainer(crc, Table(EFITABLE, revision, reserved, All(crc, rs)), Sealed(crc, r));
  }

  lemma ExtendContainer(crc: Crc32, t: Record, x: seq<byte>)
    requires HEADER + |t.data| + |x| < TWO_32
    ensures Resealed(crc, Sealed(crc, t) + x) == Sealed(crc, t.(data := t.data + x))
  {
    var s := Sealed(crc, t);
    SealedFields(crc, t);
    hide Sealed, Resealed;
    var body := s + x;
    assert body[..8] == s[..8] && body[8..12] == s[8..12] && body[20..24] == s[20..24] && body[24..] == s[24..] + x;
    ResealedIsSealed(crc, body, t.(data := t.data + x));
  }
}
