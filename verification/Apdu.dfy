/** Command APDUs: building and parsing the seven cases (CommandAPDU.cpp; section 5.1 of ISO/IEC 7816-4:2005). */
module Apdu {
  import opened Bytes

  type CommandHeader = h: seq<byte> | |h| == 4 witness Zeros(4)

  // ---- the grammar ----

  /** What a command carries besides its header; `extended` says how the two lengths are written. */
  datatype Body = Body(data: seq<byte>, ne: nat, extended: bool) {
    predicate Valid() {
      if extended then |data| <= 65535 && ne <= 65536 && (|data| > 0 || ne > 0) else |data| <= 255 && ne <= 256
    }

    /** The lengths are not written longer than they need to be. */
    predicate Canonical() {
      extended <==> |data| > 255 || ne > 256
    }
  }

  function Lc(b: Body): seq<byte>
    requires b.Valid()
  {
    if |b.data| == 0 then [] else if b.extended then [0] + Be16(|b.data|) else [|b.data|]
  }

  /** The maximum is written as zero. */
  function Le(b: Body): seq<byte>
    requires b.Valid()
  {
    if b.ne == 0 then []
    else if !b.extended then [b.ne % 256]
    else if |b.data| == 0 then [0] + Be16(b.ne % 65536)
    else Be16(b.ne % 65536)
  }

  /** Header, Lc, data, Le. */
  function Layout(h: CommandHeader, b: Body): seq<byte>
    requires b.Valid()
  {
    h + Lc(b) + b.data + Le(b)
  }

  /** The bytes of every case, lengths with the high byte first. */
  lemma CaseBytes(h: CommandHeader, b: Body)
    requires b.Valid()
    ensures var n, ne := |b.data|, b.ne;
      && (n == 0 && ne == 0 ==> Layout(h, b) == h)
      && (n == 0 && ne > 0 && !b.extended ==> Layout(h, b) == h + [ne % 256])
      && (n == 0 && b.extended ==> Layout(h, b) == h + [0, ne / 256 % 256, ne % 256])
      && (n > 0 && ne == 0 && !b.extended ==> Layout(h, b) == h + [n] + b.data)
      && (n > 0 && ne > 0 && !b.extended ==> Layout(h, b) == h + [n] + b.data + [ne % 256])
      && (n > 0 && ne == 0 && b.extended ==> Layout(h, b) == h + [0, n / 256, n % 256] + b.data)
      && (n > 0 && ne > 0 && b.extended ==>
            Layout(h, b) == h + [0, n / 256, n % 256] + b.data + [ne / 256 % 256, ne % 256])
  {
    LengthBytes(b);
    hide Lc, Le;
    if b.data == [] {
      assert Layout(h, b) == h + Le(b);
    }
    if Le(b) == [] {
      assert Layout(h, b) == h + Lc(b) + b.data;
    }
  }

  lemma LengthBytes(b: Body)
    requires b.Valid()
    ensures var n, ne := |b.data|, b.ne;
      && Lc(b) == (if n == 0 then [] else if b.extended then [0, n / 256, n % 256] else [n])
      && Le(b) == (if ne == 0 then [] else if !b.extended then [ne % 256]
                   else if n == 0 then [0, ne / 256 % 256, ne % 256] else [ne / 256 % 256, ne % 256])
  {
    var n := b.ne % 65536;
    assert b.extended ==> n / 256 == b.ne / 256 % 256 && n % 256 == b.ne % 256;
  }

  // ---- parsing ----

  /** The fields as they stand when an APDU has been accepted. */
  datatype Fields = Fields(nc: nat, ne: nat, dataOffset: nat, extended: bool)

  function Word(apdu: seq<byte>, at: nat): nat
    requires at + 2 <= |apdu|
  {
    var hi: int, lo: int := apdu[at], apdu[at + 1];
    256 * hi + lo
  }

  /** The analysis in parse. */
  function Scanned(apdu: seq<byte>): Option<Fields> {
    if |apdu| < 4 then None
    else if |apdu| == 4 then Some(Fields(0, 0, 0, false))
    else
      var l1: nat := apdu[4];
      if |apdu| == 5 then Some(Fields(0, if l1 == 0 then 256 else l1, 0, false))
      else if l1 != 0 then
        if |apdu| == 5 + l1 then Some(Fields(l1, 0, 5, false))
        else if |apdu| == 6 + l1 then
          var l2: nat := apdu[|apdu| - 1];
          Some(Fields(l1, if l2 == 0 then 256 else l2, 5, false))
        else None
      else if |apdu| < 7 then None
      else
        var l2 := Word(apdu, 5);
        if |apdu| == 7 then Some(Fields(0, if l2 == 0 then 65536 else l2, 0, true))
        else if l2 == 0 then None
        else if |apdu| == 7 + l2 then Some(Fields(l2, 0, 7, true))
        else if |apdu| == 9 + l2 then
          var l3 := Word(apdu, |apdu| - 2);
          Some(Fields(l2, if l3 == 0 then 65536 else l3, 7, true))
        else None
  }

  /** The fields that belong to a body. */
  function FieldsOf(b: Body): Fields {
    Fields(|b.data|, b.ne, if |b.data| == 0 then 0 else if b.extended then 7 else 5, b.extended)
  }

  /** The body that accepted fields describe. */
  function BodyOf(apdu: seq<byte>, f: Fields): Body
    requires f.dataOffset + f.nc <= |apdu|
  {
    Body(apdu[f.dataOffset..f.dataOffset + f.nc], f.ne, f.extended)
  }

  /** Every layout of the grammar is accepted with its own fields and data. */
  lemma LayoutAccepted(h: CommandHeader, b: Body)
    requires b.Valid()
    ensures var a := Layout(h, b);
      && Scanned(a) == Some(FieldsOf(b)) && |a| >= 4 && a[..4] == h
      && FieldsOf(b).dataOffset + |b.data| <= |a| && BodyOf(a, FieldsOf(b)) == b
  {
    if b.data == [] {
      NoDataAccepted(h, b);
    } else {
      LayoutParts(h, b);
      if b.extended {
        ExtendedAccepted(Layout(h, b), b);
      } else {
        ShortAccepted(Layout(h, b), b);
      }
    }
  }

  lemma NoDataAccepted(h: CommandHeader, b: Body)
    requires b.Valid() && b.data == []
    ensures var a := Layout(h, b);
      Scanned(a) == Some(FieldsOf(b)) && |a| >= 4 && a[..4] == h && BodyOf(a, FieldsOf(b)) == b
  {
    assert Layout(h, b) == h + Le(b);
    assert Layout(h, b)[0..0] == [];
  }

  /** Where the parts of a layout lie. */
  lemma LayoutParts(h: CommandHeader, b: Body)
    requires b.Valid() && b.data != []
    ensures var a, lc, le := Layout(h, b), |Lc(b)|, |Le(b)|;
      && |a| == 4 + lc + |b.data| + le && a[..4] == h && a[4..4 + lc] == Lc(b)
      && a[4 + lc..4 + lc + |b.data|] == b.data && a[4 + lc + |b.data|..] == Le(b)
  {
    hide Lc, Le;
  }

  lemma ShortAccepted(a: seq<byte>, b: Body)
    requires b.Valid() && b.data != [] && !b.extended && |a| == 5 + |b.data| + |Le(b)|
    requires a[4..5] == Lc(b) && a[5 + |b.data|..] == Le(b)
    ensures Scanned(a) == Some(FieldsOf(b))
  {
    assert a[4] == a[4..5][0];
    if b.ne != 0 {
      assert a[|a| - 1] == a[5 + |b.data|..][0];
    }
  }

  lemma ExtendedAccepted(a: seq<byte>, b: Body)
    requires b.Valid() && b.data != [] && b.extended && |a| == 7 + |b.data| + |Le(b)|
    requires a[4..7] == Lc(b) && a[7 + |b.data|..] == Le(b)
    ensures Scanned(a) == Some(FieldsOf(b))
  {
    hide Be16, Word;
    assert a[4] == a[4..7][0];
    assert a[5..7] == a[4..7][1..] == Be16(|b.data|);
    ByteWord(a, 5, |b.data|);
    if b.ne != 0 {
      assert a[|a| - 2..|a|] == a[7 + |b.data|..] == Be16(b.ne % 65536);
      ByteWord(a, |a| - 2, b.ne % 65536);
    }
  }

  lemma ByteWord(s: seq<byte>, at: nat, x: u16)
    requires at + 2 <= |s| && s[at..at + 2] == Be16(x)
    ensures Word(s, at) == x
  {
    assert s[at] == s[at..at + 2][0] && s[at + 1] == s[at..at + 2][1];
  }

  /** Whatever is accepted is a layout of the grammar, with the fields found. */
  lemma AcceptedIsLayout(apdu: seq<byte>)
    requires Scanned(apdu).Some?
    ensures var f := Scanned(apdu).value;
      && f.dataOffset + f.nc <= |apdu| && |apdu| >= 4 && BodyOf(apdu, f).Valid()
      && apdu == Layout(apdu[..4], BodyOf(apdu, f))
  {
    if Scanned(apdu).value.nc == 0 {
      AcceptedNoData(apdu);
    } else {
      AcceptedData(apdu);
      var f := Scanned(apdu).value;
      InFour(apdu, 4, f.dataOffset, f.dataOffset + f.nc);
    }
  }

  lemma AcceptedNoData(apdu: seq<byte>)
    requires Scanned(apdu).Some? && Scanned(apdu).value.nc == 0
    ensures |apdu| >= 4 && Scanned(apdu).value.dataOffset == 0 && BodyOf(apdu, Scanned(apdu).value).Valid()
    ensures apdu == Layout(apdu[..4], BodyOf(apdu, Scanned(apdu).value))
  {
    var b := BodyOf(apdu, Scanned(apdu).value);
    assert apdu[4..] == Le(b);
    assert apdu == apdu[..4] + Le(b);
  }

  lemma AcceptedData(apdu: seq<byte>)
    requires Scanned(apdu).Some? && Scanned(apdu).value.nc > 0
    ensures var f := Scanned(apdu).value;
      && 4 <= f.dataOffset <= f.dataOffset + f.nc <= |apdu| && BodyOf(apdu, f).Valid()
      && apdu[4..f.dataOffset] == Lc(BodyOf(apdu, f)) && apdu[f.dataOffset + f.nc..] == Le(BodyOf(apdu, f))
  {
    if Scanned(apdu).value.extended {
      AcceptedExtended(apdu);
    } else {
      AcceptedShort(apdu);
    }
  }

  lemma AcceptedShort(apdu: seq<byte>)
    requires Scanned(apdu).Some? && Scanned(apdu).value.nc > 0 && !Scanned(apdu).value.extended
    ensures var f := Scanned(apdu).value;
      && f.dataOffset == 5 && 5 + f.nc <= |apdu| && BodyOf(apdu, f).Valid()
      && apdu[4..5] == Lc(BodyOf(apdu, f)) && apdu[5 + f.nc..] == Le(BodyOf(apdu, f))
  {
  }

  lemma AcceptedExtended(apdu: seq<byte>)
    requires Scanned(apdu).Some? && Scanned(apdu).value.nc > 0 && Scanned(apdu).value.extended
    ensures var f := Scanned(apdu).value;
      && f.dataOffset == 7 && 7 + f.nc <= |apdu| && BodyOf(apdu, f).Valid()
      && apdu[4..7] == Lc(BodyOf(apdu, f)) && apdu[7 + f.nc..] == Le(BodyOf(apdu, f))
  {
    hide Word, Be16;
    WordBytes(apdu, 5);
    WordBytes(apdu, |apdu| - 2);
    var f := Scanned(apdu).value;
    assert apdu[4..7] == [0] + apdu[5..7];
    if f.ne != 0 {
      assert apdu[7 + f.nc..] == apdu[|apdu| - 2..|apdu|];
      assert f.ne % 65536 == Word(apdu, |apdu| - 2);
    }
  }

  lemma WordBytes(s: seq<byte>, at: nat)
    requires at + 2 <= |s|
    ensures Word(s, at) < 65536 && Be16(Word(s, at)) == s[at..at + 2]
  {
  }

  lemma InFour(s: seq<byte>, i: nat, j: nat, k: nat)
    requires i <= j <= k <= |s|
    ensures s == s[..i] + s[i..j] + s[j..k] + s[k..]
  {
  }

  /** Header and body can be told from the bytes. */
  lemma LayoutInjective(h: CommandHeader, b: Body, h': CommandHeader, b': Body)
    requires b.Valid() && b'.Valid() && Layout(h, b) == Layout(h', b')
    ensures h == h' && b == b'
  {
    hide Scanned, Layout;
    LayoutAccepted(h, b);
    LayoutAccepted(h', b');
  }

  /** The accepted strings are exactly the layouts. */
  lemma AcceptsExactly(apdu: seq<byte>)
    ensures Scanned(apdu).Some?
        <==> exists h: CommandHeader, b: Body :: b.Valid() && apdu == Layout(h, b)
  {
    hide Scanned, Layout, Body.Valid;
    if Scanned(apdu).Some? {
      AcceptedIsLayout(apdu);
    } else if h: CommandHeader, b: Body :| b.Valid() && apdu == Layout(h, b) {
      LayoutAccepted(h, b);
    }
  }

  // ---- building ----

  /** The body that init builds: extended lengths only where they are needed. */
  function BuiltBody(data: seq<byte>, ne: nat): (b: Body)
    ensures b.Canonical()
    ensures |data| <= 65535 && ne <= 65536 ==> b.Valid()
  {
    Body(data, ne, |data| > 255 || ne > 256)
  }

  /** What resizing leaves at place i. */
  function Byte(was: seq<byte>, i: nat): byte {
    if i < |was| then was[i] else 0
  }

  /** And from place 4 on. */
  function Resized(was: seq<byte>, size: nat): seq<byte>
    requires size >= 4
  {
    seq(size - 4, i requires 0 <= i < size - 4 => Byte(was, i + 4))
  }

  /** What init makes of an object that held `was`: case 2e does not write the zero in front of Le, and case 4e does not
      write an Le of 65536. */
  function WrittenOver(was: seq<byte>, h: CommandHeader, data: seq<byte>, ne: nat): (r: seq<byte>)
    requires |data| <= 65535 && ne <= 65536
  {
    var b := BuiltBody(data, ne);
    if data == [] && ne > 256 then h + [Byte(was, 4)] + Be16(ne % 65536)
    else if data != [] && ne == 65536 then h + Lc(b) + data + [Byte(was, |data| + 7), Byte(was, |data| + 8)]
    else Layout(h, b)
  }

  /** The bytes that init does not write were zero, or not there. */
  predicate GapsClear(was: seq<byte>, data: seq<byte>, ne: nat) {
    && (data == [] && ne > 256 ==> Byte(was, 4) == 0)
    && (data != [] && ne == 65536 ==> Byte(was, |data| + 7) == 0 && Byte(was, |data| + 8) == 0)
  }

  /** So the result is the layout exactly when those bytes were clear, as they are for the constructors. */
  lemma WrittenExactly(was: seq<byte>, h: CommandHeader, data: seq<byte>, ne: nat)
    requires |data| <= 65535 && ne <= 65536
    ensures WrittenOver(was, h, data, ne) == Layout(h, BuiltBody(data, ne)) <==> GapsClear(was, data, ne)
  {
    var l := Layout(h, BuiltBody(data, ne));
    if data == [] && ne > 256 {
      NoData(h, ne);
      assert l == h + [0] + Be16(ne % 65536);
      assert l[4] == 0 && WrittenOver(was, h, data, ne)[4] == Byte(was, 4);
    } else if data != [] && ne == 65536 {
      var w, n := WrittenOver(was, h, data, ne), |data|;
      assert l == h + Lc(BuiltBody(data, ne)) + data + [0, 0];
      assert w[n + 7] == Byte(was, n + 7) && w[n + 8] == Byte(was, n + 8) && l[n + 7] == l[n + 8] == 0;
    }
  }

  lemma NoData(h: CommandHeader, ne: nat)
    requires ne <= 65536
    ensures Layout(h, BuiltBody([], ne)) == h + Le(BuiltBody([], ne))
  {
  }

  lemma ResizedEnd(was: seq<byte>, n: nat, size: nat)
    requires size == 7 + n || size == 9 + n
    ensures |Resized(was, size)| == size - 4
    ensures Resized(was, size)[3 + n..] == if size == 7 + n then [] else [Byte(was, n + 7), Byte(was, n + 8)]
  {
  }

  /** Cases 3e and 4e, in bytes. */
  lemma ExtendedWritten(was: seq<byte>, h: CommandHeader, data: seq<byte>, ne: nat)
    requires 0 < |data| <= 65535 && ne <= 65536 && (|data| > 255 || ne > 256)
    ensures FieldsOf(BuiltBody(data, ne)) == Fields(|data|, ne, 7, true)
    ensures WrittenOver(was, h, data, ne) == h + [0, |data| / 256 % 256, |data| % 256] + data
         + if ne == 0 then [] else if ne == 65536 then [Byte(was, |data| + 7), Byte(was, |data| + 8)]
           else Be16(ne % 65536)
  {
    var b := BuiltBody(data, ne);
    LengthBytes(b);
    assert |data| / 256 % 256 == |data| / 256;
    hide Lc, Byte, Be16, Resized;
  }

  class CommandAPDU {
    var apdu: seq<byte>
    var nc: nat
    var ne: nat
    var dataOffset: nat
    var isExtendedAPDU: bool
    var parsedSuccessfully: bool

    predicate Cleared()
      reads this
    {
      apdu == [] && nc == 0 && ne == 0 && dataOffset == 0
    }

    function State(): Fields
      reads this
    {
      Fields(nc, ne, dataOffset, isExtendedAPDU)
    }

    method Clear()
      modifies this
      ensures Cleared() && isExtendedAPDU == old(isExtendedAPDU) && parsedSuccessfully == old(parsedSuccessfully)
    {
      apdu, nc, ne, dataOffset := [], 0, 0, 0;
    }

    /** init. Resizing keeps the bytes that are there, and not every byte is written afterwards. */
    method Init(header: CommandHeader, data: seq<byte>, ne_: u32)
      requires |data| < TWO_32
      modifies this
      ensures |data| > 65535 || ne_ > 65536 ==> Cleared() && !parsedSuccessfully
      ensures |data| <= 65535 && ne_ <= 65536 ==>
        && parsedSuccessfully && State() == FieldsOf(BuiltBody(data, ne_))
        && apdu == WrittenOver(old(apdu), header, data, ne_)
        && (apdu == Layout(header, BuiltBody(data, ne_)) <==> GapsClear(old(apdu), data, ne_))
    {
      nc, ne, dataOffset, isExtendedAPDU, parsedSuccessfully := 0, 0, 0, false, false;
      var dataLength := |data|;
      if dataLength > 65535 || ne_ > 65536 {
        Clear();
        return;
      }
      ne := ne_;
      nc := dataLength;
      WrittenExactly(apdu, header, data, ne);
      if dataLength == 0 {
        InitNoData(header);
      } else if dataLength <= 255 && ne <= 256 {
        InitShort(header, data);
      } else {
        InitExtended(header, data);
      }
      parsedSuccessfully := true;
    }

    /** resize, with zeros behind, and setHeader. */
    method Resize(size: nat, header: CommandHeader)
      requires size >= 4
      modifies `apdu
      ensures apdu == header + Resized(old(apdu), size)
    {
      apdu := header + Resized(apdu, size);
    }

    /** Cases 1, 2s and 2e. */
    method InitNoData(header: CommandHeader)
      requires ne <= 65536 && nc == 0 && dataOffset == 0 && !isExtendedAPDU
      modifies `apdu, `isExtendedAPDU
      ensures apdu == WrittenOver(old(apdu), header, [], ne) && State() == FieldsOf(BuiltBody([], ne))
    {
      NoData(header, ne);
      if ne == 0 {
        Resize(4, header);
      } else if ne <= 256 {
        Resize(5, header);
        apdu := apdu[..4] + [if ne != 256 then ne else 0];
      } else {
        var le := LeBytes();
        Resize(7, header);
        assert apdu[..5] == header + [Byte(old(apdu), 4)];
        apdu := apdu[..5] + le;
        isExtendedAPDU := true;
      }
    }

    /** Two bytes; 65536 becomes zero. */
    method LeBytes() returns (le: seq<byte>)
      requires 0 < ne <= 65536
      ensures le == Be16(ne % 65536)
    {
      le := if ne == 65536 then [0, 0] else [ne / 256 % 256, ne % 256];
    }

    /** Cases 3s and 4s: Lc and the data behind the header, then Le. */
    method InitShort(header: CommandHeader, data: seq<byte>)
      requires 0 < |data| <= 255 && ne <= 256 && nc == |data| && !isExtendedAPDU
      modifies `apdu, `dataOffset
      ensures apdu == WrittenOver(old(apdu), header, data, ne) && State() == FieldsOf(BuiltBody(data, ne))
    {
      Resize(if ne == 0 then 5 + |data| else 6 + |data|, header);
      apdu := apdu[..4] + [|data|] + data + apdu[5 + |data|..];
      dataOffset := 5;
      if ne != 0 {
        apdu := apdu[..5 + |data|] + [if ne != 256 then ne else 0];
      }
    }

    /** Cases 3e and 4e; an Le of 65536 is not filled in. */
    method InitExtended(header: CommandHeader, data: seq<byte>)
      requires 0 < |data| <= 65535 && ne <= 65536 && (|data| > 255 || ne > 256) && nc == |data|
      modifies `apdu, `dataOffset, `isExtendedAPDU
      ensures apdu == WrittenOver(old(apdu), header, data, ne) && State() == FieldsOf(BuiltBody(data, ne))
    {
      hide WrittenOver, BuiltBody, FieldsOf, Resized, Byte, Be16, Layout;
      ghost var was := apdu;
      var size := if ne == 0 then 7 + |data| else 9 + |data|;
      Resize(size, header);
      ResizedEnd(was, |data|, size);
      ExtendedWritten(was, header, data, ne);
      var rest := apdu[7 + |data|..];
      assert rest == if ne == 0 then [] else [Byte(was, |data| + 7), Byte(was, |data| + 8)];
      apdu := apdu[..4] + [0, |data| / 256 % 256, |data| % 256] + data + rest;
      dataOffset := 7;
      if ne != 0 && ne != 65536 {
        var le := LeBytes();
        apdu := apdu[..7 + |data|] + le;
      }
      isExtendedAPDU := true;
    }

    /** parse, on an object that holds an APDU. The way out of success leads on into clear(), so that an accepted
        APDU is gone as well; `reached` is the state on reaching success. */
    method Parse() returns (ghost reached: Option<Fields>)
      requires nc == 0 && ne == 0 && dataOffset == 0 && !isExtendedAPDU
      modifies this
      ensures reached == Scanned(old(apdu))
      ensures parsedSuccessfully <==> Scanned(old(apdu)).Some?
      ensures Cleared() && (parsedSuccessfully ==> isExtendedAPDU == Scanned(old(apdu)).value.extended)
    {
      parsedSuccessfully := false;
      var ok := Analyse();
      reached := None;
      if ok {
        reached := Some(State());
        parsedSuccessfully := true;
      }
      Clear();
    }

    /** Up to the labels. */
    method Analyse() returns (ok: bool)
      requires nc == 0 && ne == 0 && dataOffset == 0 && !isExtendedAPDU
      modifies `nc, `ne, `dataOffset, `isExtendedAPDU
      ensures ok <==> Scanned(apdu).Some?
      ensures ok ==> State() == Scanned(apdu).value
    {
      ok := true;
      if |apdu| < 4 {
        return false;
      }
      if |apdu| == 4 {
        return;
      }
      var l1: nat := apdu[4];
      if |apdu| == 5 {
        ne := if l1 == 0 then 256 else l1;
        return;
      }
      if l1 != 0 {
        if |apdu| == 4 + 1 + l1 {
          nc, dataOffset := l1, 5;
          return;
        } else if |apdu| == 4 + 2 + l1 {
          nc, dataOffset := l1, 5;
          var l2: nat := apdu[|apdu| - 1];
          ne := if l2 == 0 then 256 else l2;
          return;
        } else {
          return false;
        }
      }
      if |apdu| < 7 {
        return false;
      }
      var l2 := Word(apdu, 5);
      if |apdu| == 7 {
        ne := if l2 == 0 then 65536 else l2;
        isExtendedAPDU := true;
        return;
      }
      if l2 == 0 {
        return false;
      }
      if |apdu| == 4 + 3 + l2 {
        nc, dataOffset := l2, 7;
        isExtendedAPDU := true;
        return;
      }
      if |apdu| == 4 + 5 + l2 {
        nc, dataOffset := l2, 7;
        var l3 := Word(apdu, |apdu| - 2);
        ne := if l3 == 0 then 65536 else l3;
        isExtendedAPDU := true;
        return;
      }
      ok := false;
    }
  }


  /** Parsing what init built accepts it, with the same Nc, Ne, data offset and length format. */
  lemma BuiltAccepted(h: CommandHeader, data: seq<byte>, ne: nat)
    requires |data| <= 65535 && ne <= 65536
    ensures Scanned(Layout(h, BuiltBody(data, ne))) == Some(FieldsOf(BuiltBody(data, ne)))
  {
    LayoutAccepted(h, BuiltBody(data, ne));
  }

  /** Building again from an accepted APDU gives the same bytes exactly when its lengths were not written longer than
      they need to be. */
  lemma RebuiltExactly(apdu: seq<byte>)
    requires Scanned(apdu).Some?
    ensures var f := Scanned(apdu).value;
      && |apdu| >= 4 && f.dataOffset + f.nc <= |apdu| && BodyOf(apdu, f).Valid()
      && (Layout(apdu[..4], BuiltBody(BodyOf(apdu, f).data, f.ne)) == apdu <==> BodyOf(apdu, f).Canonical())
  {
    hide Scanned, Layout;
    AcceptedIsLayout(apdu);
    var f := Scanned(apdu).value;
    var b := BodyOf(apdu, f);
    var r := BuiltBody(b.data, f.ne);
    if Layout(apdu[..4], r) == apdu {
      LayoutInjective(apdu[..4], r, apdu[..4], b);
    }
  }
}
