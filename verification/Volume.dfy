/** Sectors, the per-sector cipher and the volume header sector (EFI/src/Common/Crypto.c, Volumes.c). */
module Volume {
  import opened Bytes

  type Sector = s: seq<byte> | |s| == 512 witness seq(512, _ => 0)

  /** The data cipher: a bijection on sectors, tweaked by the sector number. */
  datatype Cipher = Cipher(enc: (nat, Sector) -> Sector, dec: (nat, Sector) -> Sector) {
    ghost predicate Valid() {
      && (forall k: nat, x: Sector :: dec(k, enc(k, x)) == x)
      && (forall k: nat, x: Sector :: enc(k, dec(k, x)) == x)
    }
  }

  /** EncryptDataUnits: consecutive units, the first numbered `first`. */
  function EncryptUnits(c: Cipher, first: nat, buf: seq<Sector>): seq<Sector> {
    seq(|buf|, i requires 0 <= i < |buf| => c.enc(first + i, buf[i]))
  }

  /** DecryptDataUnits. */
  function DecryptUnits(c: Cipher, first: nat, buf: seq<Sector>): seq<Sector> {
    seq(|buf|, i requires 0 <= i < |buf| => c.dec(first + i, buf[i]))
  }

  const NTFS_MARK: seq<byte> := [0xEB, 0x52, 0x90, 0x4E, 0x54, 0x46, 0x53, 0x20]

  predicate IsNtfs(s: Sector) {
    s[..8] == NTFS_MARK
  }

  // ---- the volume header sector: 64 bytes of salt, then 448 encrypted bytes ----

  const SALT: nat := 64
  const OFFSET_MAGIC: nat := 64
  const OFFSET_AREA_LENGTH: nat := 116
  const OFFSET_HEADER_CRC: nat := 252
  const MAGIC: u32 := 0x56455241

  type Body = b: seq<byte> | |b| == 448 witness seq(448, _ => 0)

  /** The key a header is encrypted under, and the CRC-32 its fields are protected by. */
  datatype HeaderKey = HeaderKey(enc: Body -> Body, dec: Body -> Body, crc: seq<byte> -> u32) {
    ghost predicate Valid() {
      && (forall x: Body :: dec(enc(x)) == x)
      && (forall x: Body :: enc(dec(x)) == x)
    }
  }

  /** The header in clear: DecryptBuffer over everything after the salt. */
  function Opened(h: HeaderKey, s: Sector): Sector {
    s[..SALT] + h.dec(s[SALT..])
  }

  /** EncryptBuffer over everything after the salt. */
  function Closed(h: HeaderKey, s: Sector): Sector {
    s[..SALT] + h.enc(s[SALT..])
  }

  predicate HasMagic(h: HeaderKey, s: Sector) {
    FromBe32(Opened(h, s)[OFFSET_MAGIC..OFFSET_MAGIC + 4]) == MAGIC
  }

  function AreaLength(h: HeaderKey, s: Sector): u64 {
    FromBe64(Opened(h, s)[OFFSET_AREA_LENGTH..OFFSET_AREA_LENGTH + 8])
  }

  /** What ReadVolumeHeader requires of the field area: magic and CRC. */
  predicate HeaderReadable(h: HeaderKey, s: Sector) {
    && HasMagic(h, s)
    && FromBe32(Opened(h, s)[OFFSET_HEADER_CRC..OFFSET_HEADER_CRC + 4])
       == h.crc(Opened(h, s)[OFFSET_MAGIC..OFFSET_HEADER_CRC])
  }

  /** The field edit of a header in clear: new area length, then the CRC over the fields before it. */
  function Edited(h: HeaderKey, open: Sector, areaLength: u64): Sector {
    var withLength := Splice(open, OFFSET_AREA_LENGTH, Be64(areaLength));
    Splice(withLength, OFFSET_HEADER_CRC, Be32(h.crc(withLength[OFFSET_MAGIC..OFFSET_HEADER_CRC])))
  }

  function Stamped(h: HeaderKey, s: Sector, areaLength: u64): Sector {
    Closed(h, Edited(h, Opened(h, s), areaLength))
  }

  lemma OpenedClosed(h: HeaderKey, s: Sector)
    requires h.Valid()
    ensures Opened(h, Closed(h, s)) == s
  {
    assert Closed(h, s)[..SALT] == s[..SALT];
    assert Closed(h, s)[SALT..] == h.enc(s[SALT..]);
    assert s[..SALT] + s[SALT..] == s;
  }

  /** A stamped header is readable, carries exactly the new length, and keeps every other byte. */
  lemma StampedDecodes(h: HeaderKey, s: Sector, areaLength: u64)
    requires h.Valid() && HasMagic(h, s)
    ensures HeaderReadable(h, Stamped(h, s, areaLength))
    ensures AreaLength(h, Stamped(h, s, areaLength)) == areaLength
    ensures forall i :: 0 <= i < 512 && !(OFFSET_AREA_LENGTH <= i < OFFSET_AREA_LENGTH + 8)
              && !(OFFSET_HEADER_CRC <= i < OFFSET_HEADER_CRC + 4)
              ==> Opened(h, Stamped(h, s, areaLength))[i] == Opened(h, s)[i]
  {
    var open := Opened(h, s);
    var a := Splice(open, OFFSET_AREA_LENGTH, Be64(areaLength));
    var e := Edited(h, open, areaLength);
    OpenedClosed(h, e);
    assert e[OFFSET_MAGIC..OFFSET_MAGIC + 4] == open[OFFSET_MAGIC..OFFSET_MAGIC + 4];
    assert e[OFFSET_AREA_LENGTH..OFFSET_AREA_LENGTH + 8] == a[OFFSET_AREA_LENGTH..OFFSET_AREA_LENGTH + 8];
    assert e[OFFSET_MAGIC..OFFSET_HEADER_CRC] == a[OFFSET_MAGIC..OFFSET_HEADER_CRC];
    Be64RoundTrip(areaLength);
    Be32RoundTrip(h.crc(a[OFFSET_MAGIC..OFFSET_HEADER_CRC]));
  }

  /** In bytes: the salt as it was; behind it, once decrypted, "VERA" at 64, the length at 116, at 252 the CRC of what
      lies between 64 and 252, and everything else as it was. */
  lemma StampedBytes(h: HeaderKey, s: Sector, areaLength: u64)
    requires h.Valid() && h.dec(s[64..])[..4] == [0x56, 0x45, 0x52, 0x41]
    ensures Opened(h, s) == s[..64] + h.dec(s[64..])
    ensures var now, body, was := Stamped(h, s, areaLength), h.dec(Stamped(h, s, areaLength)[64..]), h.dec(s[64..]);
      && now[..64] == s[..64] && body[..4] == [0x56, 0x45, 0x52, 0x41] && body[52..60] == Be64(areaLength)
      && body[188..192] == Be32(h.crc(body[..188]))
      && forall i :: 0 <= i < 448 && !(52 <= i < 60) && !(188 <= i < 192) ==> body[i] == was[i]
  {
    hide Be64, Be32;
    var was := h.dec(s[64..]);
    var open := Opened(h, s);
    var a, e := Splice(open, 116, Be64(areaLength)), Edited(h, open, areaLength);
    assert open[64..] == was && open[..64] == s[..64];
    OpenedClosed(h, e);
    var body := e[64..];
    assert Stamped(h, s, areaLength)[..64] == e[..64] == s[..64];
    assert Stamped(h, s, areaLength)[64..] == h.enc(body);
    assert a[64..252] == e[64..252] == body[..188];
    assert body[52..60] == e[116..124] == a[116..124];
    assert body[188..192] == e[252..256];
    assert forall i :: 0 <= i < 448 ==> body[i] == e[64 + i] && was[i] == open[64 + i];
    assert body[..4] == e[64..68] == open[64..68] == was[..4];
  }

  /** Only the last of several stamps shows. */
  lemma StampedTwice(h: HeaderKey, s: Sector, first: u64, second: u64)
    requires h.Valid()
    ensures Stamped(h, Stamped(h, s, first), second) == Stamped(h, s, second)
  {
    var open := Opened(h, s);
    var e := Edited(h, open, first);
    OpenedClosed(h, e);
    var a, b := Splice(open, OFFSET_AREA_LENGTH, Be64(second)), Splice(e, OFFSET_AREA_LENGTH, Be64(second));
    assert a[OFFSET_MAGIC..OFFSET_HEADER_CRC] == b[OFFSET_MAGIC..OFFSET_HEADER_CRC] by {
      forall i | OFFSET_MAGIC <= i < OFFSET_HEADER_CRC
        ensures a[i] == b[i]
      {
        if OFFSET_AREA_LENGTH <= i < OFFSET_AREA_LENGTH + 8 {
          var w := Be64(second);
          assert a[i] == a[OFFSET_AREA_LENGTH..OFFSET_AREA_LENGTH + 8][i - OFFSET_AREA_LENGTH];
          assert b[i] == b[OFFSET_AREA_LENGTH..OFFSET_AREA_LENGTH + 8][i - OFFSET_AREA_LENGTH];
        }
      }
    }
    assert Edited(h, open, second) == Edited(h, e, second);
  }
}
