/** What a sound container is, in bytes: the layout of EFI_TABLE_HEADER (signature at 0, revision at 8, size at 12, CRC
    at 16, reserved at 20), without reference to how the firmware tests it. */
module TableLayout {
  import opened Bytes

  /** The little-endian word at a place. */
  function WordAt(s: seq<byte>, at: nat): (w: u32)
    requires at + 4 <= |s|
  {
    var b0: int, b1: int, b2: int, b3: int := s[at], s[at + 1], s[at + 2], s[at + 3];
    b0 + 256 * b1 + 65536 * b2 + 16777216 * b3
  }

  lemma WordIsLe(s: seq<byte>, at: nat)
    requires at + 4 <= |s|
    ensures FromLe32(s[at..at + 4]) == WordAt(s, at)
  {
  }

  /** Bytes 16 to 19 zeroed, as far as there are any. */
  function Zeroed(s: seq<byte>): (z: seq<byte>)
    ensures |z| == |s|
  {
    if |s| <= 16 then s else if |s| <= 20 then s[..16] + Zeros(|s| - 16) else s[..16] + [0, 0, 0, 0] + s[20..]
  }

  /** The record at `pos` is not empty, ends by `end`, and holds the CRC of its bytes with the CRC itself zeroed. */
  predicate ChecksumRight(crc: seq<byte> -> u32, s: seq<byte>, pos: nat, end: nat) {
    && pos + 20 <= |s|
    && var n: nat := WordAt(s, pos + 12);
       0 < n && pos + n <= end && pos + n <= |s| && WordAt(s, pos + 16) == crc(Zeroed(s[pos..pos + n]))
  }

  /** From `pos` on, record after record of the sizes they give, up to `end`. */
  predicate ChainRight(crc: seq<byte> -> u32, s: seq<byte>, pos: nat, end: nat)
    decreases end - pos
  {
    pos >= end || (ChecksumRight(crc, s, pos, end) && ChainRight(crc, s, pos + WordAt(s, pos + 12), end))
  }

  /** "EFITABLE", the checksum of the whole, and the records in it from 24 on. */
  predicate SoundBytes(crc: seq<byte> -> u32, s: seq<byte>, maxSize: nat) {
    && |s| >= 20 && s[..8] == [0x45, 0x46, 0x49, 0x54, 0x41, 0x42, 0x4C, 0x45]
    && ChecksumRight(crc, s, 0, if maxSize == 0 then |s| else maxSize)
    && ChainRight(crc, s, 24, WordAt(s, 12))
  }

  /** Whatever byte is altered, a container is refused unless the CRC of the altered bytes is the one stored in them. */
  lemma AlteredRefused(crc: seq<byte> -> u32, s: seq<byte>, maxSize: nat, i: nat, b: byte)
    requires SoundBytes(crc, s, maxSize) && i < |s| && b != s[i]
    ensures var t := s[i := b];
      && (i < 8 || 16 <= i < 20 ==> !SoundBytes(crc, t, maxSize))
      && (20 <= i < WordAt(s, 12) && crc(Zeroed(t[..WordAt(s, 12)])) != crc(Zeroed(s[..WordAt(s, 12)])) ==>
            !SoundBytes(crc, t, maxSize))
      && (12 <= i < 16 && WordAt(t, 12) <= |s| && crc(Zeroed(t[..WordAt(t, 12)])) != WordAt(s, 16) ==>
            !SoundBytes(crc, t, maxSize))
  {
    hide Zeroed, ChainRight;
    var t := s[i := b];
    if i < 8 {
      assert t[..8][i] != s[..8][i];
    } else if 16 <= i < 20 {
      WordsDiffer(s, t, 16, i - 16);
      assert WordAt(t, 12) == WordAt(s, 12);
      SameZeroed(s, i, b, WordAt(s, 12));
    }
  }

  lemma WordsDiffer(s: seq<byte>, t: seq<byte>, at: nat, k: nat)
    requires at + 4 <= |s| == |t| && k < 4 && s[at + k] != t[at + k]
    requires (k == 0 || s[at] == t[at]) && (k == 1 || s[at + 1] == t[at + 1])
    requires (k == 2 || s[at + 2] == t[at + 2]) && (k == 3 || s[at + 3] == t[at + 3])
    ensures WordAt(s, at) != WordAt(t, at)
  {
  }

  lemma SameZeroed(s: seq<byte>, i: nat, b: byte, n: nat)
    requires 16 <= i < 20 <= |s| && n <= |s|
    ensures Zeroed(s[i := b][..n]) == Zeroed(s[..n])
  {
    var t := s[i := b];
    if n > 16 {
      assert t[..n][..16] == s[..n][..16];
    } else {
      assert t[..n] == s[..n];
    }
    if n > 20 {
      assert t[..n][20..] == s[..n][20..];
    }
  }

  /** Every record that is reached holds its own checksum. */
  lemma {:induction false} EveryRecordRight(crc: seq<byte> -> u32, s: seq<byte>, pos: nat, end: nat, at: nat)
    requires ChainRight(crc, s, pos, end) && Reaches(s, pos, end, at)
    ensures ChecksumRight(crc, s, at, end)
    decreases end - pos
  {
    if at != pos {
      EveryRecordRight(crc, s, pos + WordAt(s, pos + 12), end, at);
    }
  }

  /** A record begins at `at`, counted in sizes from `pos`. */
  predicate Reaches(s: seq<byte>, pos: nat, end: nat, at: nat)
    decreases end - pos
  {
    pos < end && (at == pos || (pos + 20 <= |s| && WordAt(s, pos + 12) > 0
                                && Reaches(s, pos + WordAt(s, pos + 12), end, at)))
  }
}
