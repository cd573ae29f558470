/** Machine integers, byte strings and the fixed-width encodings the firmware structures use. */
module Bytes {

  const TWO_32: int := 0x1_0000_0000
  const TWO_64: int := 0x1_0000_0000_0000_0000

  type byte = x: int | 0 <= x < 0x100
  type u16 = x: int | 0 <= x < 0x1_0000
  type u32 = x: int | 0 <= x < 0x1_0000_0000
  type u64 = x: int | 0 <= x < 0x1_0000_0000_0000_0000

  datatype Option<+T> = None | Some(value: T)

  function Power2(n: nat): (p: nat)
    ensures p > 0
  {
    if n == 0 then 1 else 2 * Power2(n - 1)
  }

  function Zeros(n: nat): (z: seq<byte>)
  {
    seq(n, _ => 0)
  }

  /** Little-endian fields: UEFI structures. */
  function Le32(x: u32): (b: seq<byte>)
    ensures |b| == 4
  {
    var x1 := x / 0x100;
    var x2 := x1 / 0x100;
    [x % 0x100, x1 % 0x100, x2 % 0x100, x2 / 0x100]
  }

  function FromLe32(b: seq<byte>): (x: u32)
    requires |b| == 4
  {
    var b0: int, b1: int, b2: int, b3: int := b[0], b[1], b[2], b[3];
    b0 + 0x100 * b1 + 0x1_0000 * b2 + 0x100_0000 * b3
  }

  lemma Le32RoundTrip(x: u32)
    ensures FromLe32(Le32(x)) == x
  {
  }

  function Le64(x: u64): (b: seq<byte>)
    ensures |b| == 8
  {
    Le32(x % 0x1_0000_0000) + Le32(x / 0x1_0000_0000)
  }

  function FromLe64(b: seq<byte>): (x: u64)
    requires |b| == 8
  {
    var lo: int, hi: int := FromLe32(b[..4]), FromLe32(b[4..]);
    lo + 0x1_0000_0000 * hi
  }

  lemma Le64RoundTrip(x: u64)
    ensures FromLe64(Le64(x)) == x
  {
    var lo: u32, hi: u32 := x % 0x1_0000_0000, x / 0x1_0000_0000;
    var l, h := Le32(lo), Le32(hi);
    assert Le64(x) == l + h;
    Le32RoundTrip(lo);
    Le32RoundTrip(hi);
    assert (l + h)[..4] == l && (l + h)[4..] == h;
  }

  /** Little-endian fields inside a structure. */
  function U32At(b: seq<byte>, at: nat): u32
    requires at + 4 <= |b|
  {
    FromLe32(b[at..at + 4])
  }

  function U64At(b: seq<byte>, at: nat): u64
    requires at + 8 <= |b|
  {
    FromLe64(b[at..at + 8])
  }

  /** Big-endian fields: VeraCrypt volume headers, TPM commands and APDUs. */
  function Be16(x: u16): (b: seq<byte>)
    ensures |b| == 2
  {
    [x / 0x100, x % 0x100]
  }

  function Be32(x: u32): (b: seq<byte>)
    ensures |b| == 4
  {
    var x1 := x / 0x100;
    var x2 := x1 / 0x100;
    [x2 / 0x100, x2 % 0x100, x1 % 0x100, x % 0x100]
  }

  function FromBe32(b: seq<byte>): (x: u32)
    requires |b| == 4
  {
    var b0: int, b1: int, b2: int, b3: int := b[0], b[1], b[2], b[3];
    0x100_0000 * b0 + 0x1_0000 * b1 + 0x100 * b2 + b3
  }

  lemma Be32RoundTrip(x: u32)
    ensures FromBe32(Be32(x)) == x
  {
  }

  function Be64(x: u64): (b: seq<byte>)
    ensures |b| == 8
  {
    Be32(x / 0x1_0000_0000) + Be32(x % 0x1_0000_0000)
  }

  function FromBe64(b: seq<byte>): (x: u64)
    requires |b| == 8
  {
    var hi: int, lo: int := FromBe32(b[..4]), FromBe32(b[4..]);
    0x1_0000_0000 * hi + lo
  }

  lemma Be64RoundTrip(x: u64)
    ensures FromBe64(Be64(x)) == x
  {
    var lo: u32, hi: u32 := x % 0x1_0000_0000, x / 0x1_0000_0000;
    var l, h := Be32(lo), Be32(hi);
    assert Be64(x) == h + l;
    Be32RoundTrip(lo);
    Be32RoundTrip(hi);
    assert (h + l)[..4] == h && (h + l)[4..] == l;
  }

  /** `piece` stored over the bytes of `s` that start at `at`. */
  function Splice<T>(s: seq<T>, at: nat, piece: seq<T>): (r: seq<T>)
    requires at + |piece| <= |s|
    ensures |r| == |s|
    ensures r[at..at + |piece|] == piece
    ensures forall i :: 0 <= i < |s| && !(at <= i < at + |piece|) ==> r[i] == s[i]
  {
    s[..at] + piece + s[at + |piece|..]
  }

  lemma ConcatFirst<T>(a: seq<T>, b: seq<T>)
    requires a != []
    ensures (a + b)[0] == a[0] && (a + b)[1..] == a[1..] + b
  {
  }

  lemma ConcatAssoc<T>(a: seq<T>, b: seq<T>, c: seq<T>)
    ensures a + (b + c) == (a + b) + c
  {
  }
}
