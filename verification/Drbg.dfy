/** The deterministic generator with HMAC-SHA512 (DcsRandom.c, lines 200-320; NIST SP 800-90A, section 10.1.2). */
module Drbg {
  import opened Bytes

  type Digest = d: seq<byte> | |d| == 64 witness Zeros(64)

  /** HMAC-SHA512 of a key and a message. */
  type Hmac = (Digest, seq<byte>) -> Digest

  // ---- the standard ----

  /** Key and V. */
  datatype Working = Working(key: Digest, v: Digest)

  /** Section 10.1.2.2, HMAC_DRBG_Update; no provided data is the empty string. */
  function NistUpdate(hmac: Hmac, provided: seq<byte>, w: Working): Working {
    var key1 := hmac(w.key, w.v + [0x00] + provided);
    var v1 := hmac(key1, w.v);
    if provided == [] then Working(key1, v1)
    else
      var key2 := hmac(key1, v1 + [0x01] + provided);
      Working(key2, hmac(key2, v1))
  }

  /** Section 10.1.2.3, steps 2 to 4. */
  function NistInstantiate(hmac: Hmac, seedMaterial: seq<byte>): Working {
    NistUpdate(hmac, seedMaterial, Working(Zeros(64), Ones()))
  }

  function Ones(): Digest {
    seq(64, _ => 1)
  }

  /** The i-th value of V in the chain: V(i + 1) = HMAC(Key, V(i)). */
  function ChainV(hmac: Hmac, w: Working, i: nat): Digest {
    if i == 0 then w.v else hmac(w.key, ChainV(hmac, w, i - 1))
  }

  /** V(1), ..., V(k), one after the other. */
  function Temp(hmac: Hmac, w: Working, k: nat): (t: seq<byte>)
    ensures |t| == 64 * k
  {
    if k == 0 then [] else Temp(hmac, w, k - 1) + ChainV(hmac, w, k)
  }

  /** The fewest digests that hold n bytes. */
  function Blocks(n: nat): nat {
    (n + 63) / 64
  }

  lemma BlocksEnough(n: nat)
    ensures n <= 64 * Blocks(n) < n + 64
  {
  }

  /** Section 10.1.2.5, steps 2 to 6: the bytes and the new state. */
  function NistGenerate(hmac: Hmac, n: nat, additional: seq<byte>, w: Working): (r: (seq<byte>, Working))
    ensures |r.0| == n
  {
    var w1 := if additional == [] then w else NistUpdate(hmac, additional, w);
    BlocksEnough(n);
    var k := Blocks(n);
    (Temp(hmac, w1, k)[..n], NistUpdate(hmac, additional, Working(w1.key, ChainV(hmac, w1, k))))
  }

  /** Digests already produced do not change. */
  lemma {:induction false} TempPrefix(hmac: Hmac, w: Working, j: nat, k: nat)
    requires j <= k
    ensures Temp(hmac, w, k)[..64 * j] == Temp(hmac, w, j)
    decreases k
  {
    if j < k {
      TempPrefix(hmac, w, j, k - 1);
      assert Temp(hmac, w, k)[..64 * j] == Temp(hmac, w, k - 1)[..64 * j];
    }
  }

  /** Digest i of the output. */
  lemma TempAt(hmac: Hmac, w: Working, k: nat, i: nat)
    requires 0 < i <= k
    ensures Temp(hmac, w, k)[64 * (i - 1)..64 * i] == ChainV(hmac, w, i)
  {
    TempPrefix(hmac, w, i, k);
    var t := Temp(hmac, w, k);
    assert t[64 * (i - 1)..64 * i] == t[..64 * i][64 * (i - 1)..];
  }

  /** From one state, a shorter request gets a prefix of what a longer one gets. */
  lemma ShorterIsPrefix(hmac: Hmac, m: nat, n: nat, additional: seq<byte>, w: Working)
    requires m <= n
    ensures NistGenerate(hmac, m, additional, w).0 == NistGenerate(hmac, n, additional, w).0[..m]
  {
    hide NistUpdate;
    var w1 := if additional == [] then w else NistUpdate(hmac, additional, w);
    BlocksEnough(m);
    BlocksEnough(n);
    var t := Temp(hmac, w1, Blocks(n));
    TempPrefix(hmac, w1, Blocks(m), Blocks(n));
    assert t[..n][..m] == t[..64 * Blocks(m)][..m];
  }

  // ---- the program ----

  /** An optional seed pointer and its length: both absent and empty mean no data. */
  function Provided(seed: Option<seq<byte>>): seq<byte> {
    if seed.Some? then seed.value else []
  }

  class HmacDrbg {
    var v: array<byte>
    var c: array<byte>
    var reseedCtr: u64
    const hmac: Hmac

    ghost predicate Valid()
      reads this
    {
      v != c && v.Length == 64 && c.Length == 64
    }

    constructor (hmac: Hmac)
      ensures Valid() && fresh(v) && fresh(c) && this.hmac == hmac && reseedCtr == 0
    {
      v, c := new byte[64](_ => 0), new byte[64](_ => 0);
      reseedCtr := 0;
      this.hmac := hmac;
    }

    function State(): Working
      requires Valid()
      reads this, v, c
    {
      Working(c[..], v[..])
    }

    /** HmacSha512 with the key C into one of the state arrays. */
    method HmacInto(out: array<byte>, message: seq<byte>)
      requires Valid() && out.Length == 64
      modifies out
      ensures out[..] == hmac(old(c[..]), message)
    {
      var d := hmac(c[..], message);
      assert |d| == 64;
      forall k | 0 <= k < 64 {
        out[k] := d[k];
      }
      assert out[..] == d;
    }

    /** RndDtrmHmacSha512Update: instantiation (reseed false) or update. */
    method Update(seed: Option<seq<byte>>, reseed: bool)
      requires Valid()
      modifies v, c
      ensures State()
           == if reseed then NistUpdate(hmac, Provided(seed), old(State())) else NistInstantiate(hmac, Provided(seed))
    {
      if !reseed {
        forall k | 0 <= k < 64 {
          v[k] := 1;
        }
        forall k | 0 <= k < 64 {
          c[k] := 0;
        }
        assert v[..] == Ones() && c[..] == Zeros(64);
      }
      Round(0x00, seed);
      if seed.None? || seed.value == [] {
        return;
      }
      Round(0x01, seed);
    }

    /** One turn of the loop: HMAC for the key, then for V. */
    method Round(prefix: byte, seed: Option<seq<byte>>)
      requires Valid()
      modifies v, c
      ensures c[..] == hmac(old(c[..]), old(v[..]) + [prefix] + Provided(seed)) && v[..] == hmac(c[..], old(v[..]))
    {
      HmacInto(c, v[..] + [prefix] + Provided(seed));
      HmacInto(v, v[..]);
    }

    /** memcpy of the first n bytes of V. */
    method CopyOut(buf: array<byte>, at: nat, n: nat)
      requires Valid() && buf != v && at + n <= buf.Length && n <= 64
      modifies buf
      ensures buf[..at + n] == old(buf[..at]) + v[..n]
    {
      forall j | 0 <= j < n {
        buf[at + j] := v[j];
      }
    }

    /** RndDtrmHmacSha512Generate into the whole of buf. */
    method Generate(buf: array<byte>, seed: Option<seq<byte>>)
      requires Valid() && buf != v && buf != c
      modifies v, c, buf
      ensures (buf[..], State()) == NistGenerate(hmac, buf.Length, Provided(seed), old(State()))
    {
      hide NistUpdate;
      if seed.Some? && |seed.value| > 0 {
        Update(seed, true);
      }
      ghost var w := State();
      ghost var k := 0;
      var len := 0;
      assert buf[..0] == [] == Temp(hmac, w, 0)[..0];
      while len < buf.Length
        invariant len <= buf.Length && len == (if 64 * k <= buf.Length then 64 * k else buf.Length)
        invariant 64 * k < buf.Length + 64
        invariant buf[..len] == Temp(hmac, w, k)[..len]
        invariant c[..] == w.key && v[..] == ChainV(hmac, w, k)
      {
        HmacInto(v, v[..]);
        k := k + 1;
        var outlen := if 64 < buf.Length - len then 64 else buf.Length - len;
        ghost var done := buf[..len];
        CopyOut(buf, len, outlen);
        Extended(hmac, w, k, len, outlen, done);
        len := len + outlen;
      }
      BlocksEnough(buf.Length);
      assert k == Blocks(buf.Length);
      assert buf[..len] == buf[..];
      Update(seed, true);
    }

    /** RndDtrmHmacSha512GetBytes: the time is the additional input; after 2^48 requests nothing is given out. */
    method GetBytes(buf: array<byte>, time: seq<byte>) returns (ok: bool)
      requires Valid() && buf != v && buf != c
      modifies this`reseedCtr, v, c, buf
      ensures ok <==> old(reseedCtr) < 0x1_0000_0000_0000
      ensures ok ==> reseedCtr == old(reseedCtr) + 1
      ensures ok ==> (buf[..], State()) == NistGenerate(hmac, buf.Length, time, old(State()))
      ensures !ok ==> reseedCtr == old(reseedCtr) && buf[..] == old(buf[..]) && State() == old(State())
    {
      ok := false;
      if reseedCtr < 0x1_0000_0000_0000 {
        Generate(buf, Some(time));
        ok := true;
        reseedCtr := reseedCtr + 1;
      }
    }
  }

  lemma Extended(hmac: Hmac, w: Working, k: nat, len: nat, outlen: nat, done: seq<byte>)
    requires k > 0 && len == 64 * (k - 1) && outlen <= 64 && done == Temp(hmac, w, k - 1)[..len]
    ensures done + ChainV(hmac, w, k)[..outlen] == Temp(hmac, w, k)[..len + outlen]
  {
  }
}
