/** Building TPM 1.2 commands (Tpm12.c, lines 142-241, 382-403). */
module Tpm12 {
  import opened Bytes

  /** A parameter of a command; `hashed` parameters enter the digest that authorises it. */
  datatype Field = Field(bytes: seq<byte>, hashed: bool)

  function AllBytes(f: seq<Field>): seq<byte> {
    if f == [] then [] else AllBytes(f[..|f| - 1]) + f[|f| - 1].bytes
  }

  function HashedBytes(f: seq<Field>): seq<byte> {
    if f == [] then []
    else HashedBytes(f[..|f| - 1]) + if f[|f| - 1].hashed then f[|f| - 1].bytes else []
  }

  /** Tag, total size, ordinal, parameters; all big-endian. */
  function Message(tag: u16, ord: u32, f: seq<Field>): seq<byte>
    requires 10 + |AllBytes(f)| < TWO_32
  {
    Be16(tag) + Be32(10 + |AllBytes(f)|) + Be32(ord) + AllBytes(f)
  }

  /** The size field tells the length of the message. */
  lemma SizeIsLength(tag: u16, ord: u32, f: seq<Field>)
    requires 10 + |AllBytes(f)| < TWO_32
    ensures var m := Message(tag, ord, f); |m| == 10 + |AllBytes(f)| && FromBe32(m[2..6]) == |m|
  {
    var m := Message(tag, ord, f);
    assert m[2..6] == Be32(10 + |AllBytes(f)|);
    Be32RoundTrip(10 + |AllBytes(f)|);
  }

  /** After a transmission the digest is fed bytes 2 to 5 of the command; they are the ordinal only when it happens to
      be the length. */
  lemma HashedIsOrdinalExactly(tag: u16, ord: u32, f: seq<Field>)
    requires 10 + |AllBytes(f)| < TWO_32
    ensures var m := Message(tag, ord, f); m[6..10] == Be32(ord) && (m[2..6] == m[6..10] <==> |m| == ord)
  {
    var m := Message(tag, ord, f);
    assert m[2..6] == Be32(10 + |AllBytes(f)|) && m[6..10] == Be32(ord);
    Be32RoundTrip(10 + |AllBytes(f)|);
    Be32RoundTrip(ord);
  }

  datatype Status = Success | BufferTooSmall | DeviceError

  /** DCS_TPM12IO; `hash` is what the SHA-1 context has been fed since it was last started. */
  class TpmIo {
    const cmd: array<byte>
    const resp: array<byte>
    var cmdPos: nat
    var respPos: nat
    var hash: seq<byte>

    /** Buffers with room for the sizes that are patched and read without a check. */
    ghost predicate Valid()
      reads this
    {
      cmd != resp && 6 <= cmd.Length < TWO_32 && 10 <= resp.Length && cmdPos <= cmd.Length
    }

    constructor (cmdSize: nat, respSize: nat)
      requires 6 <= cmdSize < TWO_32 && 10 <= respSize
      ensures Valid() && fresh(cmd) && fresh(resp) && cmd.Length == cmdSize && resp.Length == respSize
    {
      cmd, resp := new byte[cmdSize](_ => 0), new byte[respSize](_ => 0);
      cmdPos, respPos, hash := 0, 0, [];
    }

    /** A write has not fitted. */
    predicate Overflowed()
      reads this
    {
      cmdPos == cmd.Length
    }

    /** The command so far is in the buffer, zeros behind it, and the digest has been fed the ordinal and the hashed
        parameters in order. */
    ghost predicate Built(tag: u16, ord: u32, f: seq<Field>)
      reads this, cmd
    {
      && cmdPos == 10 + |AllBytes(f)| < cmd.Length < TWO_32
      && cmd[..cmdPos] == Message(tag, ord, f)
      && (forall k :: cmdPos <= k < cmd.Length ==> cmd[k] == 0)
      && hash == Be32(ord) + HashedBytes(f)
    }

    /** Bytes stored at a place of the buffer. */
    method Store(at: nat, b: seq<byte>)
      requires at + |b| <= cmd.Length
      modifies cmd
      ensures cmd[..] == Splice(old(cmd[..]), at, b)
    {
      forall k | 0 <= k < |b| {
        cmd[at + k] := b[k];
      }
      assert cmd[at..at + |b|] == b;
      forall k | 0 <= k < cmd.Length ensures cmd[k] == Splice(old(cmd[..]), at, b)[k] {
        if at <= k < at + |b| {
          assert cmd[k] == b[k - at];
          assert Splice(old(cmd[..]), at, b)[at..at + |b|][k - at] == b[k - at];
        }
      }
    }

    method Tpm12IOUpdateCmdSize()
      requires Valid()
      modifies cmd
      ensures cmd[..] == Splice(old(cmd[..]), 2, Be32(cmdPos))
    {
      Store(2, Be32(cmdPos));
    }

    /** Tpm12IOWriteBytes, and with two and four bytes Tpm12IOWrite16 and Tpm12IOWrite32: the last byte of the buffer
        is never used. */
    method Tpm12IOWriteBytes(prm: seq<byte>, hashIt: bool) returns (r: Status)
      requires Valid()
      modifies cmd, `cmdPos, `hash
      ensures Valid() && (r == Success <==> old(cmdPos) + |prm| < cmd.Length) && (r == Success || r == BufferTooSmall)
      ensures r == Success ==> cmdPos == old(cmdPos) + |prm| && hash == old(hash) + (if hashIt then prm else [])
      ensures r == Success ==> cmd[..] == Splice(Splice(old(cmd[..]), old(cmdPos), prm), 2, Be32(cmdPos))
      ensures r != Success ==> Overflowed() && cmd[..] == old(cmd[..]) && hash == old(hash)
    {
      if cmdPos + |prm| >= cmd.Length {
        cmdPos := cmd.Length;
        return BufferTooSmall;
      }
      Store(cmdPos, prm);
      if hashIt {
        hash := hash + prm;
      }
      cmdPos := cmdPos + |prm|;
      Tpm12IOUpdateCmdSize();
      r := Success;
    }

    /** A parameter extends the command, or does not fit. */
    method WriteField(ghost tag: u16, ghost ord: u32, ghost f: seq<Field>, field: Field) returns (r: Status)
      requires Valid() && (Overflowed() || Built(tag, ord, f))
      modifies cmd, `cmdPos, `hash
      ensures Valid() && (r == Success <==> old(cmdPos) + |field.bytes| < cmd.Length)
      ensures r == Success ==> !old(Overflowed()) && Built(tag, ord, f + [field])
      ensures r != Success ==> Overflowed()
    {
      ghost var was, pos := cmd[..], cmdPos;
      r := Tpm12IOWriteBytes(field.bytes, field.hashed);
      if r == Success {
        assert (f + [field])[..|f|] == f;
        MessageExtended(was, pos, tag, ord, f, field, cmd[..]);
      }
    }

    /** Tpm12IOInit: the statuses of the first two writes are dropped, the third tells. */
    method Tpm12IOInit(tag: u16, ord: u32) returns (r: Status)
      requires Valid()
      modifies this, cmd, resp
      ensures Valid() && (r == Success <==> cmd.Length > 10)
      ensures r == Success ==> Built(tag, ord, [])
      ensures r != Success ==> Overflowed()
    {
      cmdPos := 0;
      forall k | 0 <= k < cmd.Length {
        cmd[k] := 0;
      }
      respPos := 0;
      forall k | 0 <= k < resp.Length {
        resp[k] := 0;
      }
      hash := [];
      assert cmd[..] == Zeros(cmd.Length);
      ghost var z := cmd[..];
      var _ := Tpm12IOWriteBytes(Be16(tag), false);
      ghost var a := cmd[..];
      var _ := Tpm12IOWriteBytes(Be32(0), false);
      ghost var b := cmd[..];
      r := Tpm12IOWriteBytes(Be32(ord), true);
      if r == Success {
        HeaderBuilt(z, a, b, cmd[..], tag, ord);
      }
    }

    /** Init and any sequence of writes: everything fits and is in place, or one write has not fitted. */
    method BuildCommand(tag: u16, ord: u32, fields: seq<Field>) returns (ok: bool)
      requires Valid()
      modifies this, cmd, resp
      ensures Valid() && (ok <==> 10 + |AllBytes(fields)| < cmd.Length)
      ensures ok ==> Built(tag, ord, fields)
      ensures !ok ==> Overflowed()
    {
      hide TpmIo.Built;
      var r := Tpm12IOInit(tag, ord);
      ok := r == Success;
      for i := 0 to |fields|
        invariant Valid() && (ok ==> Built(tag, ord, fields[..i]) && !Overflowed())
        invariant ok <==> 10 + |AllBytes(fields[..i])| < cmd.Length
        invariant !ok ==> Overflowed()
      {
        LastField(fields, i);
        BuiltPos(this, tag, ord, fields[..i]);
        // nothing stops a caller from going on after an overflow
        var s := WriteField(tag, ord, fields[..i], fields[i]);
        ok := s == Success;
      }
      assert fields[..|fields|] == fields;
    }

    /** Tpm12Transmit: `response` is what the device answers to a command, if it can be reached. */
    method Tpm12Transmit(response: seq<byte> -> Option<seq<byte>>) returns (r: Status)
      requires Valid() && (forall m :: response(m).Some? ==> |response(m).value| <= resp.Length)
      modifies this, resp
      ensures Valid() && (old(Overflowed()) ==> r == BufferTooSmall && hash == old(hash) && resp[..] == old(resp[..]))
      ensures r == Success ==> respPos == 10 && resp[6..10] == Zeros(4) && hash == resp[6..10] + cmd[2..6]
    {
      if cmdPos >= cmd.Length {
        return BufferTooSmall;
      }
      var answer := response(cmd[..cmdPos]);
      if answer.None? {
        return DeviceError;
      }
      forall k | 0 <= k < |answer.value| {
        resp[k] := answer.value[k];
      }
      if FromBe32(resp[6..10]) != 0 {
        return DeviceError;
      }
      CodeZero(resp[6..10]);
      hash := [];
      respPos := 6;
      hash := hash + resp[6..10];
      respPos := respPos + 4;
      // the comment calls this the ordinal; it is the size field
      hash := hash + cmd[2..6];
      r := Success;
    }
  }

  lemma CodeZero(b: seq<byte>)
    requires |b| == 4 && FromBe32(b) == 0
    ensures b == Zeros(4)
  {
  }

  lemma LastField(f: seq<Field>, i: nat)
    requires i < |f|
    ensures f[..i + 1] == f[..i] + [f[i]] && AllBytes(f[..i + 1]) == AllBytes(f[..i]) + f[i].bytes
  {
    assert f[..i + 1][..i] == f[..i];
  }

  lemma BuiltPos(io: TpmIo, tag: u16, ord: u32, f: seq<Field>)
    ensures io.Built(tag, ord, f) ==> io.cmdPos == 10 + |AllBytes(f)|
  {
  }

  /** Storing a parameter behind a message and patching its size field gives the longer message. */
  lemma MessageExtended(was: seq<byte>, pos: nat, tag: u16, ord: u32, f: seq<Field>, field: Field, now: seq<byte>)
    requires pos == 10 + |AllBytes(f)| && pos + |field.bytes| < |was| < TWO_32 && was[..pos] == Message(tag, ord, f)
    requires now == Splice(Splice(was, pos, field.bytes), 2, Be32(pos + |field.bytes|))
    ensures |AllBytes(f + [field])| == |AllBytes(f)| + |field.bytes|
    ensures now[..pos + |field.bytes|] == Message(tag, ord, f + [field])
    ensures forall k :: pos + |field.bytes| <= k < |was| ==> now[k] == was[k]
  {
    hide Splice, Be16, Be32;
    assert (f + [field])[..|f|] == f;
    assert AllBytes(f + [field]) == AllBytes(f) + field.bytes;
    var p, n := Splice(was, pos, field.bytes), pos + |field.bytes|;
    MessageParts(tag, ord, f, was, pos);
    Beside(was, pos, field.bytes, 0, 2);
    Beside(was, pos, field.bytes, 6, 10);
    Beside(was, pos, field.bytes, 10, pos);
    Beside(p, 2, Be32(n), 0, 2);
    Beside(p, 2, Be32(n), 6, 10);
    Beside(p, 2, Be32(n), 10, pos);
    Beside(p, 2, Be32(n), pos, n);
    FivePieces(now, pos, n);
  }

  lemma Beside(s: seq<byte>, at: nat, piece: seq<byte>, i: nat, j: nat)
    requires at + |piece| <= |s| && i <= j <= |s| && (j <= at || at + |piece| <= i)
    ensures Splice(s, at, piece)[i..j] == s[i..j]
  {
  }

  lemma MessageParts(tag: u16, ord: u32, f: seq<Field>, was: seq<byte>, pos: nat)
    requires pos == 10 + |AllBytes(f)| < TWO_32 && pos <= |was| && was[..pos] == Message(tag, ord, f)
    ensures was[0..2] == Be16(tag) && was[6..10] == Be32(ord) && was[10..pos] == AllBytes(f)
  {
    var m := Message(tag, ord, f);
    assert was[0..2] == was[..pos][0..2] && was[6..10] == was[..pos][6..10] && was[10..pos] == was[..pos][10..];
  }

  lemma FivePieces(s: seq<byte>, i: nat, j: nat)
    requires 10 <= i <= j <= |s|
    ensures s[..j] == s[0..2] + s[2..6] + s[6..10] + (s[10..i] + s[i..j])
  {
  }

  lemma HeaderBuilt(z: seq<byte>, a: seq<byte>, b: seq<byte>, c: seq<byte>, tag: u16, ord: u32)
    requires 10 < |z| < TWO_32 && z == Zeros(|z|)
    requires a == Splice(Splice(z, 0, Be16(tag)), 2, Be32(2))
    requires b == Splice(Splice(a, 2, Be32(0)), 2, Be32(6))
    requires c == Splice(Splice(b, 6, Be32(ord)), 2, Be32(10))
    ensures c[..10] == Message(tag, ord, []) && forall k :: 10 <= k < |c| ==> c[k] == 0
  {
    assert c[..2] == b[..2] == a[..2] == Splice(z, 0, Be16(tag))[..2] == Be16(tag);
    assert c[2..6] == Be32(10);
    assert c[6..10] == Splice(b, 6, Be32(ord))[6..10] == Be32(ord);
    assert c[..10] == c[..2] + c[2..6] + c[6..10] + [];
  }
}
