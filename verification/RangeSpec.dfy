/** What one pass of the RangeCrypt loop does to a disk, and what whole runs of passes amount to. */
module RangeSpec {
  import opened Bytes
  import opened Volume

  /** CRYPT_BUF_SECTORS, where it stands alone. */
  const BUF_SECTORS: nat := 102400

  type Disk = seq<Sector>

  datatype Job = Job(cipher: Cipher, encrypt: bool, system: bool, start: nat)

  /** The loop variables: the disk, the sectors still to do, and the next transfer position (UINT64). */
  datatype Pass = Pass(data: Disk, remains: nat, pos: nat)

  function Chunk(remains: nat): nat {
    if remains > BUF_SECTORS then BUF_SECTORS else remains
  }

  /** Lines 444-451: where a run starts when `enSize` of the `size` sectors are already encrypted. */
  function Begin(job: Job, data: Disk, size: nat, enSize: nat): Pass
    requires enSize <= size
  {
    if job.encrypt then
      Pass(data, size - enSize, job.start + enSize)
    else
      Pass(data, enSize, job.start + enSize - Chunk(enSize))
  }

  predicate CanMove(p: Pass, rd: nat) {
    0 < rd <= Chunk(p.remains) && p.pos + rd <= |p.data|
  }

  /** The buffer after the cipher, with the plaintext first sector of a system partition allowed for. */
  function Crypted(job: Job, pos: nat, buf: seq<Sector>): (r: seq<Sector>)
    requires |buf| > 0
    ensures |r| == |buf|
  {
    if job.encrypt then EncryptUnits(job.cipher, pos, buf)
    else if job.system && pos == job.start && IsNtfs(buf[0]) then
      DecryptUnits(job.cipher, pos, buf[0 := job.cipher.enc(pos, buf[0])])
    else DecryptUnits(job.cipher, pos, buf)
  }

  /** One pass: `rd` sectors read, crypted and written back, and the loop variables advanced. */
  function Move(job: Job, p: Pass, rd: nat): Pass
    requires CanMove(p, rd)
  {
    var out := Crypted(job, p.pos, p.data[p.pos..p.pos + rd]);
    var left := p.remains - rd;
    Pass(Splice(p.data, p.pos, out), left,
         if job.encrypt then p.pos + rd
         else (p.pos - (if rd > left then left else rd)) % TWO_64)
  }

  /** A whole run: the sizes actually moved, one per pass. */
  ghost predicate CanRun(job: Job, p: Pass, rds: seq<nat>)
    decreases |rds|
  {
    rds != [] ==> CanMove(p, rds[0]) && CanRun(job, Move(job, p, rds[0]), rds[1..])
  }

  ghost function Run(job: Job, p: Pass, rds: seq<nat>): Pass
    requires CanRun(job, p, rds)
    decreases |rds|
  {
    if rds == [] then p else Run(job, Move(job, p, rds[0]), rds[1..])
  }

  function Sum(rds: seq<nat>): nat {
    if rds == [] then 0 else rds[0] + Sum(rds[1..])
  }

  /** No pass moved less than a full buffer: every read that was retried was a one-sector read. */
  predicate Unshrunken(remains: nat, rds: seq<nat>)
    decreases |rds|
  {
    rds != [] ==> 0 < rds[0] == Chunk(remains) && Unshrunken(remains - rds[0], rds[1..])
  }

  // ---- the reference picture: a range split at one boundary ----

  /** The first `k` sectors of the range encrypted under their own number, all else plaintext. */
  function Mixed(c: Cipher, plain: Disk, start: nat, k: nat): (d: Disk)
    ensures |d| == |plain|
    ensures forall i :: 0 <= i < |plain| ==> d[i] == MixedSector(c, plain, start, k, i)
  {
    seq(|plain|, i requires 0 <= i < |plain| => MixedSector(c, plain, start, k, i))
  }

  function MixedSector(c: Cipher, plain: Disk, start: nat, k: nat, i: nat): Sector
    requires i < |plain|
  {
    if start <= i < start + k then c.enc(i, plain[i]) else plain[i]
  }

  function At(job: Job, plain: Disk, size: nat, k: nat): Pass
    requires k <= size
  {
    Begin(job, Mixed(job.cipher, plain, job.start, k), size, k)
  }

  /** The guard of line 492 stays quiet on this range: its encrypted first sector does not look like NTFS. */
  predicate FirstSectorHidden(job: Job, plain: Disk) {
    !job.encrypt && job.system && job.start < |plain| ==> !IsNtfs(job.cipher.enc(job.start, plain[job.start]))
  }

  // ---- one pass ----

  /** The sectors a pass leaves behind. */
  lemma MovedData(job: Job, p: Pass, rd: nat, i: nat)
    requires CanMove(p, rd) && i < |p.data|
    ensures |Move(job, p, rd).data| == |p.data|
    ensures Move(job, p, rd).data[i]
         == if p.pos <= i < p.pos + rd then Crypted(job, p.pos, p.data[p.pos..p.pos + rd])[i - p.pos] else p.data[i]
  {
    var out := Crypted(job, p.pos, p.data[p.pos..p.pos + rd]);
    if p.pos <= i < p.pos + rd {
      assert Splice(p.data, p.pos, out)[p.pos..p.pos + rd][i - p.pos] == out[i - p.pos];
    }
  }

  /** Where a pass that moves the boundary leaves the loop variables. */
  lemma CursorStep(job: Job, data: Disk, size: nat, k: nat, rd: nat)
    requires k <= size && job.start + size <= |data|
    requires CanMove(Begin(job, data, size, k), rd)
    requires job.encrypt || (rd == Chunk(k) && |data| < TWO_64)
    ensures job.encrypt ==> k + rd <= size
    ensures !job.encrypt ==> rd <= k
    ensures var q := Move(job, Begin(job, data, size, k), rd);
      && |q.data| == |data|
      && q == Begin(job, q.data, size, if job.encrypt then k + rd else k - rd)
  {
  }

  /** Encrypting moves the boundary up by whatever was read, shrunken or not. */
  lemma EncryptMoves(job: Job, plain: Disk, size: nat, k: nat, rd: nat)
    requires job.encrypt && k <= size && job.start + size <= |plain|
    requires 0 < rd <= Chunk(size - k)
    ensures CanMove(At(job, plain, size, k), rd)
    ensures Move(job, At(job, plain, size, k), rd) == At(job, plain, size, k + rd)
  {
    var p := At(job, plain, size, k);
    CursorStep(job, p.data, size, k, rd);
    var after, want := Move(job, p, rd).data, Mixed(job.cipher, plain, job.start, k + rd);
    hide Move, Splice, Crypted;
    forall i | 0 <= i < |plain| ensures after[i] == want[i] {
      MovedData(job, p, rd, i);
      if p.pos <= i < p.pos + rd {
        EncryptedSector(job, plain, size, k, rd, i);
      }
    }
    assert after == want;
  }

  lemma EncryptedSector(job: Job, plain: Disk, size: nat, k: nat, rd: nat, i: nat)
    requires job.encrypt && k <= size && job.start + size <= |plain|
    requires 0 < rd <= Chunk(size - k) && job.start + k <= i < job.start + k + rd
    ensures var p := At(job, plain, size, k);
      CanMove(p, rd) && Crypted(job, p.pos, p.data[p.pos..p.pos + rd])[i - p.pos] == job.cipher.enc(i, plain[i])
  {
    var p := At(job, plain, size, k);
    var buf := p.data[p.pos..p.pos + rd];
    assert buf[i - p.pos] == p.data[i] == plain[i];
  }

  /** Decrypting a full buffer moves the boundary down by it. */
  lemma DecryptMoves(job: Job, plain: Disk, size: nat, k: nat)
    requires job.cipher.Valid() && !job.encrypt && 0 < k <= size
    requires job.start + size <= |plain| < TWO_64
    requires FirstSectorHidden(job, plain)
    ensures CanMove(At(job, plain, size, k), Chunk(k))
    ensures Move(job, At(job, plain, size, k), Chunk(k)) == At(job, plain, size, k - Chunk(k))
  {
    var p, rd := At(job, plain, size, k), Chunk(k);
    CursorStep(job, p.data, size, k, rd);
    var after, want := Move(job, p, rd).data, Mixed(job.cipher, plain, job.start, k - rd);
    hide Move, Splice, Crypted;
    forall i | 0 <= i < |plain| ensures after[i] == want[i] {
      MovedData(job, p, rd, i);
      if p.pos <= i < p.pos + rd {
        DecryptedSector(job, plain, size, k, i);
      }
    }
    assert after == want;
  }

  lemma DecryptedSector(job: Job, plain: Disk, size: nat, k: nat, i: nat)
    requires job.cipher.Valid() && !job.encrypt && 0 < k <= size
    requires job.start + size <= |plain| < TWO_64
    requires FirstSectorHidden(job, plain)
    requires var p := At(job, plain, size, k); p.pos <= i < p.pos + Chunk(k)
    ensures var p := At(job, plain, size, k);
      Crypted(job, p.pos, p.data[p.pos..p.pos + Chunk(k)])[i - p.pos] == plain[i]
  {
    var p := At(job, plain, size, k);
    var buf := p.data[p.pos..p.pos + Chunk(k)];
    assert buf[i - p.pos] == p.data[i] == job.cipher.enc(i, plain[i]);
    assert buf[0] == p.data[p.pos] == job.cipher.enc(p.pos, plain[p.pos]);
    hide Mixed, Begin, At, Chunk;
    CryptedQuiet(job, p.pos, buf, i - p.pos);
  }

  /** Unless the guard of line 492 sees a plaintext first sector, decrypting is unit by unit. */
  lemma CryptedQuiet(job: Job, pos: nat, buf: seq<Sector>, j: nat)
    requires !job.encrypt && j < |buf| && !(job.system && pos == job.start && IsNtfs(buf[0]))
    ensures Crypted(job, pos, buf)[j] == job.cipher.dec(pos + j, buf[j])
  {
  }

  /** A decrypting pass lands on the next boundary exactly when its read was not shrunken. */
  lemma DecryptPassExact(job: Job, plain: Disk, size: nat, k: nat, rd: nat)
    requires job.cipher.Valid() && !job.encrypt && 0 < k <= size
    requires job.start + size <= |plain| < TWO_64
    requires FirstSectorHidden(job, plain)
    requires 0 < rd <= Chunk(k)
    requires var pos := job.start + k - Chunk(k); job.cipher.enc(pos, plain[pos]) != plain[pos]
    ensures CanMove(At(job, plain, size, k), rd)
    ensures Move(job, At(job, plain, size, k), rd).data == Mixed(job.cipher, plain, job.start, k - rd)
       <==> rd == Chunk(k)
  {
    if rd == Chunk(k) {
      DecryptMoves(job, plain, size, k);
    } else {
      ShrunkenMisses(job, plain, size, k, rd);
    }
  }

  lemma ShrunkenMisses(job: Job, plain: Disk, size: nat, k: nat, rd: nat)
    requires job.cipher.Valid() && !job.encrypt && 0 < rd < Chunk(k) && k <= size && job.start + size <= |plain|
    requires FirstSectorHidden(job, plain)
    requires var pos := job.start + k - Chunk(k); job.cipher.enc(pos, plain[pos]) != plain[pos]
    ensures CanMove(At(job, plain, size, k), rd)
    ensures Move(job, At(job, plain, size, k), rd).data != Mixed(job.cipher, plain, job.start, k - rd)
  {
    var p := At(job, plain, size, k);
    MovedData(job, p, rd, p.pos);
    assert p.data[p.pos..p.pos + rd][0] == job.cipher.enc(p.pos, plain[p.pos]);
    assert Move(job, p, rd).data[p.pos] == plain[p.pos];
    assert Mixed(job.cipher, plain, job.start, k - rd)[p.pos] != plain[p.pos];
  }

  /** The guard of line 492 is what the last pass depends on: it restores the first sector exactly when
      the encrypted first sector did not look like NTFS. */
  lemma FirstSectorExact(job: Job, plain: Disk, size: nat, k: nat)
    requires job.cipher.Valid() && !job.encrypt && 0 < k <= size && k <= BUF_SECTORS
    requires job.start + size <= |plain| < TWO_64
    requires job.cipher.enc(job.start, plain[job.start]) != plain[job.start]
    ensures CanMove(At(job, plain, size, k), k)
    ensures Move(job, At(job, plain, size, k), k).data == plain <==> FirstSectorHidden(job, plain)
  {
    var p := At(job, plain, size, k);
    if FirstSectorHidden(job, plain) {
      DecryptMoves(job, plain, size, k);
      assert Mixed(job.cipher, plain, job.start, 0) == plain;
    } else {
      MovedData(job, p, k, p.pos);
      assert p.data[p.pos..p.pos + k][0] == job.cipher.enc(p.pos, plain[p.pos]);
    }
  }

  // ---- runs ----

  lemma {:induction false} RunConcat(job: Job, p: Pass, a: seq<nat>, b: seq<nat>)
    requires CanRun(job, p, a) && CanRun(job, Run(job, p, a), b)
    ensures CanRun(job, p, a + b) && Run(job, p, a + b) == Run(job, Run(job, p, a), b)
    decreases |a|
  {
    if a == [] {
      assert a + b == b;
    } else {
      assert (a + b)[0] == a[0] && (a + b)[1..] == a[1..] + b;
      RunConcat(job, Move(job, p, a[0]), a[1..], b);
    }
  }

  /** However the reads shrink, an encrypting run leaves the range split at the boundary it reached. */
  lemma {:induction false} EncryptRun(job: Job, plain: Disk, size: nat, k: nat, rds: seq<nat>)
    requires job.encrypt && k <= size && job.start + size <= |plain|
    requires CanRun(job, At(job, plain, size, k), rds)
    ensures k + Sum(rds) <= size
    ensures Run(job, At(job, plain, size, k), rds) == At(job, plain, size, k + Sum(rds))
    decreases |rds|
  {
    hide Move, Mixed;
    if rds != [] {
      EncryptMoves(job, plain, size, k, rds[0]);
      EncryptRun(job, plain, size, k + rds[0], rds[1..]);
    }
  }

  /** A decrypting run of full buffers leaves the range split at the boundary it reached. */
  lemma {:induction false} DecryptRun(job: Job, plain: Disk, size: nat, k: nat, rds: seq<nat>)
    requires job.cipher.Valid() && !job.encrypt && k <= size
    requires job.start + size <= |plain| < TWO_64
    requires FirstSectorHidden(job, plain)
    requires Unshrunken(k, rds)
    ensures Sum(rds) <= k
    ensures CanRun(job, At(job, plain, size, k), rds)
    ensures Run(job, At(job, plain, size, k), rds) == At(job, plain, size, k - Sum(rds))
    decreases |rds|
  {
    hide Move, Mixed;
    if rds != [] {
      DecryptMoves(job, plain, size, k);
      DecryptRun(job, plain, size, k - rds[0], rds[1..]);
    }
  }

  /** A decrypting pass only ever moves the window down, unless it wraps out of the disk. */
  lemma WindowDescends(job: Job, p: Pass, rd: nat, next: nat)
    requires !job.encrypt && CanMove(p, rd) && |p.data| * 512 <= TWO_64
    requires CanMove(Move(job, p, rd), next)
    ensures var q := Move(job, p, rd);
      |q.data| == |p.data| && q.remains < p.remains && q.pos + Chunk(q.remains) < p.pos + Chunk(p.remains)
  {
  }

  /** What lies at or above the top of the window is out of a decrypting run's reach. */
  lemma {:induction false} AboveWindowUntouched(job: Job, p: Pass, rds: seq<nat>, top: nat)
    requires !job.encrypt && CanRun(job, p, rds)
    requires |p.data| * 512 <= TWO_64 && p.pos + Chunk(p.remains) <= top < |p.data|
    ensures |Run(job, p, rds).data| == |p.data| && Run(job, p, rds).data[top] == p.data[top]
    decreases |rds|
  {
    if rds != [] {
      hide Mixed, Crypted;
      var q, rest := Move(job, p, rds[0]), rds[1..];
      MovedData(job, p, rds[0], top);
      if rest != [] {
        WindowDescends(job, p, rds[0], rest[0]);
        AboveWindowUntouched(job, q, rest, top);
      }
    }
  }

  /** After a shrunken pass the highest encrypted sector is above the window for good. */
  lemma ShrunkenLeavesTop(job: Job, plain: Disk, size: nat, k: nat, rds: seq<nat>)
    requires !job.encrypt && 0 < k <= size
    requires job.start + size <= |plain| && |plain| * 512 <= TWO_64
    requires rds != [] && rds[0] < Chunk(k) && CanRun(job, At(job, plain, size, k), rds)
    ensures var d := Run(job, At(job, plain, size, k), rds).data; var top := job.start + k - 1;
      |d| == |plain| && d[top] == job.cipher.enc(top, plain[top])
  {
    hide Move, Crypted;
    var p, top := At(job, plain, size, k), job.start + k - 1;
    var q, rest := Move(job, p, rds[0]), rds[1..];
    MovedData(job, p, rds[0], top);
    if rest != [] {
      WindowDescends(job, p, rds[0], rest[0]);
      AboveWindowUntouched(job, q, rest, top);
    }
  }

  /** A decrypting run that reaches the end restores the plaintext exactly when no read was shrunken. */
  lemma {:induction false} DecryptRunExact(job: Job, plain: Disk, size: nat, k: nat, rds: seq<nat>)
    requires job.cipher.Valid() && !job.encrypt && k <= size
    requires job.start + size <= |plain| && |plain| * 512 <= TWO_64
    requires FirstSectorHidden(job, plain)
    requires forall i :: job.start <= i < job.start + k ==> job.cipher.enc(i, plain[i]) != plain[i]
    requires CanRun(job, At(job, plain, size, k), rds)
    requires Run(job, At(job, plain, size, k), rds).remains == 0
    ensures Run(job, At(job, plain, size, k), rds).data == plain <==> Unshrunken(k, rds)
    decreases |rds|
  {
    hide Move;
    var p := At(job, plain, size, k);
    if rds == [] {
      assert Mixed(job.cipher, plain, job.start, 0) == plain;
    } else if rds[0] == Chunk(k) {
      hide Mixed;
      DecryptMoves(job, plain, size, k);
      DecryptRunExact(job, plain, size, k - rds[0], rds[1..]);
    } else {
      ShrunkenLeavesTop(job, plain, size, k, rds);
    }
  }

  // ---- stopping and starting again ----

  /** The boundary a run from boundary k stores last. */
  function Stored(job: Job, k: int, rds: seq<nat>): int {
    if job.encrypt then k + Sum(rds) else k - Sum(rds)
  }

  /** The loop variables after a run are those a fresh start from the new boundary computes. */
  lemma {:induction false} CursorAfter(job: Job, data: Disk, size: nat, k: nat, rds: seq<nat>)
    requires k <= size && job.start + size <= |data| < TWO_64
    requires CanRun(job, Begin(job, data, size, k), rds)
    requires job.encrypt || Unshrunken(k, rds)
    ensures 0 <= Stored(job, k, rds) <= size
    ensures |Run(job, Begin(job, data, size, k), rds).data| == |data|
    ensures Run(job, Begin(job, data, size, k), rds)
         == Begin(job, Run(job, Begin(job, data, size, k), rds).data, size, Stored(job, k, rds))
    decreases |rds|
  {
    if rds == [] {
      assert Begin(job, data, size, k).data == data;
    } else {
      hide *;
      CursorTurn(job, data, size, k, rds);
      CursorAfter(job, Move(job, Begin(job, data, size, k), rds[0]).data, size, Next(job, k, rds[0]), rds[1..]);
    }
  }

  /** The boundary after one pass. */
  function Next(job: Job, k: int, rd: nat): int {
    if job.encrypt then k + rd else k - rd
  }

  /** After its first pass a run is one from the next boundary. */
  lemma CursorTurn(job: Job, data: Disk, size: nat, k: nat, rds: seq<nat>)
    requires k <= size && job.start + size <= |data| < TWO_64 && rds != []
    requires CanRun(job, Begin(job, data, size, k), rds)
    requires job.encrypt || Unshrunken(k, rds)
    ensures CanMove(Begin(job, data, size, k), rds[0])
    ensures var d, k' := Move(job, Begin(job, data, size, k), rds[0]).data, Next(job, k, rds[0]);
      && 0 <= k' <= size && job.start + size <= |d| == |data| < TWO_64
      && CanRun(job, Begin(job, d, size, k'), rds[1..]) && (job.encrypt || Unshrunken(k', rds[1..]))
      && Run(job, Begin(job, data, size, k), rds) == Run(job, Begin(job, d, size, k'), rds[1..])
      && Stored(job, k', rds[1..]) == Stored(job, k, rds)
  {
    hide Stored, Run, CanRun;
    var p := Begin(job, data, size, k);
    RunFirst(job, p, rds);
    StoredFirst(job, k, rds);
    CursorStep(job, data, size, k, rds[0]);
  }

  lemma RunFirst(job: Job, p: Pass, rds: seq<nat>)
    requires rds != [] && CanRun(job, p, rds)
    ensures CanMove(p, rds[0]) && CanRun(job, Move(job, p, rds[0]), rds[1..])
    ensures Run(job, p, rds) == Run(job, Move(job, p, rds[0]), rds[1..])
  {
  }

  lemma StoredFirst(job: Job, k: int, rds: seq<nat>)
    requires rds != []
    ensures Stored(job, k, rds) == Stored(job, Next(job, k, rds[0]), rds[1..])
  {
  }

  /** A run stopped between passes and started again from the stored boundary is the uninterrupted run. */
  lemma ResumeIsContinuation(job: Job, data: Disk, size: nat, k: nat, a: seq<nat>, b: seq<nat>)
    requires k <= size && job.start + size <= |data| < TWO_64
    requires CanRun(job, Begin(job, data, size, k), a)
    requires job.encrypt || Unshrunken(k, a)
    ensures 0 <= Stored(job, k, a) <= size
    ensures var stopped := Run(job, Begin(job, data, size, k), a);
      CanRun(job, Begin(job, stopped.data, size, Stored(job, k, a)), b) ==>
        && CanRun(job, Begin(job, data, size, k), a + b)
        && Run(job, Begin(job, stopped.data, size, Stored(job, k, a)), b) == Run(job, Begin(job, data, size, k), a + b)
  {
    hide Move, Begin;
    CursorAfter(job, data, size, k, a);
    var p := Begin(job, data, size, k);
    if CanRun(job, Run(job, p, a), b) {
      RunConcat(job, p, a, b);
    }
  }

  /** One invocation: its direction and the sizes it moved before it was stopped or finished. */
  datatype Session = Session(encrypt: bool, rds: seq<nat>)

  function StoredAfter(k: int, ss: seq<Session>): int
    decreases |ss|
  {
    if ss == [] then k
    else StoredAfter(if ss[0].encrypt then k + Sum(ss[0].rds) else k - Sum(ss[0].rds), ss[1..])
  }

  /** Each session starts from the length the one before it left behind and moves what the loop allows. */
  ghost predicate CanPlay(job: Job, data: Disk, size: nat, k: nat, ss: seq<Session>)
    requires k <= size
    decreases |ss|
  {
    ss == [] ||
    var j := job.(encrypt := ss[0].encrypt);
    var k' := if j.encrypt then k + Sum(ss[0].rds) else k - Sum(ss[0].rds);
    && CanRun(j, Begin(j, data, size, k), ss[0].rds)
    && (j.encrypt || Unshrunken(k, ss[0].rds))
    && 0 <= k' <= size
    && CanPlay(job, Run(j, Begin(j, data, size, k), ss[0].rds).data, size, k', ss[1..])
  }

  ghost function Play(job: Job, data: Disk, size: nat, k: nat, ss: seq<Session>): Disk
    requires k <= size && CanPlay(job, data, size, k, ss)
    decreases |ss|
  {
    if ss == [] then data
    else
      var j := job.(encrypt := ss[0].encrypt);
      var k' := if j.encrypt then k + Sum(ss[0].rds) else k - Sum(ss[0].rds);
      Play(job, Run(j, Begin(j, data, size, k), ss[0].rds).data, size, k', ss[1..])
  }

  lemma SessionStep(job: Job, plain: Disk, size: nat, k: nat, rds: seq<nat>)
    requires job.cipher.Valid() && k <= size && job.start + size <= |plain| < TWO_64
    requires FirstSectorHidden(job, plain)
    requires CanRun(job, At(job, plain, size, k), rds)
    requires job.encrypt || Unshrunken(k, rds)
    ensures var k' := if job.encrypt then k + Sum(rds) else k - Sum(rds);
      && 0 <= k' <= size
      && Run(job, At(job, plain, size, k), rds).data == Mixed(job.cipher, plain, job.start, k')
  {
    if job.encrypt {
      EncryptRun(job, plain, size, k, rds);
    } else {
      DecryptRun(job, plain, size, k, rds);
    }
  }

  /** Over every sequence of encrypting and decrypting sessions the disk is the picture of its stored length. */
  lemma {:induction false} SessionsKeepSplit(job: Job, plain: Disk, size: nat, k: nat, ss: seq<Session>)
    requires job.cipher.Valid() && k <= size && job.start + size <= |plain| < TWO_64
    requires FirstSectorHidden(job.(encrypt := false), plain)
    requires CanPlay(job, Mixed(job.cipher, plain, job.start, k), size, k, ss)
    ensures 0 <= StoredAfter(k, ss) <= size
    ensures Play(job, Mixed(job.cipher, plain, job.start, k), size, k, ss)
         == Mixed(job.cipher, plain, job.start, StoredAfter(k, ss))
    decreases |ss|
  {
    hide Mixed, Begin, Run, CanRun;
    if ss != [] {
      var j, rds := job.(encrypt := ss[0].encrypt), ss[0].rds;
      var k' := if j.encrypt then k + Sum(rds) else k - Sum(rds);
      SessionStep(j, plain, size, k, rds);
      SessionsKeepSplit(job, plain, size, k', ss[1..]);
    }
  }

  /** So the original disk is back whenever the stored length is back to zero. */
  lemma SessionsRestore(job: Job, plain: Disk, size: nat, ss: seq<Session>)
    requires job.cipher.Valid() && job.start + size <= |plain| < TWO_64
    requires FirstSectorHidden(job.(encrypt := false), plain)
    requires CanPlay(job, plain, size, 0, ss) && StoredAfter(0, ss) == 0
    ensures Play(job, plain, size, 0, ss) == plain
  {
    assert Mixed(job.cipher, plain, job.start, 0) == plain;
    SessionsKeepSplit(job, plain, size, 0, ss);
  }

  // ---- a repaired first sector ----

  /** The range as SplitAt boundary k, but with the first sector lying in clear (a repair wrote it). */
  function Repaired(job: Job, plain: Disk, size: nat, k: nat): Pass
    requires k <= size && job.start < |plain|
  {
    Begin(job, Mixed(job.cipher, plain, job.start, k)[job.start := plain[job.start]], size, k)
  }

  lemma RepairedMoves(job: Job, plain: Disk, size: nat, k: nat)
    requires job.cipher.Valid() && !job.encrypt && job.system && 0 < k <= size
    requires job.start + size <= |plain| < TWO_64
    requires IsNtfs(plain[job.start])
    ensures CanMove(Repaired(job, plain, size, k), Chunk(k))
    ensures Move(job, Repaired(job, plain, size, k), Chunk(k)) == Repaired(job, plain, size, k - Chunk(k))
  {
    var p, rd := Repaired(job, plain, size, k), Chunk(k);
    CursorStep(job, p.data, size, k, rd);
    var after, want := Move(job, p, rd).data, Repaired(job, plain, size, k - rd).data;
    RepairedData(job, plain, size, k);
    RepairedData(job, plain, size, k - rd);
    forall i | 0 <= i < |plain| ensures after[i] == want[i] {
      hide *;
      RepairedMoved(job, plain, size, k, i);
    }
    assert after == want;
  }

  /** The repaired range, sector by sector. */
  lemma RepairedData(job: Job, plain: Disk, size: nat, k: nat)
    requires k <= size && job.start < |plain|
    ensures var d := Repaired(job, plain, size, k).data;
      |d| == |plain|
      && forall i :: 0 <= i < |plain| ==>
        d[i] == if job.start < i < job.start + k then job.cipher.enc(i, plain[i]) else plain[i]
  {
  }

  lemma RepairedMoved(job: Job, plain: Disk, size: nat, k: nat, i: nat)
    requires job.cipher.Valid() && !job.encrypt && job.system && 0 < k <= size
    requires job.start + size <= |plain| < TWO_64 && i < |plain|
    requires IsNtfs(plain[job.start])
    ensures var p, q := Repaired(job, plain, size, k), Repaired(job, plain, size, k - Chunk(k));
      && CanMove(p, Chunk(k)) && |Move(job, p, Chunk(k)).data| == |q.data| == |plain|
      && Move(job, p, Chunk(k)).data[i] == q.data[i]
  {
    hide Move, Splice, Crypted;
    var p := Repaired(job, plain, size, k);
    RepairedData(job, plain, size, k);
    RepairedData(job, plain, size, k - Chunk(k));
    MovedData(job, p, Chunk(k), i);
    if p.pos <= i < p.pos + Chunk(k) {
      RepairedSector(job, plain, size, k, i);
    }
  }

  lemma RepairedSector(job: Job, plain: Disk, size: nat, k: nat, i: nat)
    requires job.cipher.Valid() && !job.encrypt && job.system && 0 < k <= size
    requires job.start + size <= |plain| < TWO_64
    requires IsNtfs(plain[job.start])
    requires var p := Repaired(job, plain, size, k); p.pos <= i < p.pos + Chunk(k)
    ensures var p := Repaired(job, plain, size, k);
      Crypted(job, p.pos, p.data[p.pos..p.pos + Chunk(k)])[i - p.pos] == plain[i]
  {
    var p := Repaired(job, plain, size, k);
    var buf := p.data[p.pos..p.pos + Chunk(k)];
    assert buf[0] == p.data[p.pos];
    assert buf[i - p.pos] == p.data[i];
  }

  /** Decrypting to the end gives the plaintext back even when a repair had overwritten the encrypted first
      sector with a plaintext NTFS boot sector; `plain` is the range with that new first sector. */
  lemma {:induction false} RepairedRun(job: Job, plain: Disk, size: nat, k: nat, rds: seq<nat>)
    requires job.cipher.Valid() && !job.encrypt && job.system && k <= size && 0 < size
    requires job.start + size <= |plain| < TWO_64
    requires IsNtfs(plain[job.start])
    requires Unshrunken(k, rds) && Sum(rds) == k
    ensures CanRun(job, Repaired(job, plain, size, k), rds)
    ensures Run(job, Repaired(job, plain, size, k), rds).data == plain
    decreases |rds|
  {
    if rds == [] {
      assert Repaired(job, plain, size, 0).data == plain;
    } else {
      var k' := RepairedTurn(job, plain, size, k, rds);
      hide *;
      RepairedRun(job, plain, size, k', rds[1..]);
      RunFirstOf(job, Repaired(job, plain, size, k), rds);
    }
  }

  lemma RepairedTurn(job: Job, plain: Disk, size: nat, k: nat, rds: seq<nat>) returns (k': nat)
    requires job.cipher.Valid() && !job.encrypt && job.system && k <= size && 0 < size
    requires job.start + size <= |plain| < TWO_64
    requires IsNtfs(plain[job.start])
    requires rds != [] && Unshrunken(k, rds) && Sum(rds) == k
    ensures k' <= size && Unshrunken(k', rds[1..]) && Sum(rds[1..]) == k'
    ensures CanMove(Repaired(job, plain, size, k), rds[0])
    ensures Move(job, Repaired(job, plain, size, k), rds[0]) == Repaired(job, plain, size, k')
  {
    hide Repaired, CanMove, Move;
    k' := k - rds[0];
    RepairedMoves(job, plain, size, k);
  }

  lemma RunFirstOf(job: Job, p: Pass, rds: seq<nat>)
    requires rds != [] && CanMove(p, rds[0]) && CanRun(job, Move(job, p, rds[0]), rds[1..])
    ensures CanRun(job, p, rds) && Run(job, p, rds) == Run(job, Move(job, p, rds[0]), rds[1..])
  {
  }

  // ---- a shrunken read, concretely ----

  function ShiftedByte(b: byte, delta: byte): byte {
    if b + delta < 0x100 then b + delta else b + delta - 0x100
  }

  function ShiftUp(k: nat, s: Sector): Sector {
    seq(512, i requires 0 <= i < 512 => ShiftedByte(s[i], 1))
  }

  function ShiftDown(k: nat, s: Sector): Sector {
    seq(512, i requires 0 <= i < 512 => ShiftedByte(s[i], 0xFF))
  }

  const SHIFT := Cipher(ShiftUp, ShiftDown)

  lemma ShiftInverse(k: nat, x: Sector)
    ensures ShiftDown(k, ShiftUp(k, x)) == x && ShiftUp(k, ShiftDown(k, x)) == x
  {
    var up, down := ShiftUp(k, x), ShiftDown(k, x);
    forall i | 0 <= i < 512 ensures ShiftDown(k, up)[i] == x[i] && ShiftUp(k, down)[i] == x[i] {
      ByteInverse(x[i], 1, 0xFF);
      ByteInverse(x[i], 0xFF, 1);
    }
  }

  lemma ByteInverse(b: byte, x: byte, y: byte)
    requires x + y == 0x100
    ensures ShiftedByte(ShiftedByte(b, x), y) == b
  {
  }

  lemma ShiftValid()
    ensures SHIFT.Valid()
  {
    forall k: nat, x: Sector ensures SHIFT.dec(k, SHIFT.enc(k, x)) == x && SHIFT.enc(k, SHIFT.dec(k, x)) == x {
      ShiftInverse(k, x);
    }
  }

  /** Two encrypted sectors at 1 and 2; the first two-sector read fails once and is retried with one sector.
      The run ends believing all is decrypted, with sector 0 (outside the range) damaged and sector 2 still
      encrypted. */
  lemma ShrunkenReadDamages(c: Cipher, plain: Disk)
    requires c.Valid() && |plain| == 4
    requires c.dec(0, plain[0]) != plain[0] && c.enc(2, plain[2]) != plain[2]
    ensures var job := Job(c, false, false, 1);
      && CanRun(job, At(job, plain, 2, 2), [1, 1])
      && var end := Run(job, At(job, plain, 2, 2), [1, 1]);
         end.remains == 0 && end.data[0] != plain[0] && end.data[2] != plain[2]
  {
    var job := Job(c, false, false, 1);
    var p := At(job, plain, 2, 2);
    OneSector(job, p);
    OneSector(job, Move(job, p, 1));
    TwoPasses(job, p, 1, 1);
  }

  /** And there is such a cipher, for every disk. */
  lemma ShrunkenReadCorrupts(plain: Disk)
    requires |plain| == 4
    ensures SHIFT.Valid()
    ensures var job := Job(SHIFT, false, false, 1);
      && CanRun(job, At(job, plain, 2, 2), [1, 1])
      && Run(job, At(job, plain, 2, 2), [1, 1]).remains == 0
      && Run(job, At(job, plain, 2, 2), [1, 1]).data[2] != plain[2]
  {
    ShiftValid();
    assert SHIFT.dec(0, plain[0])[0] == ShiftedByte(plain[0][0], 0xFF);
    assert SHIFT.enc(2, plain[2])[0] == ShiftedByte(plain[2][0], 1);
    hide Run, CanRun, At;
    ShrunkenReadDamages(SHIFT, plain);
  }

  lemma OneSector(job: Job, p: Pass)
    requires !job.encrypt && !job.system && CanMove(p, 1) && p.pos < |p.data|
    ensures var left := p.remains - 1;
      Move(job, p, 1) == Pass(p.data[p.pos := job.cipher.dec(p.pos, p.data[p.pos])], left,
                              (p.pos - (if 1 > left then left else 1)) % TWO_64)
  {
    assert p.data[p.pos..p.pos + 1] == [p.data[p.pos]];
    var q := Move(job, p, 1);
    forall i | 0 <= i < |p.data|
      ensures |q.data| == |p.data| && q.data[i] == p.data[p.pos := job.cipher.dec(p.pos, p.data[p.pos])][i]
    {
      MovedData(job, p, 1, i);
    }
    assert q.data == p.data[p.pos := job.cipher.dec(p.pos, p.data[p.pos])];
  }

  lemma TwoPasses(job: Job, p: Pass, a: nat, b: nat)
    requires CanMove(p, a) && CanMove(Move(job, p, a), b)
    ensures CanRun(job, p, [a, b]) && Run(job, p, [a, b]) == Move(job, Move(job, p, a), b)
  {
    hide Move, CanMove;
    var q := Move(job, p, a);
    var r := Move(job, q, b);
    assert [a, b][1..] == [b] && [b][1..] == [];
    assert CanRun(job, r, []) && Run(job, r, []) == r;
    assert CanRun(job, q, [b]) && Run(job, q, [b]) == r;
  }
}
