/** Sessions that start from the volume header: VolumeEncrypt, VolumeDecrypt and OSDecrypt (DcsCfgCrypt.c, lines
    737-926). */
module VolumeSessions {
  import opened Bytes
  import opened Volume
  import opened RangeSpec
  import opened Devices
  import opened RangeCrypt

  const OFFSET_VOLUME_SIZE: nat := 100
  const OFFSET_AREA_START: nat := 108

  function AreaStart(h: HeaderKey, s: Sector): u64 {
    FromBe64(Opened(h, s)[OFFSET_AREA_START..OFFSET_AREA_START + 8])
  }

  function VolumeSize(h: HeaderKey, s: Sector): u64 {
    FromBe64(Opened(h, s)[OFFSET_VOLUME_SIZE..OFFSET_VOLUME_SIZE + 8])
  }

  /** The volume whose sessions these are: its keys, and where its header lies. */
  datatype Target = Target(h: HeaderKey, cipher: Cipher, system: bool, headerSector: nat) {
    /** The RangeCrypt call that a header asks for. */
    function CallFor(header: Sector, encrypt: bool): Call {
      Call(Job(cipher, encrypt, system, AreaStart(h, header) / 512), VolumeSize(h, header) / 512,
           AreaLength(h, header) / 512, Some(h), headerSector)
    }
  }

  /** Size, start and encrypted length, in bytes, are the big-endian words at 100, 108 and 116 of the opened header. */
  lemma HeaderAsks(t: Target, header: Sector, encrypt: bool, size: u64, start: u64, length: u64)
    requires Opened(t.h, header)[100..108] == Be64(size) && Opened(t.h, header)[108..116] == Be64(start)
    requires Opened(t.h, header)[116..124] == Be64(length)
    ensures var c := t.CallFor(header, encrypt);
      && c.job == Job(t.cipher, encrypt, t.system, start / 512) && c.size == size / 512 && c.enSize == length / 512
      && c.key == Some(t.h) && c.headerSector == t.headerSector
  {
    hide Opened, Be64, FromBe64;
    Be64RoundTrip(size);
    Be64RoundTrip(start);
    Be64RoundTrip(length);
  }

  lemma StampedKeepsGeometry(h: HeaderKey, s: Sector, length: u64)
    requires h.Valid() && HasMagic(h, s)
    ensures AreaStart(h, Stamped(h, s, length)) == AreaStart(h, s)
    ensures VolumeSize(h, Stamped(h, s, length)) == VolumeSize(h, s)
  {
    StampedDecodes(h, s, length);
    var a, b := Opened(h, Stamped(h, s, length)), Opened(h, s);
    hide Stamped, Opened;
    assert a[OFFSET_AREA_START..OFFSET_AREA_START + 8] == b[OFFSET_AREA_START..OFFSET_AREA_START + 8];
    assert a[OFFSET_VOLUME_SIZE..OFFSET_VOLUME_SIZE + 8] == b[OFFSET_VOLUME_SIZE..OFFSET_VOLUME_SIZE + 8];
  }

  /** The disk is split at boundary k, off the header; `c` is a call for this volume. */
  ghost predicate SplitAt(c: Call, d: Disk, plain: Disk, k: nat) {
    k <= c.size && AgreesOff(Mixed(c.job.cipher, plain, c.job.start, k), d, c.headerSector)
  }

  /** And its header is readable and asks for a call that goes on from there. */
  ghost predicate InStep(t: Target, c: Call, d: Disk, plain: Disk, k: nat) {
    && c.headerSector < |d| && SplitAt(c, d, plain, k)
    && HeaderReadable(t.h, d[c.headerSector])
    && t.CallFor(d[c.headerSector], c.job.encrypt) == c.(enSize := k)
  }

  /** `plain` with the header sector as it lies on the disk. */
  function WithHeader(plain: Disk, d: Disk, at: nat): (p: Disk)
    requires at < |d| == |plain|
    ensures |p| == |plain|
  {
    plain[at := d[at]]
  }

  lemma SplitExactly(c: Call, d: Disk, plain: Disk, k: nat)
    requires c.Fits(d) && SplitAt(c, d, plain, k)
    ensures |plain| == |d| && d == Mixed(c.job.cipher, WithHeader(plain, d, c.headerSector), c.job.start, k)
  {
    var m, p := Mixed(c.job.cipher, plain, c.job.start, k), WithHeader(plain, d, c.headerSector);
    assert |m| == |plain|;
    var n := Mixed(c.job.cipher, p, c.job.start, k);
    forall i | 0 <= i < |d| ensures d[i] == n[i] {
      assert i != c.headerSector ==> m[i] == d[i];
    }
  }

  lemma HeaderOutside(c: Call, was: Disk, now: Disk, plain: Disk, k: nat)
    requires c.Fits(was) && |plain| == |was| == |now|
    requires AgreesOff(Mixed(c.job.cipher, WithHeader(plain, was, c.headerSector), c.job.start, k), now, c.headerSector)
    ensures AgreesOff(Mixed(c.job.cipher, plain, c.job.start, k), now, c.headerSector)
  {
  }

  /** What a session leaves, by where RangeCrypt stopped. */
  lemma SessionContinues(t: Target, c: Call, was: Disk, now: Disk, plain: Disk, moved: seq<nat>, remains: nat, pos: nat,
                         stamped: Option<nat>)
    requires c.Fits(was) && c.size > 0 && t.h.Valid() && c.job.cipher.Valid() && InStep(t, c, was, plain, c.enSize)
    requires c.key == Some(t.h) && FirstSectorHidden(c.job, plain)
    requires Between(c, was, now, moved, remains, pos, stamped) && c.InRange(moved)
    ensures 0 <= c.Boundary(remains) <= c.size && SplitAt(c, now, plain, c.Boundary(remains))
    ensures stamped == Some(c.Boundary(remains)) || (stamped == None && c.Boundary(remains) == c.enSize) ==>
      InStep(t, c, now, plain, c.Boundary(remains))
  {
    hide Mixed, Run, CanRun, OnTrack, HeaderReadable, AreaStart, VolumeSize, AreaLength, Stamped, HasMagic;
    SplitExactly(c, was, plain, c.enSize);
    var p := WithHeader(plain, was, c.headerSector);
    BetweenIsSplit(c, was, now, p, moved, remains, pos, stamped);
    HeaderOutside(c, was, now, plain, c.Boundary(remains));
    if stamped.Some? {
      StampedHeader(t, c, was[c.headerSector], now[c.headerSector], stamped.value);
    }
  }

  lemma StampedHeader(t: Target, c: Call, was: Sector, now: Sector, k: nat)
    requires t.h.Valid() && HeaderState(Some(t.h), was, now, Some(k)) && t.CallFor(was, c.job.encrypt) == c
    ensures HeaderReadable(t.h, now) && t.CallFor(now, c.job.encrypt) == c.(enSize := k)
  {
    StampedDecodes(t.h, was, k * 512);
    StampedKeepsGeometry(t.h, was, k * 512);
  }

  /** No repair of a decrypted system happens behind the user's back. */
  lemma RepairConfirmed(c: Call, d: Disk, plain: Disk, confirms: seq<bool>, done: Repair)
    requires c.Fits(d) && c.size > 0 && SplitAt(c, d, plain, 0) && FirstSectorHidden(c.job, plain)
    requires !c.job.encrypt && c.job.system && MayRepair(c.job.cipher, d, c.job.start, c.size, confirms, done)
    ensures done != NothingDone ==> ConfirmAt(confirms, 0)
  {
    hide RecoveredPart;
    assert Mixed(c.job.cipher, plain, c.job.start, 0)[c.job.start] == plain[c.job.start];
  }

  /** A session may start: the header is in step with the disk, and asks for a call that fits it. */
  ghost predicate CanStart(t: Target, encrypt: bool, d: Disk, plain: Disk)
  {
    && t.headerSector < |d| && t.h.Valid() && t.cipher.Valid()
    && var c := t.CallFor(d[t.headerSector], encrypt);
       c.Fits(d) && c.size > 0 && FirstSectorHidden(c.job.(encrypt := false), plain) && InStep(t, c, d, plain, c.enSize)
  }

  /** The lengths a session may end with, and the one it ends with when nothing fails or stops it. */
  predicate Advances(encrypt: bool, size: nat, k: nat, left: nat) {
    if encrypt then k <= left <= size else left <= k
  }

  /** One session: the header read and opened, and RangeCrypt called with what it says. `left` is the encrypted length
      at the end. The header is in step with it unless a read shrank while decrypting, the last header update failed,
      or the user had a decrypted system repaired. */
  method Session(disk: BlockIo, user: User, t: Target, encrypt: bool, ghost plain: Disk)
    returns (res: Status, ghost left: nat, inStep: bool)
    requires CanStart(t, encrypt, disk.sectors, plain)
    modifies disk, user
    ensures var c := t.CallFor(old(disk.sectors)[t.headerSector], encrypt);
      && (inStep ==> InStep(t, c, disk.sectors, plain, left) && |disk.sectors| == |old(disk.sectors)|)
      && Advances(encrypt, c.size, c.enSize, left)
      && (res == Success ==> left == if encrypt then c.size else 0)
      && (Failures(old(disk.faults)) == 0 && (c.Total() > 0 || !ConfirmAt(old(user.confirms), 0)) ==> inStep)
      && (Failures(old(disk.faults)) == 0 && old(user.keys) == [] ==> left == if encrypt then c.size else 0)
      // a patient user has an encryption finished, whatever fails but the reading of the header
      && (encrypt && Persistent(old(disk.faults), old(user.answers)) && old(user.keys) == [] ==> left == c.size)
  {
    hide Between, InStep, Mixed, AreaStart, VolumeSize, HeaderReadable, Unshrunken, MayRepair, RepairedDisk,
         FaultlessRepair, Ended, Patient, Failures, FaultAt;
    ghost var s := StartOf(disk, user);
    ghost var c0 := t.CallFor(disk.sectors[t.headerSector], encrypt);
    AfterHeader(disk.faults, user.answers);
    var ok, header := disk.ReadBlocks(t.headerSector, 1);
    if !ok {
      return DeviceError, c0.enSize, true;
    }
    var c := t.CallFor(header[0], encrypt);
    assert c == c0;
    HeaderStampable(t, c, s.was, plain);
    ghost var s' := s.(faults := disk.faults);
    var p, done;
    res, p, done := RangeCrypt.RangeCrypt(disk, user, c);
    inStep := c.InRange(p.moved) && (p.recorded || p.moved == []) && done == NothingDone;
    left := AfterRun(t, c, s', disk.sectors, plain, old(user.confirms), res, p, done);
  }

  /** The header is read without anyone being asked. */
  lemma AfterHeader(faults: seq<bool>, answers: seq<Answer>)
    ensures Failures(faults) == 0 ==> !FaultAt(faults, 0) && Failures(Rest(faults)) == 0
    ensures Persistent(faults, answers) ==> Patient(Rest(faults), answers)
  {
    FailuresRest(faults);
    if Patient(faults, answers) {
      PatienceRest(faults, answers);
    }
  }

  lemma HeaderStampable(t: Target, c: Call, d: Disk, plain: Disk)
    requires InStep(t, c, d, plain, c.enSize) && c.key == Some(t.h)
    ensures c.Stampable(d) && c.headerSector < |d|
  {
    hide Opened;
  }

  /** What the results of RangeCrypt say about the session. */
  lemma AfterRun(t: Target, c: Call, s: Start, now: Disk, plain: Disk, confirms: seq<bool>, res: Status, p: Progress,
                 done: Repair)
    returns (left: nat)
    requires c.Fits(s.was) && c.size > 0 && t.h.Valid() && c.job.cipher.Valid()
    requires InStep(t, c, s.was, plain, c.enSize)
    requires c.key == Some(t.h) && FirstSectorHidden(c.job.(encrypt := false), plain)
    requires c.Total() > 0 ==> Ended(c, s, now, p, res) && done == NothingDone
    requires c.Total() == 0 ==> p.moved == [] && p.remains == 0 && !p.recorded && (done == NothingDone ==> now == s.was)
    requires c.Total() == 0 && !c.job.encrypt && c.job.system ==>
      MayRepair(c.job.cipher, s.was, c.job.start, c.size, confirms, done)
    requires c.Total() == 0 && !(!c.job.encrypt && c.job.system) ==> done == NothingDone
    ensures left == c.Boundary(p.remains) && Advances(c.job.encrypt, c.size, c.enSize, left)
    ensures c.InRange(p.moved) && (p.recorded || p.moved == []) && done == NothingDone ==>
      |now| == |s.was| && InStep(t, c, now, plain, left)
    ensures c.Total() == 0 ==> c.InRange(p.moved)
    ensures c.Total() == 0 && !ConfirmAt(confirms, 0) ==> done == NothingDone
    ensures res == Success || c.Total() == 0 ==> p.remains == 0
    ensures Failures(s.faults) == 0 && c.Total() > 0 && c.Stampable(s.was) ==> c.InRange(p.moved) && p.recorded
    ensures Failures(s.faults) == 0 && s.keys == [] ==> p.remains == 0
    ensures c.job.encrypt && Patient(s.faults, s.answers) && s.keys == [] ==> p.remains == 0
    ensures p.remains == 0 ==> left == if c.job.encrypt then c.size else 0
  {
    hide InStep, SplitAt, Mixed, MayRepair, OnTrack, HeaderState, FirstSectorHidden, HeaderReadable, Patient, CutPasses,
         Prompts, Failures;
    left := c.Boundary(p.remains);
    if c.Total() == 0 {
      if !c.job.encrypt && c.job.system {
        InStepSplit(t, c, s.was, plain);
        HiddenWhileDecrypting(c.job, plain);
        RepairConfirmed(c, s.was, plain, confirms, done);
      }
    } else if c.InRange(p.moved) && (p.recorded || p.moved == []) {
      HiddenWhileDecrypting(c.job, plain);
      SessionContinues(t, c, s.was, now, plain, p.moved, p.remains, p.pos, p.stamped);
    }
  }

  lemma InStepSplit(t: Target, c: Call, d: Disk, plain: Disk)
    requires InStep(t, c, d, plain, c.enSize)
    ensures SplitAt(c, d, plain, c.enSize)
  {
  }

  lemma HiddenWhileDecrypting(job: Job, plain: Disk)
    requires FirstSectorHidden(job.(encrypt := false), plain)
    ensures FirstSectorHidden(job, plain)
  {
  }

  // ---- any number of sessions ----

  /** What a session meets: its direction, the transfers that fail, and the user. */
  datatype Episode = Episode(encrypt: bool, faults: seq<bool>, answers: seq<Answer>, keys: seq<Key>,
                             confirms: seq<bool>) {
    /** Nothing fails, and no repair is agreed to. */
    predicate Calm() {
      Failures(faults) == 0 && !ConfirmAt(confirms, 0)
    }
  }

  /** In step, and fit for a session in either direction. */
  ghost predicate Ready(t: Target, c: Call, d: Disk, plain: Disk, k: nat) {
    && c.job == Job(t.cipher, false, t.system, c.job.start) && c.headerSector == t.headerSector && c.key == Some(t.h)
    && t.h.Valid() && t.cipher.Valid() && c.size > 0 && c.(enSize := k).Fits(d) && FirstSectorHidden(c.job, plain)
    && InStep(t, c, d, plain, k)
  }

  lemma ReadyStarts(t: Target, c: Call, d: Disk, plain: Disk, k: nat, encrypt: bool)
    requires Ready(t, c, d, plain, k)
    ensures CanStart(t, encrypt, d, plain)
    ensures t.CallFor(d[t.headerSector], encrypt) == c.(enSize := k, job := c.job.(encrypt := encrypt))
  {
    hide Mixed, HeaderReadable, AreaStart, VolumeSize, AreaLength;
  }

  lemma StillReady(t: Target, c: Call, was: Disk, now: Disk, plain: Disk, k: nat, left: nat, encrypt: bool)
    requires Ready(t, c, was, plain, k) && |now| == |was|
    requires InStep(t, c.(enSize := k, job := c.job.(encrypt := encrypt)), now, plain, left)
    ensures Ready(t, c, now, plain, left)
  {
    hide Mixed, HeaderReadable, AreaStart, VolumeSize, AreaLength;
  }

  /** From a disk split at the length in its header, over any sequence of sessions in either direction, with any faults,
      stops and answers: for as long as every session leaves its header in step, the disk is split at the length the
      header asks the next session to go on from. `lengths` are these lengths, and `n` the sessions after which that
      is so; a calm session always is one of them, and finishes if no key is pressed. */
  method Sessions(disk: BlockIo, user: User, t: Target, ghost c: Call, ghost plain: Disk, ghost k0: nat,
                  episodes: seq<Episode>)
    returns (n: nat, ghost lengths: seq<nat>)
    requires Ready(t, c, disk.sectors, plain, k0)
    modifies disk, user
    ensures n <= |episodes| && |lengths| == n + 1 && lengths[0] == k0
    ensures forall i :: 0 <= i < n ==> Advances(episodes[i].encrypt, c.size, lengths[i], lengths[i + 1])
    ensures forall i :: 0 <= i < n && episodes[i].Calm() && episodes[i].keys == [] ==>
      lengths[i + 1] == if episodes[i].encrypt then c.size else 0
    ensures n < |episodes| ==> !episodes[n].Calm()
    ensures n == |episodes| ==> Ready(t, c, disk.sectors, plain, lengths[n])
    ensures n == |episodes| && lengths[n] == 0 ==> AgreesOff(plain, disk.sectors, c.headerSector)
  {
    hide Ready, InStep, CanStart, Mixed;
    n, lengths := 0, [k0];
    while n < |episodes|
      invariant n <= |episodes| && |lengths| == n + 1 && lengths[0] == k0
      invariant forall i :: 0 <= i < n ==> Advances(episodes[i].encrypt, c.size, lengths[i], lengths[i + 1])
      invariant forall i :: 0 <= i < n && episodes[i].Calm() && episodes[i].keys == [] ==>
        lengths[i + 1] == if episodes[i].encrypt then c.size else 0
      invariant Ready(t, c, disk.sectors, plain, lengths[n])
    {
      var e := episodes[n];
      disk.faults := e.faults;
      user.answers, user.keys, user.confirms := e.answers, e.keys, e.confirms;
      ghost var was := disk.sectors;
      ReadyStarts(t, c, was, plain, lengths[n], e.encrypt);
      var res, inStep;
      ghost var left;
      res, left, inStep := Session(disk, user, t, e.encrypt, plain);
      if !inStep {
        return;
      }
      StillReady(t, c, was, disk.sectors, plain, lengths[n], left, e.encrypt);
      lengths := lengths + [left];
      n := n + 1;
    }
    if lengths[n] == 0 {
      AllPlain(t, c, disk.sectors, plain);
    }
  }

  /** At length zero the disk is the original one, off the header. */
  lemma AllPlain(t: Target, c: Call, d: Disk, plain: Disk)
    requires Ready(t, c, d, plain, 0)
    ensures AgreesOff(plain, d, c.headerSector)
  {
    assert Mixed(c.job.cipher, plain, c.job.start, 0) == plain;
  }
}
