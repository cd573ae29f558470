/** The RangeCrypt loop itself, over a failing disk and a user who answers prompts (DcsCfgCrypt.c, lines 408-735). */
module RangeCrypt {
  import opened Bytes
  import opened Volume
  import opened RangeSpec
  import opened Recovery
  import opened Devices

  /** The statuses the routine can end with. */
  datatype Status = Success | NotReady | DeviceError | CrcError

  /** Lines 534-561: the header sector read, opened, checked for its magic, edited, closed and written. */
  method UpdateHeader(disk: BlockIo, h: HeaderKey, headerSector: nat, areaLength: u64) returns (res: Status)
    requires headerSector < |disk.sectors|
    modifies disk
    ensures res == Success ==> HasMagic(h, old(disk.sectors)[headerSector])
    ensures res == Success ==>
      disk.sectors == old(disk.sectors)[headerSector := Stamped(h, old(disk.sectors)[headerSector], areaLength)]
    ensures res != Success ==> disk.sectors == old(disk.sectors)
    ensures Failures(disk.faults) <= Failures(old(disk.faults))
    ensures res == (if FaultAt(old(disk.faults), 0) then DeviceError
                    else if !HasMagic(h, old(disk.sectors)[headerSector]) then CrcError
                    else if FaultAt(old(disk.faults), 1) then DeviceError else Success)
  {
    FailuresRest(disk.faults);
    FailuresRest(Rest(disk.faults));
    var ok, buf := disk.ReadBlocks(headerSector, 1);
    if !ok {
      return DeviceError;
    }
    var open := Opened(h, buf[0]);
    if FromBe32(open[OFFSET_MAGIC..OFFSET_MAGIC + 4]) != MAGIC {
      return CrcError;
    }
    open := Splice(open, OFFSET_AREA_LENGTH, Be64(areaLength));
    var headerCrc := h.crc(open[OFFSET_MAGIC..OFFSET_HEADER_CRC]);
    open := Splice(open, OFFSET_HEADER_CRC, Be32(headerCrc));
    var sector: Sector := Closed(h, open);
    ok := disk.WriteBlocks(headerSector, [sector]);
    res := if ok then Success else DeviceError;
    if ok {
      assert disk.sectors == old(disk.sectors)[headerSector := sector];
    }
  }

  /** Lines 464-524: one buffer read, with retries that halve it, crypted, and written with retries. */
  method TransferChunk(disk: BlockIo, user: User, job: Job, pos: nat, full: nat)
    returns (ok: bool, rd: nat, failedReads: nat, failedWrites: nat)
    requires full > 0
    modifies disk, user`answers
    ensures ChunkTried(old(disk.faults), old(user.answers), |old(disk.sectors)|, pos, full, failedReads, failedWrites,
                       ok)
    ensures rd == Halved(full, failedReads)
    ensures disk.faults
         == Skip(old(disk.faults),
                 Transfers(old(disk.faults), |old(disk.sectors)|, pos, full, failedReads, failedWrites))
    ensures user.answers == Skip(old(user.answers), Asked(failedReads, failedWrites, ok))
    ensures ok ==> pos + rd <= |old(disk.sectors)|
    ensures ok ==> disk.sectors == Splice(old(disk.sectors), pos, Crypted(job, pos, old(disk.sectors)[pos..pos + rd]))
    ensures !ok ==> disk.sectors == old(disk.sectors)
  {
    hide Splice, IsNtfs, Skip, Rest, FaultAt, AnswerAt, ChunkTried, Crypted;
    var buf;
    ok, rd, buf, failedReads := ReadHalving(disk, user, pos, full);
    failedWrites := 0;
    if !ok {
      NotRead(old(disk.faults), old(user.answers), |disk.sectors|, pos, full, failedReads);
      return;
    }
    buf := CryptBuffer(job, pos, buf);
    // Write
    ok, failedWrites := WriteRetrying(disk, user, pos, buf);
    Written(old(disk.faults), old(user.answers), |disk.sectors|, pos, full, failedReads, failedWrites, ok);
  }

  /** Lines 488-502. */
  method CryptBuffer(job: Job, pos: nat, raw: seq<Sector>) returns (buf: seq<Sector>)
    requires |raw| > 0
    ensures buf == Crypted(job, pos, raw)
  {
    buf := raw;
    if job.encrypt {
      buf := EncryptUnits(job.cipher, pos, buf);
    } else {
      if job.system && pos == job.start && IsNtfs(buf[0]) {
        buf := buf[0 := job.cipher.enc(pos, buf[0])];
      }
      buf := DecryptUnits(job.cipher, pos, buf);
    }
  }

  ghost predicate AgreesOff(a: Disk, b: Disk, hole: nat) {
    |a| == |b| && forall i :: 0 <= i < |a| && i != hole ==> a[i] == b[i]
  }

  /** A pass does not depend on the header sector, which lies outside the range. */
  lemma MoveAgrees(job: Job, p: Pass, q: Pass, rd: nat, hole: nat)
    requires CanMove(p, rd) && p.remains == q.remains && p.pos == q.pos
    requires AgreesOff(p.data, q.data, hole) && hole != job.start
    ensures CanMove(q, rd)
    ensures Move(job, q, rd).remains == Move(job, p, rd).remains && Move(job, q, rd).pos == Move(job, p, rd).pos
    ensures AgreesOff(Move(job, p, rd).data, Move(job, q, rd).data, hole)
  {
    var p', q' := Move(job, p, rd), Move(job, q, rd);
    assert q'.remains == p'.remains && q'.pos == p'.pos;
    hide Move, Crypted, Splice;
    MovedData(job, p, rd, p.pos);
    MovedData(job, q, rd, p.pos);
    forall i | 0 <= i < |p.data| && i != hole ensures p'.data[i] == q'.data[i] {
      MoveAgreesAt(job, p, q, rd, hole, i);
    }
  }

  lemma MoveAgreesAt(job: Job, p: Pass, q: Pass, rd: nat, hole: nat, i: nat)
    requires CanMove(p, rd) && CanMove(q, rd) && p.pos == q.pos
    requires AgreesOff(p.data, q.data, hole) && hole != job.start && i < |p.data| && i != hole
    ensures |Move(job, p, rd).data| == |Move(job, q, rd).data| == |p.data|
    ensures Move(job, p, rd).data[i] == Move(job, q, rd).data[i]
  {
    hide Move, Crypted, Splice;
    MovedData(job, p, rd, i);
    MovedData(job, q, rd, i);
    if p.pos <= i < p.pos + rd {
      var a, b := p.data[p.pos..p.pos + rd], q.data[p.pos..p.pos + rd];
      assert a[i - p.pos] == p.data[i] == q.data[i] == b[i - p.pos];
      assert a[0] == p.data[p.pos] && b[0] == q.data[p.pos];
      CryptedAgrees(job, p.pos, a, b, i - p.pos);
    }
  }

  lemma CryptedAgrees(job: Job, pos: nat, a: seq<Sector>, b: seq<Sector>, k: nat)
    requires |a| == |b| && k < |a| && a[k] == b[k]
    requires pos == job.start ==> a[0] == b[0]
    ensures Crypted(job, pos, a)[k] == Crypted(job, pos, b)[k]
  {
  }

  lemma RunSnoc(job: Job, p: Pass, rds: seq<nat>, rd: nat)
    requires CanRun(job, p, rds) && CanMove(Run(job, p, rds), rd)
    ensures CanRun(job, p, rds + [rd])
    ensures Run(job, p, rds + [rd]) == Move(job, Run(job, p, rds), rd)
  {
    var q := Run(job, p, rds);
    hide Move, CanMove;
    assert CanRun(job, Move(job, q, rd), []);
    assert [rd][1..] == [];
    assert CanRun(job, q, [rd]) && Run(job, q, [rd]) == Move(job, q, rd);
    RunConcat(job, p, rds, [rd]);
  }

  lemma {:induction false} UnshrunkenSnoc(remains: nat, rds: seq<nat>, rd: nat)
    ensures Unshrunken(remains, rds) ==> Sum(rds) <= remains
    ensures Sum(rds + [rd]) == Sum(rds) + rd
    ensures Unshrunken(remains, rds + [rd]) <==>
      Unshrunken(remains, rds) && 0 < rd == Chunk(remains - Sum(rds))
    decreases |rds|
  {
    if rds == [] {
      assert [rd][1..] == [];
    } else {
      assert (rds + [rd])[1..] == rds[1..] + [rd];
      if rds[0] <= remains {
        UnshrunkenSnoc(remains - rds[0], rds[1..], rd);
      } else {
        SumSnoc(rds, rd);
      }
    }
  }

  lemma {:induction false} SumSnoc(rds: seq<nat>, rd: nat)
    ensures Sum(rds + [rd]) == Sum(rds) + rd
    decreases |rds|
  {
    if rds != [] {
      assert (rds + [rd])[1..] == rds[1..] + [rd];
      SumSnoc(rds[1..], rd);
    } else {
      assert [rd][1..] == [];
    }
  }

  // ---- a partition that is already decrypted ----

  datatype Repair = NothingDone | FirstSectorRewritten | LowerPartOnly | DataRecovered

  /** What the recovery decrypts: the sectors from `start` on, the faulty pass reversed. */
  function RecoveredPart(c: Cipher, d: Disk, start: nat, r: nat): (b: seq<Sector>)
    requires WindowOnDisk(d, start, r)
    ensures |b| == r
  {
    var pos := start + r - BUF_SECTORS;
    DecryptUnits(c, start, Reversed(c, pos, r, d[pos..pos + BUF_SECTORS])[BUF_SECTORS - r..])
  }

  /** The disk with the lower part of the window re-encrypted and the rest not yet written. */
  function HalfRecovered(c: Cipher, d: Disk, start: nat, r: nat): Disk
    requires WindowOnDisk(d, start, r)
  {
    var pos := start + r - BUF_SECTORS;
    Splice(d, pos, Reversed(c, pos, r, d[pos..pos + BUF_SECTORS])[..BUF_SECTORS - r])
  }

  /** A start below the window wraps beyond every disk, so a read that works is in range. */
  lemma WrapsOut(size: nat, start: nat, r: nat)
    requires 0 < r < BUF_SECTORS && size * 512 <= TWO_64 && start < size
    ensures var pos: nat := (start + r - BUF_SECTORS) % TWO_64;
      pos + BUF_SECTORS <= size <==> start + r >= BUF_SECTORS && start + r <= size
    ensures start + r >= BUF_SECTORS && start + r <= size ==>
      (start + r - BUF_SECTORS) % TWO_64 == start + r - BUF_SECTORS
  {
  }

  lemma CorrectedParts(c: Cipher, d: Disk, start: nat, r: nat)
    requires WindowOnDisk(d, start, r)
    ensures var pos := start + r - BUF_SECTORS;
      var fixed := Reversed(c, pos, r, d[pos..pos + BUF_SECTORS]);
      && DecryptUnits(c, start, fixed[BUF_SECTORS - r..]) == RecoveredPart(c, d, start, r)
      && Splice(d, pos, fixed[..BUF_SECTORS - r]) == HalfRecovered(c, d, start, r)
      && Splice(HalfRecovered(c, d, start, r), start, RecoveredPart(c, d, start, r)) == Recovered(c, d, start, r)
  {
    hide Reversed, DecryptUnits, Splice;
  }

  /** Both corrected parts, one after the other. */
  method WriteCorrected(disk: BlockIo, user: User, pos: nat, low: seq<Sector>, start: nat, high: seq<Sector>)
    returns (res: Status, done: Repair)
    requires pos + |low| <= |disk.sectors| && start + |high| <= |disk.sectors|
    modifies disk, user`answers
    ensures done == NothingDone ==> res == DeviceError && disk.sectors == old(disk.sectors)
    ensures done == LowerPartOnly ==> res == DeviceError && disk.sectors == Splice(old(disk.sectors), pos, low)
    ensures done == DataRecovered ==>
      res == Success && disk.sectors == Splice(Splice(old(disk.sectors), pos, low), start, high)
    ensures done != FirstSectorRewritten
    ensures Patient(old(disk.faults), old(user.answers)) ==> done == DataRecovered
  {
    hide Splice, Patient, Tried, Skip;
    var ok;
    ghost var n;
    ok, n := WriteRetrying(disk, user, pos, low);
    PatientTries(old(disk.faults), old(user.answers), true, n, ok);
    res, done := DeviceError, NothingDone;
    if !ok {
      return;
    }
    done := LowerPartOnly;
    ghost var faults, answers := disk.faults, user.answers;
    ok, n := WriteRetrying(disk, user, start, high);
    PatientTries(faults, answers, true, n, ok);
    if ok {
      res, done := Success, DataRecovered;
    }
  }

  /** Lines 630-700: the faulty pass re-encrypted, the right window decrypted, both parts written back. Nothing is
      written unless the result looks like NTFS or the user insists. */
  method UndoFaultyDecryption(disk: BlockIo, user: User, cipher: Cipher, start: nat, r: nat)
    returns (res: Status, done: Repair)
    requires 0 < r < BUF_SECTORS && |disk.sectors| * 512 <= TWO_64 && start < |disk.sectors|
    modifies disk, user
    ensures done != FirstSectorRewritten && (res == Success || res == DeviceError)
    ensures done == NothingDone ==> disk.sectors == old(disk.sectors)
    ensures done != NothingDone ==>
      WindowOnDisk(old(disk.sectors), start, r)
      && (IsNtfs(RecoveredPart(cipher, old(disk.sectors), start, r)[0]) || ConfirmAt(old(user.confirms), 0))
    ensures done == LowerPartOnly ==>
      res == DeviceError && disk.sectors == HalfRecovered(cipher, old(disk.sectors), start, r)
    ensures done == DataRecovered ==> res == Success && disk.sectors == Recovered(cipher, old(disk.sectors), start, r)
    ensures !WindowOnDisk(old(disk.sectors), start, r) ==> res == DeviceError && done == NothingDone
    ensures Patient(old(disk.faults), old(user.answers)) && WindowOnDisk(old(disk.sectors), start, r) ==>
      (res, done) == if IsNtfs(RecoveredPart(cipher, old(disk.sectors), start, r)[0])
                        || ConfirmAt(old(user.confirms), 0)
                     then (Success, DataRecovered) else (Success, NothingDone)
  {
    hide Reversed, DecryptUnits, EncryptUnits, Splice, Recovered, RecoveredPart, HalfRecovered, Patient, Tried, Skip,
         IsNtfs;
    done := NothingDone;
    var pos := (start + r - BUF_SECTORS) % TWO_64;
    ghost var n;
    var ok, buf;
    ok, buf, n := ReadRetrying(disk, user, pos, BUF_SECTORS);
    PatientTries(old(disk.faults), old(user.answers), pos + BUF_SECTORS <= |disk.sectors|, n, ok);
    WrapsOut(|disk.sectors|, start, r);
    if !ok {
      return DeviceError, done;
    }
    var fixed := Reversed(cipher, pos, r, buf);
    var high := DecryptUnits(cipher, start, fixed[BUF_SECTORS - r..]);
    CorrectedParts(cipher, disk.sectors, start, r);
    var proceed := IsNtfs(high[0]);
    if !proceed {
      proceed := user.Confirm();
    }
    if !proceed {
      return Success, done;
    }
    res, done := WriteCorrected(disk, user, pos, fixed[..BUF_SECTORS - r], start, high);
  }

  /** When a repair may have been made. */
  predicate MayRepair(c: Cipher, d: Disk, start: nat, size: nat, confirms: seq<bool>, done: Repair)
    requires start < |d|
  {
    var r := RecoveryRemainder(size);
    match done
    case NothingDone => true
    case FirstSectorRewritten => !IsNtfs(d[start]) && IsNtfs(c.enc(start, d[start]))
    case _ =>
      && !IsNtfs(d[start]) && !IsNtfs(c.enc(start, d[start])) && WindowOnDisk(d, start, r) && ConfirmAt(confirms, 0)
      && (IsNtfs(RecoveredPart(c, d, start, r)[0]) || ConfirmAt(confirms, 1))
  }

  /** The disk that a repair leaves. */
  function RepairedDisk(c: Cipher, d: Disk, start: nat, size: nat, confirms: seq<bool>, done: Repair): Disk
    requires start < |d| && MayRepair(c, d, start, size, confirms, done)
  {
    match done
    case NothingDone => d
    case FirstSectorRewritten => d[start := c.enc(start, d[start])]
    case LowerPartOnly => HalfRecovered(c, d, start, RecoveryRemainder(size))
    case DataRecovered => Recovered(c, d, start, RecoveryRemainder(size))
  }

  /** The user is patient, and the first transfer, about which no one is asked, works. */
  predicate Persistent(faults: seq<bool>, answers: seq<Answer>) {
    Patient(faults, answers) && !FaultAt(faults, 0)
  }

  /** The repair that is made, and the status, when every transfer works in the end. */
  function FaultlessRepair(c: Cipher, d: Disk, start: nat, size: nat, confirms: seq<bool>): (Status, Repair)
    requires start < |d|
  {
    var r := RecoveryRemainder(size);
    if IsNtfs(d[start]) then (Success, NothingDone)
    else if IsNtfs(c.enc(start, d[start])) then (Success, FirstSectorRewritten)
    else if r == 0 || !ConfirmAt(confirms, 0) then (Success, NothingDone)
    else if !WindowOnDisk(d, start, r) then (DeviceError, NothingDone)
    else if IsNtfs(RecoveredPart(c, d, start, r)[0]) || ConfirmAt(confirms, 1) then (Success, DataRecovered)
    else (Success, NothingDone)
  }

  /** Lines 580-706: nothing is left to decrypt, but the first sector may not be a boot sector. The status is that of
      the last transfer. */
  method RepairDecrypted(disk: BlockIo, user: User, cipher: Cipher, start: nat, size: nat)
    returns (res: Status, done: Repair)
    requires start < |disk.sectors| && |disk.sectors| * 512 <= TWO_64
    modifies disk, user
    ensures MayRepair(cipher, old(disk.sectors), start, size, old(user.confirms), done)
    ensures disk.sectors == RepairedDisk(cipher, old(disk.sectors), start, size, old(user.confirms), done)
    ensures res == Success || res == DeviceError
    ensures done == FirstSectorRewritten || done == DataRecovered ==> res == Success
    ensures done == LowerPartOnly ==> res == DeviceError
    ensures Persistent(old(disk.faults), old(user.answers)) ==>
      (res, done) == FaultlessRepair(cipher, old(disk.sectors), start, size, old(user.confirms))
  {
    hide Reversed, Recovered, Splice, HalfRecovered, RecoveredPart, Patient, Tried, Skip;
    res, done := Success, NothingDone;
    ghost var n;
    if Patient(disk.faults, user.answers) {
      PatienceRest(disk.faults, user.answers);
    }
    var ok, buf := disk.ReadBlocks(start, 1);
    if !ok {
      return DeviceError, done;
    }
    if IsNtfs(buf[0]) {
      return;
    }
    buf := [cipher.enc(start, buf[0])];
    if IsNtfs(buf[0]) {
      ghost var faults := disk.faults;
      ok, n := WriteRetrying(disk, user, start, buf);
      PatientTries(faults, old(user.answers), true, n, ok);
      res := DeviceError;
      if ok {
        assert disk.sectors == old(disk.sectors)[start := buf[0]] by { OneSpliced(old(disk.sectors), start, buf[0]); }
        res, done := Success, FirstSectorRewritten;
      }
    } else {
      var remains := RecoveryRemainder(size);
      if remains > 0 {
        var yes := user.Confirm();
        if yes {
          assert ConfirmAt(user.confirms, 0) == ConfirmAt(old(user.confirms), 1);
          res, done := UndoFaultyDecryption(disk, user, cipher, start, remains);
        }
      }
    }
  }

  /** A boot sector that was decrypted once too often is put back. */
  lemma RepairRestores(c: Cipher, plain: Disk, start: nat, size: nat, confirms: seq<bool>)
    requires c.Valid() && start < |plain| && plain[start][..8] == [0xEB, 0x52, 0x90, 0x4E, 0x54, 0x46, 0x53, 0x20]
    requires !IsNtfs(c.dec(start, plain[start]))
    ensures var d := plain[start := c.dec(start, plain[start])];
      && FaultlessRepair(c, d, start, size, confirms) == (Success, FirstSectorRewritten)
      && MayRepair(c, d, start, size, confirms, FirstSectorRewritten)
      && RepairedDisk(c, d, start, size, confirms, FirstSectorRewritten) == plain
  {
    hide RecoveredPart, HalfRecovered, Recovered, WindowOnDisk;
    var d := plain[start := c.dec(start, plain[start])];
    assert d[start := plain[start]] == plain;
  }

  /** Had the faulty decryption's last window been as short as the compiled remainder says, the volume would be
      restored, if the user agrees and the first sector shows neither mark. */
  lemma RepairUndoesFault(c: Cipher, plain: Disk, start: nat, size: nat, confirms: seq<bool>)
    requires start < |plain| && WindowOnDisk(plain, start, RecoveryRemainder(size))
    requires c.Valid() && IsNtfs(plain[start]) && ConfirmAt(confirms, 0)
    ensures var r := RecoveryRemainder(size);
      var d := Faulty(c, Mixed(c, plain, start, r), start, r);
      |d| == |plain| && (!IsNtfs(d[start]) && !IsNtfs(c.enc(start, d[start])) ==>
        && FaultlessRepair(c, d, start, size, confirms) == (Success, DataRecovered)
        && MayRepair(c, d, start, size, confirms, DataRecovered)
        && RepairedDisk(c, d, start, size, confirms, DataRecovered) == plain)
  {
    var r := RecoveryRemainder(size);
    hide RecoveryRemainder, Mixed, Faulty, Recovered, RecoveredPart, HalfRecovered;
    var mixed := Mixed(c, plain, start, r);
    FaultySector(c, mixed, start, r, start);
    var d := Faulty(c, mixed, start, r);
    RecoveryInverts(c, plain, start, r);
    RecoveredFirst(c, d, start, r);
  }

  lemma RecoveredFirst(c: Cipher, d: Disk, start: nat, r: nat)
    requires WindowOnDisk(d, start, r)
    ensures |Recovered(c, d, start, r)| == |d| && Recovered(c, d, start, r)[start] == RecoveredPart(c, d, start, r)[0]
  {
    CorrectedParts(c, d, start, r);
    var half, part := HalfRecovered(c, d, start, r), RecoveredPart(c, d, start, r);
    hide HalfRecovered, RecoveredPart, Recovered, Reversed, DecryptUnits;
    assert Splice(half, start, part)[start..start + r][0] == part[0];
  }

  lemma OneSpliced(d: Disk, at: nat, s: Sector)
    requires at < |d|
    ensures Splice(d, at, [s]) == d[at := s]
  {
  }

  // ---- the whole routine ----

  /** The header sector as it was, or stamped with the last boundary recorded. */
  ghost predicate HeaderState(key: Option<HeaderKey>, was: Sector, now: Sector, stamped: Option<nat>) {
    match stamped
    case None => now == was
    case Some(k) => key.Some? && k * 512 < TWO_64 && HasMagic(key.value, was) && now == Stamped(key.value, was, k * 512)
  }

  lemma StampAgain(h: HeaderKey, was: Sector, now: Sector, stamped: Option<nat>, k: nat)
    requires h.Valid() && HeaderState(Some(h), was, now, stamped) && k * 512 < TWO_64
    ensures HasMagic(h, now) <==> HasMagic(h, was)
    ensures HasMagic(h, now) ==> HeaderState(Some(h), was, Stamped(h, now, k * 512), Some(k))
  {
    if stamped.Some? {
      StampedDecodes(h, was, stamped.value * 512);
      StampedTwice(h, was, stamped.value * 512, k * 512);
    }
  }

  /** What a call of RangeCrypt is about. */
  datatype Call = Call(job: Job, size: nat, enSize: nat, key: Option<HeaderKey>, headerSector: nat) {
    ghost predicate Fits(data: Disk) {
      && enSize <= size && job.start + size <= |data| && |data| * 512 <= TWO_64
      && job.start < |data|
      && headerSector < |data| && !(job.start <= headerSector < job.start + size)
      && (key.Some? ==> key.value.Valid())
    }

    /** There is a header to update. */
    predicate Stampable(data: Disk) {
      key.Some? && headerSector < |data| && HasMagic(key.value, data[headerSector])
    }

    /** Sectors to be moved in all. */
    function Total(): nat requires enSize <= size {
      if job.encrypt then size - enSize else enSize
    }

    /** The encrypted length that goes with the sectors still to be moved. */
    function Boundary(remains: nat): int {
      if job.encrypt then size - remains else remains
    }

    /** No pass left the range: the windows only stray after a shrunken read while decrypting. */
    predicate InRange(moved: seq<nat>) {
      job.encrypt || Unshrunken(enSize, moved)
    }
  }

  /** Between two passes: the sectors are what the passes so far made of them, all but the header's. */
  ghost predicate OnTrack(c: Call, was: Disk, now: Disk, moved: seq<nat>, remains: nat, pos: nat)
    requires c.Fits(was)
  {
    var first := Begin(c.job, was, c.size, c.enSize);
    && |now| == |was| && CanRun(c.job, first, moved)
    && Run(c.job, first, moved).remains == remains && Run(c.job, first, moved).pos == pos
    && AgreesOff(Run(c.job, first, moved).data, now, c.headerSector)
  }

  /** And while no pass left the range, the next window ends at the boundary and the header is as recorded. */
  ghost predicate Aligned(c: Call, hs: Sector, now: Sector, moved: seq<nat>, remains: nat, pos: nat,
                          stamped: Option<nat>)
    requires c.enSize <= c.size
  {
    && Sum(moved) + remains == c.Total()
    && (c.InRange(moved) ==>
          && pos == (if c.job.encrypt then c.job.start + c.size - remains else c.job.start + remains - Chunk(remains))
          && HeaderState(c.key, hs, now, stamped))
  }

  ghost predicate Between(c: Call, was: Disk, now: Disk, moved: seq<nat>, remains: nat, pos: nat, stamped: Option<nat>)
    requires c.Fits(was)
  {
    && |now| == |was|
    && OnTrack(c, was, now, moved, remains, pos)
    && Aligned(c, was[c.headerSector], now[c.headerSector], moved, remains, pos, stamped)
  }

  lemma FirstPass(c: Call, was: Disk)
    requires c.Fits(was)
    ensures var p := Begin(c.job, was, c.size, c.enSize); Between(c, was, was, [], p.remains, p.pos, None)
  {
  }

  /** The position after a pass, UINT64 arithmetic included. */
  function NextPos(job: Job, pos: nat, rd: nat, left: nat): nat {
    if job.encrypt then pos + rd else (pos - (if rd > left then left else rd)) % TWO_64
  }

  lemma NextTrack(c: Call, was: Disk, now: Disk, moved: seq<nat>, remains: nat, pos: nat, rd: nat)
    requires c.Fits(was) && OnTrack(c, was, now, moved, remains, pos)
    requires 0 < rd <= Chunk(remains) && pos + rd <= |now| && c.headerSector != c.job.start
    ensures OnTrack(c, was, Splice(now, pos, Crypted(c.job, pos, now[pos..pos + rd])), moved + [rd],
                    remains - rd, NextPos(c.job, pos, rd, remains - rd))
  {
    hide Crypted, Splice, Run, CanRun, Begin;
    var q := Pass(now, remains, pos);
    assert CanMove(q, rd);
    assert Move(c.job, q, rd)
        == Pass(Splice(now, pos, Crypted(c.job, pos, now[pos..pos + rd])), remains - rd,
                NextPos(c.job, pos, rd, remains - rd));
    hide Move, CanMove;
    NextRun(c.job, Begin(c.job, was, c.size, c.enSize), moved, q, rd, c.headerSector);
  }

  lemma NextAligned(c: Call, hs: Sector, now: Sector, moved: seq<nat>, remains: nat, pos: nat, stamped: Option<nat>,
                    rd: nat)
    requires c.enSize <= c.size && c.job.start + c.size < TWO_64
    requires Aligned(c, hs, now, moved, remains, pos, stamped) && 0 < rd <= Chunk(remains)
    ensures c.InRange(moved + [rd]) ==> c.job.start <= pos && pos + rd <= c.job.start + c.size
    ensures Aligned(c, hs, now, moved + [rd], remains - rd, NextPos(c.job, pos, rd, remains - rd), stamped)
    ensures c.job.encrypt || (c.InRange(moved + [rd]) <==> c.InRange(moved) && rd == Chunk(remains))
  {
    hide HeaderState;
    UnshrunkenSnoc(c.enSize, moved, rd);
  }

  /** One transfer takes the state between two passes to the next. */
  lemma NextPass(c: Call, was: Disk, now: Disk, moved: seq<nat>, remains: nat, pos: nat, stamped: Option<nat>, rd: nat)
    requires c.Fits(was) && Between(c, was, now, moved, remains, pos, stamped)
    requires 0 < rd <= Chunk(remains) && pos + rd <= |now|
    ensures Between(c, was, Splice(now, pos, Crypted(c.job, pos, now[pos..pos + rd])), moved + [rd], remains - rd,
                    NextPos(c.job, pos, rd, remains - rd), stamped)
    ensures rd == Chunk(remains) && c.InRange(moved) ==> c.InRange(moved + [rd])
  {
    hide OnTrack, Crypted, Splice;
    var hs := was[c.headerSector];
    NextAligned(c, hs, now[c.headerSector], moved, remains, pos, stamped, rd);
    NextTrack(c, was, now, moved, remains, pos, rd);
    var then' := Splice(now, pos, Crypted(c.job, pos, now[pos..pos + rd]));
    if c.InRange(moved + [rd]) {
      assert then'[c.headerSector] == now[c.headerSector];
    }
  }

  /** The next window of a run that stayed in range lies on the disk. */
  lemma WindowFits(c: Call, was: Disk, now: Disk, moved: seq<nat>, remains: nat, pos: nat, stamped: Option<nat>)
    requires c.Fits(was) && Between(c, was, now, moved, remains, pos, stamped)
    ensures remains <= c.size && |now| == |was|
    ensures c.InRange(moved) ==> pos + Chunk(remains) <= |now|
  {
    hide HeaderState;
  }

  /** Between two passes that stayed in range, the range is encrypted below one boundary and plaintext above it,
      every sector outside but the header's is as it was, and the header decodes to the boundary last recorded. */
  lemma BetweenIsSplit(c: Call, was: Disk, now: Disk, plain: Disk, moved: seq<nat>, remains: nat, pos: nat,
                       stamped: Option<nat>)
    requires c.Fits(was) && Between(c, was, now, moved, remains, pos, stamped) && c.InRange(moved)
    requires c.job.cipher.Valid() && FirstSectorHidden(c.job, plain)
    requires was == Mixed(c.job.cipher, plain, c.job.start, c.enSize)
    ensures 0 <= c.Boundary(remains) <= c.size
    ensures AgreesOff(Mixed(c.job.cipher, plain, c.job.start, c.Boundary(remains)), now, c.headerSector)
    ensures stamped.Some? ==>
      c.key.Some? && stamped.value * 512 < TWO_64
      && HeaderReadable(c.key.value, now[c.headerSector])
      && AreaLength(c.key.value, now[c.headerSector]) == stamped.value * 512
  {
    SplitData(c, was, now, plain, moved, remains, pos, stamped);
    hide Mixed, Run, CanRun, Begin, Stamped, OnTrack, AgreesOff, Call.Boundary;
    if stamped.Some? {
      StampedDecodes(c.key.value, was[c.headerSector], stamped.value * 512);
    }
  }

  lemma SplitData(c: Call, was: Disk, now: Disk, plain: Disk, moved: seq<nat>, remains: nat, pos: nat,
                  stamped: Option<nat>)
    requires c.Fits(was) && Between(c, was, now, moved, remains, pos, stamped) && c.InRange(moved)
    requires c.job.cipher.Valid() && FirstSectorHidden(c.job, plain)
    requires was == Mixed(c.job.cipher, plain, c.job.start, c.enSize)
    ensures 0 <= c.Boundary(remains) <= c.size
    ensures AgreesOff(Mixed(c.job.cipher, plain, c.job.start, c.Boundary(remains)), now, c.headerSector)
  {
    hide Mixed, Run, CanRun, Begin, HeaderState, Move, FirstSectorHidden;
    assert Begin(c.job, was, c.size, c.enSize) == At(c.job, plain, c.size, c.enSize);
    if c.job.encrypt {
      EncryptRun(c.job, plain, c.size, c.enSize, moved);
    } else {
      DecryptRun(c.job, plain, c.size, c.enSize, moved);
    }
    AtData(c.job, plain, c.size, c.Boundary(remains));
  }

  lemma AtData(job: Job, plain: Disk, size: nat, k: nat)
    requires k <= size
    ensures At(job, plain, size, k).data == Mixed(job.cipher, plain, job.start, k)
  {
  }

  /** The pass list one longer, and the disk as it really is one pass further on. */
  lemma NextRun(job: Job, first: Pass, moved: seq<nat>, q: Pass, rd: nat, hole: nat)
    requires CanRun(job, first, moved) && hole != job.start
    requires Run(job, first, moved).remains == q.remains && Run(job, first, moved).pos == q.pos
    requires AgreesOff(Run(job, first, moved).data, q.data, hole)
    requires CanMove(q, rd)
    ensures CanRun(job, first, moved + [rd])
    ensures Run(job, first, moved + [rd]).remains == Move(job, q, rd).remains
    ensures Run(job, first, moved + [rd]).pos == Move(job, q, rd).pos
    ensures AgreesOff(Run(job, first, moved + [rd]).data, Move(job, q, rd).data, hole)
  {
    var p := Run(job, first, moved);
    assert CanMove(p, rd);
    hide Move, CanMove;
    MoveAgrees(job, p, q, rd, hole);
    RunSnoc(job, first, moved, rd);
  }

  lemma NextStamp(c: Call, was: Disk, now: Disk, moved: seq<nat>, remains: nat, pos: nat, stamped: Option<nat>,
                  k: nat, then': Disk)
    requires c.Fits(was) && Between(c, was, now, moved, remains, pos, stamped)
    requires c.key.Some? && HasMagic(c.key.value, now[c.headerSector]) && k * 512 < TWO_64
    requires then' == now[c.headerSector := Stamped(c.key.value, now[c.headerSector], k * 512)]
    ensures Between(c, was, then', moved, remains, pos, Some(k))
  {
    assert OnTrack(c, was, then', moved, remains, pos);
    hide Stamped, HasMagic, OnTrack;
    if c.InRange(moved) {
      StampAgain(c.key.value, was[c.headerSector], now[c.headerSector], stamped, k);
    }
  }

  lemma MagicKept(c: Call, was: Disk, now: Disk, moved: seq<nat>, remains: nat, pos: nat, stamped: Option<nat>)
    requires c.Fits(was) && Between(c, was, now, moved, remains, pos, stamped) && c.key.Some? && c.InRange(moved)
    ensures HasMagic(c.key.value, now[c.headerSector]) <==> HasMagic(c.key.value, was[c.headerSector])
  {
    StampAgain(c.key.value, was[c.headerSector], now[c.headerSector], stamped, 0);
  }

  lemma NoFailures(faults: seq<bool>)
    requires Failures(faults) == 0
    ensures !FaultAt(faults, 0) && !FaultAt(faults, 1)
  {
    FailuresRest(faults);
    FailuresRest(Rest(faults));
  }

  /** The boundary after a pass goes into the header. */
  method RecordBoundary(disk: BlockIo, c: Call, ghost was: Disk, ghost moved: seq<nat>, remains: nat, ghost pos: nat,
                        stamped: Option<nat>) returns (res: Status, now: Option<nat>)
    requires c.Fits(was) && Between(c, was, disk.sectors, moved, remains, pos, stamped) && c.key.Some?
    modifies disk
    ensures |disk.sectors| == |was| && Between(c, was, disk.sectors, moved, remains, pos, now)
    ensures now == if res == Success then Some(c.Boundary(remains)) else stamped
    ensures Failures(disk.faults) <= Failures(old(disk.faults))
    ensures Failures(old(disk.faults)) == 0 && c.InRange(moved) && c.Stampable(was) ==> res == Success
  {
    hide Stamped, HasMagic, OnTrack;
    var boundary := if c.job.encrypt then c.size - remains else remains;
    assert boundary <= c.size && boundary * 512 < TWO_64;
    ghost var before := disk.sectors;
    hide Between, Aligned, HeaderState;
    if c.InRange(moved) {
      MagicKept(c, was, before, moved, remains, pos, stamped);
    }
    if Failures(disk.faults) == 0 {
      NoFailures(disk.faults);
    }
    res := UpdateHeader(disk, c.key.value, c.headerSector, boundary * 512);
    now := stamped;
    if res == Success {
      NextStamp(c, was, before, moved, remains, pos, stamped, boundary, disk.sectors);
      now := Some(boundary);
    }
  }

  /** One trip through the loop up to the advance of the loop variables. */
  method OnePass(disk: BlockIo, user: User, c: Call, ghost was: Disk, ghost moved: seq<nat>, remains: nat, pos: nat,
                 ghost stamped: Option<nat>)
    returns (ok: bool, rd: nat, left: nat, next: nat, halvings: nat, asked: nat)
    requires c.Fits(was) && Between(c, was, disk.sectors, moved, remains, pos, stamped) && remains > 0
    modifies disk, user`answers
    ensures !ok ==> disk.sectors == old(disk.sectors)
    ensures ok ==> 0 < rd <= remains && left == remains - rd && rd == Halved(Chunk(remains), halvings)
    ensures ok ==> Between(c, was, disk.sectors, moved + [rd], left, next, stamped)
    ensures halvings <= asked && Prompts(old(user.answers), asked, !ok)
    ensures user.answers == Skip(old(user.answers), asked)
    ensures c.InRange(moved) ==> asked + Failures(disk.faults) <= Failures(old(disk.faults))
    ensures ok && c.InRange(moved) && halvings == 0 ==> c.InRange(moved + [rd])
  {
    hide Crypted, Splice, Between, Call.InRange, ChunkTried, Transfers, Skip, Prompts;
    ghost var before := disk.sectors;
    WindowFits(c, was, before, moved, remains, pos, stamped);
    var failedWrites;
    ok, rd, halvings, failedWrites := TransferChunk(disk, user, c.job, pos, Chunk(remains));
    ChunkPrompts(old(disk.faults), old(user.answers), |before|, pos, Chunk(remains), halvings, failedWrites, ok);
    asked := Asked(halvings, failedWrites, ok);
    left, next := remains - rd, pos;
    if ok {
      NextPass(c, was, before, moved, remains, pos, stamped, rd);
      if c.job.encrypt {
        next := pos + rd;
      } else {
        next := (pos - (if rd > left then left else rd)) % TWO_64;
      }
    }
  }

  /** The status a poll of the keyboard leaves. */
  function PollStatus(k: Key): Status {
    if k == OtherKey then Success else NotReady
  }

  /** How a run of at least one pass ends: with the status of its last poll, unless a transfer failed; and with sectors
      left only because of such a failure or a confirmed stop. */
  predicate EndsAs(keys: seq<Key>, moved: seq<nat>, remains: nat, res: Status) {
    if res == DeviceError then remains > 0
    else
      moved != [] && res == PollStatus(KeyAt(keys, |moved| - 1))
      && (remains > 0 ==> KeyAt(keys, |moved| - 1) == StopConfirmed)
  }

  /** Lines 530-574: what follows the transfer and the advance of the loop variables. */
  method RecordAndPoll(disk: BlockIo, user: User, c: Call, ghost was: Disk, ghost moved: seq<nat>, remains: nat,
                       ghost pos: nat,
                       stamped: Option<nat>) returns (now: Option<nat>, recorded: bool, key: Key)
    requires c.Fits(was) && Between(c, was, disk.sectors, moved, remains, pos, stamped)
    modifies disk, user`keys
    ensures Between(c, was, disk.sectors, moved, remains, pos, now)
    ensures recorded ==> now == Some(c.Boundary(remains))
    ensures key == KeyAt(old(user.keys), 0) && user.keys == Rest(old(user.keys))
    ensures Failures(disk.faults) <= Failures(old(disk.faults))
    ensures Failures(old(disk.faults)) == 0 && c.InRange(moved) && c.Stampable(was) ==> recorded
  {
    hide Call.Fits, Call.InRange, Call.Boundary, Between, Rest, KeyAt, HasMagic;
    now, recorded := stamped, false;
    if c.key.Some? {
      var res;
      res, now := RecordBoundary(disk, c, was, moved, remains, pos, stamped);
      recorded := res == Success;
    }
    key := user.Poll();
  }

  /** Pass k moves the full window that is due, halved cuts[k] times. */
  predicate CutAt(total: int, moved: seq<nat>, cuts: seq<nat>, k: nat)
    requires k < |moved| == |cuts|
  {
    0 <= total - Sum(moved[..k]) && moved[k] == Halved(Chunk(total - Sum(moved[..k])), cuts[k])
  }

  /** So do all passes, and there are no more cuts than prompts. */
  predicate CutPasses(total: int, moved: seq<nat>, cuts: seq<nat>, asked: nat) {
    |moved| == |cuts| && Sum(cuts) <= asked && forall k :: 0 <= k < |moved| ==> CutAt(total, moved, cuts, k)
  }

  lemma NextCut(total: int, moved: seq<nat>, cuts: seq<nat>, asked: nat, rd: nat, j: nat, more: nat)
    requires CutPasses(total, moved, cuts, asked) && 0 <= total - Sum(moved) && j <= more
    requires rd == Halved(Chunk(total - Sum(moved)), j)
    ensures CutPasses(total, moved + [rd], cuts + [j], asked + more)
  {
    hide Halved, Chunk, Sum, CutAt;
    SumSnoc(cuts, j);
    forall k | 0 <= k < |moved| + 1 ensures CutAt(total, moved + [rd], cuts + [j], k) {
      assert (moved + [rd])[..k] == moved[..k];
      CutMeans(total, moved + [rd], cuts + [j], k);
      if k < |moved| {
        CutMeans(total, moved, cuts, k);
        assert CutAt(total, moved, cuts, k);
      } else {
        assert moved[..k] == moved;
      }
    }
  }

  lemma CutMeans(total: int, moved: seq<nat>, cuts: seq<nat>, k: nat)
    requires k < |moved| == |cuts|
    ensures CutAt(total, moved, cuts, k)
       <==> 0 <= total - Sum(moved[..k]) && moved[k] == Halved(Chunk(total - Sum(moved[..k])), cuts[k])
  {
  }

  lemma MorePrompts(total: int, moved: seq<nat>, cuts: seq<nat>, asked: nat, more: nat)
    requires CutPasses(total, moved, cuts, asked)
    ensures CutPasses(total, moved, cuts, asked + more)
  {
  }

  /** The prompts of one pass follow those of the passes before. */
  lemma PromptsFollow(answers: seq<Answer>, n: nat, m: nat, gaveUp: bool)
    requires Prompts(answers, n, false) && Prompts(Skip(answers, n), m, gaveUp)
    ensures Prompts(answers, n + m, gaveUp) && Skip(Skip(answers, n), m) == Skip(answers, n + m)
  {
    forall i | 0 <= i < n + m
      ensures AnswerAt(answers, i) == if gaveUp && i == n + m - 1 then Abort else Retry
    {
      if i >= n {
        SkipAnswers(answers, n, i - n);
      }
    }
    SkipSkip(answers, n, m);
  }

  /** How the passes so far and the prompts go together. */
  predicate Account(faults: seq<bool>, answers: seq<Answer>, faultsLeft: seq<bool>, answersLeft: seq<Answer>,
                    total: int, moved: seq<nat>, cuts: seq<nat>, asked: nat, inRange: bool)
  {
    && answersLeft == Skip(answers, asked) && Prompts(answers, asked, false) && CutPasses(total, moved, cuts, asked)
    && (inRange ==> asked + Failures(faultsLeft) <= Failures(faults)) && (Failures(faults) == 0 ==> inRange)
  }

  lemma AccountStarts(faults: seq<bool>, answers: seq<Answer>, total: int)
    ensures Account(faults, answers, faults, answers, total, [], [], 0, true)
  {
    SkipNone(answers);
  }

  lemma AccountEnds(faults: seq<bool>, answers: seq<Answer>, faultsLeft: seq<bool>, answersLeft: seq<Answer>,
                    total: int, moved: seq<nat>, cuts: seq<nat>, asked: nat, inRange: bool)
    requires Account(faults, answers, faultsLeft, answersLeft, total, moved, cuts, asked, inRange)
    ensures Prompts(answers, asked, false) && CutPasses(total, moved, cuts, asked)
    ensures inRange ==> asked <= Failures(faults)
    ensures Failures(faults) == 0 ==> inRange && asked == 0
  {
  }

  lemma AccountKept(faults: seq<bool>, answers: seq<Answer>, faultsLeft: seq<bool>, answersLeft: seq<Answer>,
                    total: int, moved: seq<nat>, cuts: seq<nat>, asked: nat, inRange: bool, later: seq<bool>)
    requires Account(faults, answers, faultsLeft, answersLeft, total, moved, cuts, asked, inRange)
    requires Failures(later) <= Failures(faultsLeft)
    ensures Account(faults, answers, later, answersLeft, total, moved, cuts, asked, inRange)
  {
    hide Prompts, CutPasses, Failures;
  }

  /** One pass more. */
  lemma AccountNext(faults: seq<bool>, answers: seq<Answer>, faultsLeft: seq<bool>, answersLeft: seq<Answer>,
                    total: int, moved: seq<nat>, cuts: seq<nat>, asked: nat, inRange: bool, rd: nat, j: nat, more: nat,
                    later: seq<bool>, stays: bool)
    requires Account(faults, answers, faultsLeft, answersLeft, total, moved, cuts, asked, inRange)
    requires 0 <= total - Sum(moved) && rd == Halved(Chunk(total - Sum(moved)), j) && j <= more
    requires Prompts(answersLeft, more, false) && (inRange ==> more + Failures(later) <= Failures(faultsLeft))
    requires (stays ==> inRange) && (inRange && j == 0 ==> stays)
    ensures Account(faults, answers, later, Skip(answersLeft, more), total, moved + [rd], cuts + [j], asked + more,
                    stays)
  {
    hide Prompts, CutPasses, Failures, Halved, Chunk, Sum, Skip;
    PromptsFollow(answers, asked, more, false);
    NextCut(total, moved, cuts, asked, rd, j, more);
  }

  /** A pass that ends with the user giving up. */
  lemma AccountStops(faults: seq<bool>, answers: seq<Answer>, faultsLeft: seq<bool>, answersLeft: seq<Answer>,
                     total: int, moved: seq<nat>, cuts: seq<nat>, asked: nat, inRange: bool, more: nat,
                     later: seq<bool>)
    requires Account(faults, answers, faultsLeft, answersLeft, total, moved, cuts, asked, inRange)
    requires Prompts(answersLeft, more, true) && (inRange ==> more + Failures(later) <= Failures(faultsLeft))
    ensures Prompts(answers, asked + more, true) && CutPasses(total, moved, cuts, asked + more)
    ensures inRange ==> asked + more <= Failures(faults)
    ensures Failures(faults) > 0
  {
    hide CutPasses, Skip, Failures;
    PromptsFollow(answers, asked, more, true);
    MorePrompts(total, moved, cuts, asked, more);
  }

  /** One turn of the loop: the pass, the advance of the loop variables, the header and the poll. */
  method Turn(disk: BlockIo, user: User, c: Call, ghost was: Disk, ghost faults: seq<bool>, ghost answers: seq<Answer>,
              ghost moved: seq<nat>, ghost cuts: seq<nat>, ghost asked: nat, remains: nat, pos: nat,
              stamped: Option<nat>)
    returns (ok: bool, rd: nat, left: nat, next: nat, now: Option<nat>, recorded: bool, key: Key, j: nat, more: nat)
    requires c.Fits(was) && Between(c, was, disk.sectors, moved, remains, pos, stamped) && remains > 0
    requires c.enSize <= c.size && Sum(moved) + remains == c.Total()
    requires Account(faults, answers, disk.faults, user.answers, c.Total(), moved, cuts, asked, c.InRange(moved))
    modifies disk, user`answers, user`keys
    ensures !ok ==> disk.sectors == old(disk.sectors)
    ensures !ok ==> Prompts(answers, asked + more, true) && CutPasses(c.Total(), moved, cuts, asked + more)
    ensures !ok ==> Failures(faults) > 0 && (c.InRange(moved) ==> asked + more <= Failures(faults))
    ensures ok ==> 0 < rd <= remains && left == remains - rd
    ensures ok ==> Between(c, was, disk.sectors, moved + [rd], left, next, now)
    ensures ok ==> Account(faults, answers, disk.faults, user.answers, c.Total(), moved + [rd], cuts + [j],
                           asked + more, c.InRange(moved + [rd]))
    ensures ok && recorded ==> now == Some(c.Boundary(left))
    ensures ok && Failures(faults) == 0 && c.Stampable(was) ==> recorded
    ensures ok ==> key == KeyAt(old(user.keys), 0) && user.keys == Rest(old(user.keys))
  {
    hide Call.Fits, Call.Stampable, Call.InRange, Call.Boundary, Between, Skip, Rest, KeyAt, Prompts, Halved, CutPasses,
         Account, Failures, Chunk, Sum;
    AccountEnds(faults, answers, disk.faults, user.answers, c.Total(), moved, cuts, asked, c.InRange(moved));
    now, recorded, key := stamped, false, NoKey;
    ok, rd, left, next, j, more := OnePass(disk, user, c, was, moved, remains, pos, stamped);
    if !ok {
      AccountStops(faults, answers, old(disk.faults), old(user.answers), c.Total(), moved, cuts, asked,
                   c.InRange(moved), more, disk.faults);
      return;
    }
    InRangeBefore(c, moved, rd);
    AccountNext(faults, answers, old(disk.faults), old(user.answers), c.Total(), moved, cuts, asked, c.InRange(moved),
                rd, j, more, disk.faults, c.InRange(moved + [rd]));
    NoFailuresLeft(faults, answers, disk.faults, user.answers, c.Total(), moved + [rd], cuts + [j], asked + more,
                   c.InRange(moved + [rd]));
    ghost var before := disk.faults;
    now, recorded, key := RecordAndPoll(disk, user, c, was, moved + [rd], left, next, stamped);
    AccountKept(faults, answers, before, user.answers, c.Total(), moved + [rd], cuts + [j], asked + more,
                c.InRange(moved + [rd]), disk.faults);
  }

  lemma NoFailuresLeft(faults: seq<bool>, answers: seq<Answer>, faultsLeft: seq<bool>, answersLeft: seq<Answer>,
                       total: int, moved: seq<nat>, cuts: seq<nat>, asked: nat, inRange: bool)
    requires Account(faults, answers, faultsLeft, answersLeft, total, moved, cuts, asked, inRange)
    ensures Failures(faults) == 0 ==> inRange && Failures(faultsLeft) == 0
  {
  }

  /** What a run began with: the disk, the transfers that will fail, the answers and the keys. */
  datatype Start = Start(was: Disk, faults: seq<bool>, answers: seq<Answer>, keys: seq<Key>)

  function StartOf(disk: BlockIo, user: User): Start
    reads disk, user
  {
    Start(disk.sectors, disk.faults, user.answers, user.keys)
  }

  /** And what it has done: the sizes of its passes and how often each was halved, the prompts, the sectors left and the
      next position, the boundary last recorded in the header, and whether the last pass was recorded. */
  datatype Progress = Progress(moved: seq<nat>, cuts: seq<nat>, asked: nat, remains: nat, pos: nat,
                               stamped: Option<nat>, recorded: bool)

  /** Between two passes. */
  ghost predicate Going(c: Call, s: Start, now: Start, p: Progress, res: Status)
    requires c.Fits(s.was)
  {
    && Between(c, s.was, now.was, p.moved, p.remains, p.pos, p.stamped)
    && Sum(p.moved) + p.remains == c.Total()
    && (p.recorded ==> p.stamped == Some(c.Boundary(p.remains)))
    && (if p.moved == [] then p.stamped == None && p.remains > 0 else res == PollStatus(KeyAt(s.keys, |p.moved| - 1)))
    && now.keys == Skip(s.keys, |p.moved|)
    && Account(s.faults, s.answers, now.faults, now.answers, c.Total(), p.moved, p.cuts, p.asked, c.InRange(p.moved))
    && (Failures(s.faults) == 0 && p.moved != [] && c.Stampable(s.was) ==> p.recorded)
  }

  /** At the end. A transfer error ends a run only if the user gives up at a prompt; as long as the passes stay in range
      there is a prompt only after a failure, so a patient user has them all made. */
  ghost predicate Ended(c: Call, s: Start, now: Disk, p: Progress, res: Status)
    requires c.Fits(s.was)
  {
    && Between(c, s.was, now, p.moved, p.remains, p.pos, p.stamped)
    && Sum(p.moved) + p.remains == c.Total() && CutPasses(c.Total(), p.moved, p.cuts, p.asked)
    && (p.recorded ==> p.stamped == Some(c.Boundary(p.remains)))
    && (p.moved == [] ==> p.stamped == None)
    && EndsAs(s.keys, p.moved, p.remains, res)
    && Prompts(s.answers, p.asked, res == DeviceError)
    && (c.InRange(p.moved) ==> p.asked <= Failures(s.faults))
    && (Patient(s.faults, s.answers) && c.InRange(p.moved) ==> res != DeviceError)
    && (Failures(s.faults) == 0 ==> c.InRange(p.moved) && res != DeviceError)
    && (Failures(s.faults) == 0 && c.Stampable(s.was) ==> p.recorded)
  }

  /** The last pass has been made, or the user has stopped the run. */
  lemma RunEnds(c: Call, s: Start, now: Start, p: Progress, res: Status)
    requires c.Fits(s.was) && Going(c, s, now, p, res)
    requires p.moved != [] && (p.remains == 0 || KeyAt(s.keys, |p.moved| - 1) == StopConfirmed)
    ensures Ended(c, s, now.was, p, res)
  {
    hide Between, Account, Prompts, Patient, CutPasses, Call.Stampable, Call.InRange, Call.Boundary, KeyAt,
         Failures;
    AccountEnds(s.faults, s.answers, now.faults, now.answers, c.Total(), p.moved, p.cuts, p.asked, c.InRange(p.moved));
  }

  /** A transfer has failed for good. */
  lemma RunFails(c: Call, s: Start, now: Start, p: Progress, res: Status, later: Disk, asked: nat)
    requires c.Fits(s.was) && Going(c, s, now, p, res) && p.remains > 0 && later == now.was
    requires Prompts(s.answers, asked, true) && CutPasses(c.Total(), p.moved, p.cuts, asked) && Failures(s.faults) > 0
    requires c.InRange(p.moved) ==> asked <= Failures(s.faults)
    ensures Ended(c, s, later, p.(asked := asked), DeviceError)
  {
    hide Between, Account, Prompts, Patient, CutPasses, Call.Stampable, Call.InRange, Call.Boundary, KeyAt,
         Failures;
    GaveUp(s.faults, s.answers, asked, c.InRange(p.moved), true);
  }

  /** One turn more. */
  lemma RunGoesOn(c: Call, s: Start, before: Start, p: Progress, res: Status, now: Start, q: Progress, rd: nat,
                  key: Key)
    requires c.Fits(s.was) && Going(c, s, before, p, res) && 0 < rd <= p.remains
    requires q.moved == p.moved + [rd] && q.remains == p.remains - rd
    requires Between(c, s.was, now.was, q.moved, q.remains, q.pos, q.stamped)
    requires Account(s.faults, s.answers, now.faults, now.answers, c.Total(), q.moved, q.cuts, q.asked,
                     c.InRange(q.moved))
    requires q.recorded ==> q.stamped == Some(c.Boundary(q.remains))
    requires Failures(s.faults) == 0 && c.Stampable(s.was) ==> q.recorded
    requires key == KeyAt(before.keys, 0) && now.keys == Rest(before.keys)
    ensures Going(c, s, now, q, PollStatus(key)) && KeyAt(s.keys, |q.moved| - 1) == key
  {
    hide Between, Account, Prompts, Patient, CutPasses, Call.Stampable, Call.InRange, Call.Boundary, KeyAt,
         Skip, Rest, PollStatus, Failures;
    SumSnoc(p.moved, rd);
    SkipRest(s.keys, |p.moved|);
    SkipKeys(s.keys, |p.moved|);
  }

  /** Before the first pass. */
  lemma RunStarts(c: Call, s: Start, pos: nat)
    requires c.Fits(s.was) && c.Total() > 0 && Between(c, s.was, s.was, [], c.Total(), pos, None)
    ensures Going(c, s, s, Progress([], [], 0, c.Total(), pos, None, false), Success)
  {
    hide Between, Account, Call.Stampable, Call.Boundary;
    SkipNone(s.keys);
    AccountStarts(s.faults, s.answers, c.Total());
    assert c.InRange([]);
  }

  lemma GoingMeans(c: Call, s: Start, now: Start, p: Progress, res: Status)
    requires c.Fits(s.was) && Going(c, s, now, p, res)
    ensures c.enSize <= c.size && Between(c, s.was, now.was, p.moved, p.remains, p.pos, p.stamped)
    ensures Sum(p.moved) + p.remains == c.Total() && (p.remains == 0 ==> p.moved != [])
    ensures Account(s.faults, s.answers, now.faults, now.answers, c.Total(), p.moved, p.cuts, p.asked,
                    c.InRange(p.moved))
  {
  }

  /** Lines 460-577: the do-while loop. */
  method Passes(disk: BlockIo, user: User, c: Call) returns (res: Status, p: Progress)
    requires c.Fits(disk.sectors) && c.Total() > 0
    modifies disk, user
    ensures Ended(c, old(StartOf(disk, user)), disk.sectors, p, res)
  {
    ghost var s := StartOf(disk, user);
    FirstPass(c, s.was);
    var remains, pos: nat, stamped: Option<nat> :=
      c.Total(), if c.job.encrypt then c.job.start + c.enSize else c.job.start + c.enSize - Chunk(c.Total()), None;
    RunStarts(c, s, pos);
    res, p := Success, Progress([], [], 0, remains, pos, stamped, false);
    hide Going, Ended, Call.Fits;
    while remains > 0
      invariant remains == p.remains && pos == p.pos && stamped == p.stamped
      invariant Going(c, s, StartOf(disk, user), p, res)
      decreases remains
    {
      ghost var before := StartOf(disk, user);
      GoingMeans(c, s, before, p, res);
      var ok, rd, left, next, now, recorded, key, j, more
        := Turn(disk, user, c, s.was, s.faults, s.answers, p.moved, p.cuts, p.asked, remains, pos, stamped);
      if !ok {
        RunFails(c, s, before, p, res, disk.sectors, p.asked + more);
        return DeviceError, p.(asked := p.asked + more);
      }
      var q := Progress(p.moved + [rd], p.cuts + [j], p.asked + more, left, next, now, recorded);
      RunGoesOn(c, s, before, p, res, StartOf(disk, user), q, rd, key);
      remains, pos, stamped, res, p := left, next, now, PollStatus(key), q;
      if key == StopConfirmed {
        RunEnds(c, s, StartOf(disk, user), p, res);
        return;
      }
    }
    GoingMeans(c, s, StartOf(disk, user), p, res);
    RunEnds(c, s, StartOf(disk, user), p, res);
  }

  lemma InRangeBefore(c: Call, moved: seq<nat>, rd: nat)
    ensures c.InRange(moved + [rd]) ==> c.InRange(moved)
  {
    UnshrunkenSnoc(c.enSize, moved, rd);
  }

  /** A patient user gives up only where a transfer left the disk. */
  lemma GaveUp(faults: seq<bool>, answers: seq<Answer>, asked: nat, inRange: bool, gaveUp: bool)
    requires Prompts(answers, asked, gaveUp) && (inRange ==> asked <= Failures(faults))
    ensures Patient(faults, answers) && inRange ==> !gaveUp
    ensures Failures(faults) == 0 && inRange ==> asked == 0 && !gaveUp
  {
    GivenUp(answers, asked, gaveUp);
  }

  /** RangeCrypt. */
  method RangeCrypt(disk: BlockIo, user: User, c: Call) returns (res: Status, p: Progress, done: Repair)
    requires c.Fits(disk.sectors)
    modifies disk, user
    // with something to do: the passes
    ensures c.Total() > 0 ==> Ended(c, old(StartOf(disk, user)), disk.sectors, p, res) && done == NothingDone
    // with nothing to do: the repair of a decrypted system, else nothing
    ensures c.Total() == 0 ==> p.moved == [] && p.remains == 0 && p.stamped == None && !p.recorded
    ensures c.Total() == 0 && !(!c.job.encrypt && c.job.system) ==> res == Success && done == NothingDone
    ensures c.Total() == 0 && done == NothingDone ==> disk.sectors == old(disk.sectors)
    ensures c.Total() == 0 && !c.job.encrypt && c.job.system ==>
      && MayRepair(c.job.cipher, old(disk.sectors), c.job.start, c.size, old(user.confirms), done)
      && disk.sectors == RepairedDisk(c.job.cipher, old(disk.sectors), c.job.start, c.size, old(user.confirms), done)
    ensures c.Total() == 0 && !c.job.encrypt && c.job.system && Persistent(old(disk.faults), old(user.answers)) ==>
      (res, done) == FaultlessRepair(c.job.cipher, old(disk.sectors), c.job.start, c.size, old(user.confirms))
  {
    hide MayRepair, RepairedDisk, FaultlessRepair, Ended, Persistent;
    done := NothingDone;
    if c.Total() > 0 {
      res, p := Passes(disk, user, c);
    } else {
      var pos := if c.job.encrypt then c.job.start + c.enSize else c.job.start + c.enSize - Chunk(0);
      res, p := Success, Progress([], [], 0, 0, pos, None, false);
      if !c.job.encrypt && c.job.system {
        res, done := RepairDecrypted(disk, user, c.job.cipher, c.job.start, c.size);
        NoRepairNoChange(c, old(disk.sectors), old(user.confirms));
      }
    }
  }

  lemma NoRepairNoChange(c: Call, was: Disk, confirms: seq<bool>)
    requires c.Fits(was)
    ensures MayRepair(c.job.cipher, was, c.job.start, c.size, confirms, NothingDone)
    ensures RepairedDisk(c.job.cipher, was, c.job.start, c.size, confirms, NothingDone) == was
  {
  }

  /** A run reports success exactly when it has finished and a key was pressed at its last poll; so one that finishes
      without a key press reports that it is not ready. */
  lemma SuccessExactly(keys: seq<Key>, moved: seq<nat>, remains: nat, res: Status)
    requires moved != [] && EndsAs(keys, moved, remains, res)
    ensures res == Success <==> remains == 0 && moved != [] && KeyAt(keys, |moved| - 1) == OtherKey
    ensures remains == 0 && KeyAt(keys, |moved| - 1) == NoKey ==> res == NotReady
  {
  }
}
