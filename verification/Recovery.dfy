/** The branch of RangeCrypt that undoes a decryption made over the wrong window (DcsCfgCrypt.c, lines 630-706). */
module Recovery {
  import opened Bytes
  import opened Volume
  import opened RangeSpec

  /** `size % CRYPT_BUF_SECTORS` as the compiler reads it: the macro body 50*1024*2 stands without parentheses. */
  function RecoveryRemainder(size: nat): (r: nat)
    ensures r < BUF_SECTORS
  {
    ((size % 50) * 1024) * 2
  }

  /** It is the remainder the comment speaks of exactly when there is no remainder at all. */
  lemma RemainderExact(size: nat)
    ensures RecoveryRemainder(size) == size % BUF_SECTORS <==> size % BUF_SECTORS == 0
  {
    var m, a := size % BUF_SECTORS, size % BUF_SECTORS % 50;
    var q := 2048 * (size / BUF_SECTORS) + m / 50;
    assert size == 50 * q + a;
    assert size % 50 == a;
  }

  /** The last, short pass of the faulty decryption: its window ended r sectors too low by a full buffer. */
  function Faulty(c: Cipher, d: Disk, start: nat, r: nat): Disk
    requires r < BUF_SECTORS && start + r >= BUF_SECTORS && start + r <= |d|
  {
    var pos := start + r - BUF_SECTORS;
    Splice(d, pos, DecryptUnits(c, pos, d[pos..pos + r]))
  }

  /** The buffer after "reverse faulty decryption", BUF_SECTORS sectors from `pos`. */
  function Reversed(c: Cipher, pos: nat, r: nat, buf: seq<Sector>): (b: seq<Sector>)
    requires |buf| == BUF_SECTORS && r < BUF_SECTORS
    ensures |b| == BUF_SECTORS
  {
    EncryptUnits(c, pos, buf[..r]) + buf[r..]
  }

  /** The disk once both corrected parts are written back. */
  function Recovered(c: Cipher, d: Disk, start: nat, r: nat): Disk
    requires r < BUF_SECTORS && start + r >= BUF_SECTORS && start + r <= |d|
  {
    var pos := start + r - BUF_SECTORS;
    var b := Reversed(c, pos, r, d[pos..pos + BUF_SECTORS]);
    Splice(Splice(d, pos, b[..BUF_SECTORS - r]), start, DecryptUnits(c, start, b[BUF_SECTORS - r..]))
  }

  predicate In(i: nat, lo: nat, n: nat) {
    lo <= i < lo + n
  }

  lemma FaultySector(c: Cipher, d: Disk, start: nat, r: nat, i: nat)
    requires r < BUF_SECTORS && start + r >= BUF_SECTORS && start + r <= |d| && i < |d|
    ensures |Faulty(c, d, start, r)| == |d|
    ensures Faulty(c, d, start, r)[i] == if In(i, start + r - BUF_SECTORS, r) then c.dec(i, d[i]) else d[i]
  {
    var pos := start + r - BUF_SECTORS;
    if In(i, pos, r) {
      assert Splice(d, pos, DecryptUnits(c, pos, d[pos..pos + r]))[pos..pos + r][i - pos] == c.dec(i, d[i]);
    }
  }

  /** Sector by sector: re-encrypted in the faulty window, then decrypted in the right one. */
  lemma RecoveredSector(c: Cipher, d: Disk, start: nat, r: nat, i: nat)
    requires r < BUF_SECTORS && start + r >= BUF_SECTORS && start + r <= |d| && i < |d|
    ensures |Recovered(c, d, start, r)| == |d|
    ensures var x := if In(i, start + r - BUF_SECTORS, r) then c.enc(i, d[i]) else d[i];
      Recovered(c, d, start, r)[i] == if In(i, start, r) then c.dec(i, x) else x
  {
    var pos := start + r - BUF_SECTORS;
    var b := Reversed(c, pos, r, d[pos..pos + BUF_SECTORS]);
    CorrectedSector(c, d, start, r, i);
    WrittenBack(d, b, DecryptUnits(c, start, b[BUF_SECTORS - r..]), start, r, i);
  }

  lemma CorrectedSector(c: Cipher, d: Disk, start: nat, r: nat, i: nat)
    requires r < BUF_SECTORS && start + r >= BUF_SECTORS && start + r <= |d| && i < |d|
    ensures var pos := start + r - BUF_SECTORS;
      var b := Reversed(c, pos, r, d[pos..pos + BUF_SECTORS]);
      var x := if In(i, pos, r) then c.enc(i, d[i]) else d[i];
      && (In(i, pos, BUF_SECTORS - r) ==> b[i - pos] == x)
      && (In(i, start, r) ==> DecryptUnits(c, start, b[BUF_SECTORS - r..])[i - start] == c.dec(i, x))
  {
    hide Reversed, EncryptUnits;
    var pos := start + r - BUF_SECTORS;
    if pos <= i < start + r {
      ReversedSector(c, pos, r, d, i);
      var b := Reversed(c, pos, r, d[pos..pos + BUF_SECTORS]);
      assert In(i, start, r) ==> b[BUF_SECTORS - r..][i - start] == b[i - pos];
    }
  }

  lemma ReversedSector(c: Cipher, pos: nat, r: nat, d: Disk, i: nat)
    requires r < BUF_SECTORS && pos + BUF_SECTORS <= |d| && pos <= i < pos + BUF_SECTORS
    ensures Reversed(c, pos, r, d[pos..pos + BUF_SECTORS])[i - pos] == if In(i, pos, r) then c.enc(i, d[i]) else d[i]
  {
    var buf := d[pos..pos + BUF_SECTORS];
    assert buf[i - pos] == d[i];
  }

  lemma WrittenBack(d: Disk, b: seq<Sector>, high: seq<Sector>, start: nat, r: nat, i: nat)
    requires r < BUF_SECTORS && |b| == BUF_SECTORS && |high| == r
    requires start + r >= BUF_SECTORS && start + r <= |d| && i < |d|
    ensures var pos := start + r - BUF_SECTORS;
      Splice(Splice(d, pos, b[..BUF_SECTORS - r]), start, high)[i]
      == if In(i, start, r) then high[i - start] else if In(i, pos, BUF_SECTORS - r) then b[i - pos] else d[i]
  {
    var pos := start + r - BUF_SECTORS;
    var low := b[..BUF_SECTORS - r];
    var d1 := Splice(d, pos, low);
    if In(i, start, r) {
      assert Splice(d1, start, high)[start..start + r][i - start] == high[i - start];
    } else if In(i, pos, BUF_SECTORS - r) {
      assert d1[pos..pos + |low|][i - pos] == low[i - pos];
    }
  }

  /** Recovery with remainder r undoes a fault made with remainder t, on the whole disk, exactly when r == t:
      the windows may overlap. The only-if half needs one sector the cipher does not leave as it is. */
  lemma RecoveryExact(c: Cipher, plain: Disk, start: nat, t: nat, r: nat)
    requires c.Valid() && 0 < t < BUF_SECTORS && 0 < r < BUF_SECTORS
    requires start + t >= BUF_SECTORS && start + r >= BUF_SECTORS
    requires start + t <= |plain| && start + r <= |plain|
    requires var top := start + (if r > t then r else t) - 1; c.enc(top, plain[top]) != plain[top]
    ensures Recovered(c, Faulty(c, Mixed(c, plain, start, t), start, t), start, r) == plain <==> r == t
  {
    hide Recovered, Faulty, Mixed;
    if r == t {
      RecoveryInverts(c, plain, start, r);
    } else {
      RecoveryMisses(c, plain, start, t, r);
    }
  }

  lemma RecoveryMisses(c: Cipher, plain: Disk, start: nat, t: nat, r: nat)
    requires c.Valid() && 0 < t < BUF_SECTORS && 0 < r < BUF_SECTORS && r != t
    requires start + t >= BUF_SECTORS && start + r >= BUF_SECTORS
    requires start + t <= |plain| && start + r <= |plain|
    requires var top := start + (if r > t then r else t) - 1; c.enc(top, plain[top]) != plain[top]
    ensures Recovered(c, Faulty(c, Mixed(c, plain, start, t), start, t), start, r) != plain
  {
    hide Recovered, Faulty, Mixed;
    var mixed := Mixed(c, plain, start, t);
    var top := start + (if r > t then r else t) - 1;
    FaultySector(c, mixed, start, t, top);
    RecoveredSector(c, Faulty(c, mixed, start, t), start, r, top);
  }

  lemma RecoveryInverts(c: Cipher, plain: Disk, start: nat, r: nat)
    requires c.Valid() && 0 < r < BUF_SECTORS && start + r >= BUF_SECTORS && start + r <= |plain|
    ensures Recovered(c, Faulty(c, Mixed(c, plain, start, r), start, r), start, r) == plain
  {
    hide Recovered, Faulty, Mixed;
    var mixed := Mixed(c, plain, start, r);
    var faulty := Faulty(c, mixed, start, r);
    FaultySector(c, mixed, start, r, start);
    var out := Recovered(c, faulty, start, r);
    RecoveredSector(c, faulty, start, r, start);
    forall i | 0 <= i < |plain| ensures |out| == |plain| && out[i] == plain[i] {
      FaultySector(c, mixed, start, r, i);
      RecoveredSector(c, faulty, start, r, i);
    }
    assert |out| == |plain|;
  }

  /** The window of the recovery lies on the disk; a start below it wraps around beyond every disk. */
  predicate WindowOnDisk(d: Disk, start: nat, r: nat) {
    0 < r < BUF_SECTORS && start + r >= BUF_SECTORS && start + r <= |d|
  }

  /** What the branch makes of a disk when the user agrees and no transfer fails: nothing if the remainder is zero or
      the window cannot be read. */
  function CompiledRecovered(c: Cipher, d: Disk, start: nat, size: nat): Disk {
    var r := RecoveryRemainder(size);
    if WindowOnDisk(d, start, r) then Recovered(c, d, start, r) else d
  }

  lemma FaultyDamages(c: Cipher, plain: Disk, start: nat, t: nat)
    requires c.Valid() && 0 < t < BUF_SECTORS && start + t >= BUF_SECTORS && start + t <= |plain|
    requires var top := start + t - 1; c.enc(top, plain[top]) != plain[top]
    ensures Faulty(c, Mixed(c, plain, start, t), start, t) != plain
  {
    hide Faulty, Mixed;
    FaultySector(c, Mixed(c, plain, start, t), start, t, start + t - 1);
  }

  /** So, as compiled, the branch restores no volume that the faulty decryption damaged: the fault needs a size that is
      not a multiple of the buffer. */
  lemma CompiledRecoveryMisses(c: Cipher, plain: Disk, start: nat, size: nat)
    requires c.Valid() && size % BUF_SECTORS != 0
    requires start + size % BUF_SECTORS >= BUF_SECTORS && start + size <= |plain|
    requires forall i :: start <= i < |plain| ==> c.enc(i, plain[i]) != plain[i]
    ensures var t := size % BUF_SECTORS;
      CompiledRecovered(c, Faulty(c, Mixed(c, plain, start, t), start, t), start, size) != plain
  {
    hide Recovered, Faulty, Mixed, RecoveryRemainder;
    var t, r := size % BUF_SECTORS, RecoveryRemainder(size);
    RemainderExact(size);
    RemainderBelow(size);
    FaultyDamages(c, plain, start, t);
    FaultySector(c, Mixed(c, plain, start, t), start, t, start);
    if WindowOnDisk(plain, start, r) {
      RecoveryMisses(c, plain, start, t, r);
    }
  }

  lemma RemainderBelow(size: nat)
    ensures size % BUF_SECTORS <= size
  {
  }
}
