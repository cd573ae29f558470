/** The disk, the user, and transfers that are tried again for as long as the user asks for it (DcsCfgCrypt.c, lines
    464-524 and 594-690). */
module Devices {
  import opened Bytes
  import opened Volume

  /** EFI_BLOCK_IO_PROTOCOL: `faults` says, transfer by transfer, which ones fail; a failed one has no effect. */
  class BlockIo {
    var sectors: seq<Sector>
    var faults: seq<bool>

    method NextFault() returns (failed: bool)
      modifies this`faults
      ensures failed == FaultAt(old(faults), 0) && faults == Rest(old(faults))
    {
      failed := |faults| > 0 && faults[0];
      faults := if |faults| > 0 then faults[1..] else [];
    }

    method ReadBlocks(lba: nat, count: nat) returns (ok: bool, buf: seq<Sector>)
      modifies this`faults
      ensures ok <==> !FaultAt(old(faults), 0) && lba + count <= |sectors|
      ensures ok ==> buf == sectors[lba..lba + count]
      ensures faults == Rest(old(faults))
    {
      var failed := NextFault();
      ok := !failed && lba + count <= |sectors|;
      buf := if ok then sectors[lba..lba + count] else [];
    }

    method WriteBlocks(lba: nat, buf: seq<Sector>) returns (ok: bool)
      modifies this
      ensures ok <==> !FaultAt(old(faults), 0) && lba + |buf| <= |old(sectors)|
      ensures ok ==> sectors == Splice(old(sectors), lba, buf)
      ensures !ok ==> sectors == old(sectors)
      ensures faults == Rest(old(faults))
    {
      var failed := NextFault();
      ok := !failed && lba + |buf| <= |sectors|;
      if ok {
        sectors := Splice(sectors, lba, buf);
      }
    }
  }

  datatype Answer = Abort | Retry
  datatype Key = NoKey | OtherKey | StopConfirmed

  function Rest<T>(s: seq<T>): seq<T> {
    if |s| > 0 then s[1..] else []
  }

  /** Whether transfer k fails, and the answer to error prompt k; when they have run out, no and abort. */
  predicate FaultAt(faults: seq<bool>, k: nat) {
    k < |faults| && faults[k]
  }

  function AnswerAt(answers: seq<Answer>, k: nat): Answer {
    if k < |answers| then answers[k] else Abort
  }

  /** The key state at poll k, and the answer to yes/no question k; when they have run out, no key and no. */
  function KeyAt(keys: seq<Key>, k: nat): Key {
    if k < |keys| then keys[k] else NoKey
  }

  function ConfirmAt(confirms: seq<bool>, k: nat): bool {
    k < |confirms| && confirms[k]
  }

  /** The user: finitely many answers to error prompts (then only aborts), a key state per poll, and
      finitely many answers to yes/no questions (then only no). */
  class User {
    var answers: seq<Answer>
    var keys: seq<Key>
    var confirms: seq<bool>

    method Ask() returns (a: Answer)
      modifies this`answers
      ensures a == AnswerAt(old(answers), 0) && answers == Rest(old(answers))
    {
      if |answers| == 0 {
        return Abort;
      }
      a := answers[0];
      answers := answers[1..];
    }

    method Confirm() returns (yes: bool)
      modifies this`confirms
      ensures yes == ConfirmAt(old(confirms), 0) && confirms == Rest(old(confirms))
    {
      yes := false;
      if |confirms| > 0 {
        yes, confirms := confirms[0], confirms[1..];
      }
    }

    method Poll() returns (k: Key)
      modifies this`keys
      ensures k == KeyAt(old(keys), 0) && keys == Rest(old(keys))
    {
      k := NoKey;
      if |keys| > 0 {
        k, keys := keys[0], keys[1..];
      }
    }
  }

  // ---- lists that are used up ----

  function Skip<T>(s: seq<T>, n: nat): seq<T> {
    if n <= |s| then s[n..] else []
  }

  lemma SkipNone<T>(s: seq<T>)
    ensures Skip(s, 0) == s
  {
  }

  lemma SkipRest<T>(s: seq<T>, n: nat)
    ensures Rest(Skip(s, n)) == Skip(s, n + 1)
  {
  }

  lemma SkipSkip<T>(s: seq<T>, m: nat, n: nat)
    ensures Skip(Skip(s, m), n) == Skip(s, m + n)
  {
  }

  lemma SkipKeys(keys: seq<Key>, n: nat)
    ensures KeyAt(Skip(keys, n), 0) == KeyAt(keys, n)
  {
  }

  lemma SkipFaults(faults: seq<bool>, m: nat, n: nat)
    ensures FaultAt(Skip(faults, m), n) == FaultAt(faults, m + n)
  {
  }

  lemma SkipAnswers(answers: seq<Answer>, m: nat, n: nat)
    ensures AnswerAt(Skip(answers, m), n) == AnswerAt(answers, m + n)
  {
  }

  /** The transfers that are going to fail. */
  function Failures(faults: seq<bool>): nat {
    if faults == [] then 0 else (if faults[0] then 1 else 0) + Failures(faults[1..])
  }

  lemma FailuresRest(faults: seq<bool>)
    ensures Failures(faults) == (if FaultAt(faults, 0) then 1 else 0) + Failures(Rest(faults))
  {
  }

  lemma {:induction false} FailuresSkip(faults: seq<bool>, n: nat)
    ensures Failures(Skip(faults, n)) <= Failures(faults)
    ensures (forall i :: 0 <= i < n ==> FaultAt(faults, i)) ==> n + Failures(Skip(faults, n)) == Failures(faults)
  {
    hide Skip, Failures, FaultAt;
    if n == 0 {
      SkipNone(faults);
    } else {
      FailuresSkip(faults, n - 1);
      FailuresRest(Skip(faults, n - 1));
      SkipRest(faults, n - 1);
      SkipFaults(faults, n - 1, 0);
    }
  }

  /** Of n error prompts all are answered with another try, but for the last one if the user gave up. */
  predicate Prompts(answers: seq<Answer>, n: nat, gaveUp: bool) {
    && (gaveUp ==> n > 0)
    && forall i :: 0 <= i < n ==> AnswerAt(answers, i) == if gaveUp && i == n - 1 then Abort else Retry
  }

  /** The user has an answer for every transfer that is going to fail: to try again. */
  predicate Patient(faults: seq<bool>, answers: seq<Answer>) {
    forall i :: 0 <= i < Failures(faults) ==> AnswerAt(answers, i) == Retry
  }

  /** Who is asked only after failures, and is patient, does not give up. */
  lemma PatienceLasts(faults: seq<bool>, answers: seq<Answer>, later: seq<bool>, n: nat, gaveUp: bool)
    requires Patient(faults, answers) && Prompts(answers, n, gaveUp) && n + Failures(later) <= Failures(faults)
    ensures !gaveUp && Patient(later, Skip(answers, n))
  {
    GivenUp(answers, n, gaveUp);
    forall i | 0 <= i < Failures(later) ensures AnswerAt(Skip(answers, n), i) == Retry {
      SkipAnswers(answers, n, i);
    }
  }

  lemma GivenUp(answers: seq<Answer>, n: nat, gaveUp: bool)
    requires Prompts(answers, n, gaveUp)
    ensures gaveUp <==> exists i :: 0 <= i < n && AnswerAt(answers, i) != Retry
  {
    if gaveUp {
      assert AnswerAt(answers, n - 1) != Retry;
    }
  }

  lemma PatienceRest(faults: seq<bool>, answers: seq<Answer>)
    requires Patient(faults, answers)
    ensures Patient(Rest(faults), answers)
  {
    FailuresRest(faults);
  }

  // ---- transfers of one size ----

  /** Tries that fail are repeated for as long as the user says so; n of them before the last. */
  predicate Tried(faults: seq<bool>, answers: seq<Answer>, fits: bool, n: nat, ok: bool) {
    && (forall i :: 0 <= i < n ==> (FaultAt(faults, i) || !fits) && AnswerAt(answers, i) == Retry)
    && ok == (fits && !FaultAt(faults, n)) && (ok || AnswerAt(answers, n) == Abort)
  }

  /** The prompts that go with it, and the failures they use up. */
  lemma TriedPrompts(faults: seq<bool>, answers: seq<Answer>, fits: bool, n: nat, ok: bool)
    requires Tried(faults, answers, fits, n, ok)
    ensures var asked := if ok then n else n + 1;
      Prompts(answers, asked, !ok) && (fits ==> asked + Failures(Skip(faults, n + 1)) <= Failures(faults))
  {
    FailuresSkip(faults, if ok then n else n + 1);
    FailuresSkip(Skip(faults, n), 1);
    SkipSkip(faults, n, 1);
  }

  /** With m failures and as many answers to try again, the transfer succeeds at the next try. */
  lemma TriedExactly(faults: seq<bool>, answers: seq<Answer>, fits: bool, n: nat, ok: bool, m: nat)
    requires Tried(faults, answers, fits, n, ok) && fits && !FaultAt(faults, m)
    requires forall i :: 0 <= i < m ==> FaultAt(faults, i) && AnswerAt(answers, i) == Retry
    ensures ok && n == m
  {
  }

  /** A patient user has every transfer that fits made in the end. */
  lemma PatientTries(faults: seq<bool>, answers: seq<Answer>, fits: bool, n: nat, ok: bool)
    requires Tried(faults, answers, fits, n, ok)
    ensures Patient(faults, answers) && fits ==> ok && Patient(Skip(faults, n + 1), Skip(answers, n))
    ensures ok ==> fits
  {
    if Patient(faults, answers) && fits {
      TriedPrompts(faults, answers, fits, n, ok);
      PatienceLasts(faults, answers, Skip(faults, n + 1), if ok then n else n + 1, !ok);
    }
  }

  /** A write that is tried again for as long as the user asks for it. */
  method WriteRetrying(disk: BlockIo, user: User, lba: nat, buf: seq<Sector>) returns (ok: bool, n: nat)
    modifies disk, user`answers
    ensures ok ==> lba + |buf| <= |old(disk.sectors)| && disk.sectors == Splice(old(disk.sectors), lba, buf)
    ensures !ok ==> disk.sectors == old(disk.sectors)
    ensures Tried(old(disk.faults), old(user.answers), lba + |buf| <= |old(disk.sectors)|, n, ok)
    ensures disk.faults == Skip(old(disk.faults), n + 1)
    ensures user.answers == Skip(old(user.answers), if ok then n else n + 1)
  {
    hide Splice, Skip, Rest, FaultAt, AnswerAt;
    Starting(disk.faults, user.answers);
    ok := disk.WriteBlocks(lba, buf);
    n := 0;
    var asking := true;
    while !ok && asking
      invariant asking ==> user.answers == Skip(old(user.answers), n)
      invariant disk.faults == Skip(old(disk.faults), n + 1)
      invariant forall i :: 0 <= i < n ==>
        (FaultAt(old(disk.faults), i) || lba + |buf| > |old(disk.sectors)|) && AnswerAt(old(user.answers), i) == Retry
      invariant ok == (lba + |buf| <= |old(disk.sectors)| && !FaultAt(old(disk.faults), n))
      invariant ok ==> asking && disk.sectors == Splice(old(disk.sectors), lba, buf)
      invariant !ok ==> disk.sectors == old(disk.sectors)
      invariant !asking ==>
        AnswerAt(old(user.answers), n) == Abort && user.answers == Skip(old(user.answers), n + 1)
      decreases |old(user.answers)| - n, asking
    {
      Continuing(old(disk.faults), old(user.answers), n);
      var ar := user.Ask();
      asking := ar == Retry;
      if asking {
        ok := disk.WriteBlocks(lba, buf);
        n := n + 1;
      }
    }
  }

  lemma Starting(faults: seq<bool>, answers: seq<Answer>)
    ensures Skip(answers, 0) == answers && Skip(faults, 1) == Rest(faults)
  {
  }

  lemma Continuing(faults: seq<bool>, answers: seq<Answer>, n: nat)
    ensures AnswerAt(Skip(answers, n), 0) == AnswerAt(answers, n) && Rest(Skip(answers, n)) == Skip(answers, n + 1)
    ensures FaultAt(Skip(faults, n + 1), 0) == FaultAt(faults, n + 1)
    ensures Rest(Skip(faults, n + 1)) == Skip(faults, n + 2)
    ensures AnswerAt(answers, n) == Retry ==> n < |answers|
  {
  }

  /** A read that is tried again for as long as the user asks for it. */
  method ReadRetrying(disk: BlockIo, user: User, lba: nat, count: nat)
    returns (ok: bool, buf: seq<Sector>, n: nat)
    modifies disk`faults, user`answers
    ensures ok ==> lba + count <= |disk.sectors| && buf == disk.sectors[lba..lba + count]
    ensures Tried(old(disk.faults), old(user.answers), lba + count <= |disk.sectors|, n, ok)
    ensures disk.faults == Skip(old(disk.faults), n + 1)
    ensures user.answers == Skip(old(user.answers), if ok then n else n + 1)
  {
    hide Skip, Rest, FaultAt, AnswerAt;
    Starting(disk.faults, user.answers);
    ok, buf := disk.ReadBlocks(lba, count);
    n := 0;
    var asking := true;
    while !ok && asking
      invariant asking ==> user.answers == Skip(old(user.answers), n)
      invariant disk.faults == Skip(old(disk.faults), n + 1)
      invariant forall i :: 0 <= i < n ==>
        (FaultAt(old(disk.faults), i) || lba + count > |disk.sectors|) && AnswerAt(old(user.answers), i) == Retry
      invariant ok == (lba + count <= |disk.sectors| && !FaultAt(old(disk.faults), n))
      invariant ok ==> asking && buf == disk.sectors[lba..lba + count]
      invariant !asking ==>
        AnswerAt(old(user.answers), n) == Abort && user.answers == Skip(old(user.answers), n + 1)
      decreases |old(user.answers)| - n, asking
    {
      Continuing(old(disk.faults), old(user.answers), n);
      var ar := user.Ask();
      asking := ar == Retry;
      if asking {
        ok, buf := disk.ReadBlocks(lba, count);
        n := n + 1;
      }
    }
  }

  // ---- reads that are halved ----

  /** The size of a read after j failures. */
  function Halved(full: nat, j: nat): (r: nat)
    ensures r <= full && (full > 0 ==> r > 0)
  {
    if j == 0 then full
    else
      var h := Halved(full, j - 1);
      if h > 1 then h / 2 else h
  }

  /** It is the full size divided by two for each failure, and at least one sector. */
  lemma {:induction false} HalvedExactly(full: nat, j: nat)
    requires full > 0
    ensures Halved(full, j) == if full < Power2(j) then 1 else full / Power2(j)
  {
    if j > 0 {
      HalvedExactly(full, j - 1);
      var p := Power2(j - 1);
      DivideTwice(full, p);
    }
  }

  lemma DivideTwice(n: nat, p: nat)
    requires p > 0
    ensures n / p / 2 == n / (2 * p)
    ensures n < 2 * p <==> n / p <= 1
  {
    var q, r := n / p, n % p;
    assert n == q * p + r;
    var h, t := q / 2, q % 2;
    assert n == h * (2 * p) + (t * p + r) by {
      assert q * p == (2 * h + t) * p == h * (2 * p) + t * p;
    }
    assert t * p + r < 2 * p by {
      if t == 1 {
        assert t * p == p;
      } else {
        assert t * p == 0;
      }
    }
    QuotientIs(n, 2 * p, h, t * p + r);
    TimesMonotone(2, q, p);
  }

  lemma QuotientIs(n: nat, d: nat, q: nat, r: nat)
    requires d > 0 && n == q * d + r && r < d
    ensures n / d == q
  {
    var e, s := n / d, n % d;
    assert n == e * d + s;
    assert (e + 1) * d == e * d + d && (q + 1) * d == q * d + d;
    TimesMonotone(e + 1, q, d);
    TimesMonotone(q + 1, e, d);
  }

  lemma TimesMonotone(a: nat, b: nat, c: nat)
    ensures a <= b ==> a * c <= b * c
  {
    if a <= b {
      assert b * c == a * c + (b - a) * c;
    }
  }

  predicate ReadWorks(faults: seq<bool>, size: nat, pos: nat, full: nat, j: nat) {
    !FaultAt(faults, j) && pos + Halved(full, j) <= size
  }

  /** Reads that fail are repeated with half the size for as long as the user says so; then the write, with the size
      unchanged. So many tries fail before the last one of each. */
  predicate ChunkTried(faults: seq<bool>, answers: seq<Answer>, size: nat, pos: nat, full: nat,
                       failedReads: nat, failedWrites: nat, ok: bool)
  {
    && (forall i :: 0 <= i < failedReads ==> !ReadWorks(faults, size, pos, full, i) && AnswerAt(answers, i) == Retry)
    && if ReadWorks(faults, size, pos, full, failedReads)
       then Tried(Skip(faults, failedReads + 1), Skip(answers, failedReads), true, failedWrites, ok)
       else !ok && failedWrites == 0 && AnswerAt(answers, failedReads) == Abort
  }

  /** The transfers and the prompts it takes. */
  function Transfers(faults: seq<bool>, size: nat, pos: nat, full: nat, failedReads: nat, failedWrites: nat): nat {
    failedReads + 1 + if ReadWorks(faults, size, pos, full, failedReads) then failedWrites + 1 else 0
  }

  function Asked(failedReads: nat, failedWrites: nat, ok: bool): nat {
    failedReads + failedWrites + if ok then 0 else 1
  }

  lemma ChunkPrompts(faults: seq<bool>, answers: seq<Answer>, size: nat, pos: nat, full: nat,
                     failedReads: nat, failedWrites: nat, ok: bool)
    requires ChunkTried(faults, answers, size, pos, full, failedReads, failedWrites, ok)
    ensures Prompts(answers, Asked(failedReads, failedWrites, ok), !ok)
    ensures pos + full <= size ==>
      var later := Skip(faults, Transfers(faults, size, pos, full, failedReads, failedWrites));
      Asked(failedReads, failedWrites, ok) + Failures(later) <= Failures(faults)
  {
    hide Skip;
    var later, rest := Skip(faults, failedReads + 1), Skip(answers, failedReads);
    if ReadWorks(faults, size, pos, full, failedReads) {
      TriedPrompts(later, rest, true, failedWrites, ok);
      forall i | 0 <= i < Asked(failedReads, failedWrites, ok)
        ensures AnswerAt(answers, i) == if !ok && i == Asked(failedReads, failedWrites, ok) - 1 then Abort else Retry
      {
        if i >= failedReads {
          SkipAnswers(answers, failedReads, i - failedReads);
        }
      }
      SkipSkip(faults, failedReads + 1, failedWrites + 1);
    }
    if pos + full <= size {
      OnlyFaults(faults, size, pos, full, failedReads);
      FailuresSkip(faults, failedReads);
      FailuresSkip(Skip(faults, failedReads), 1);
      SkipSkip(faults, failedReads, 1);
      FailuresSkip(faults, failedReads + 1);
    }
  }

  /** A read of a window on the disk fails by a fault only. */
  lemma OnlyFaults(faults: seq<bool>, size: nat, pos: nat, full: nat, n: nat)
    requires pos + full <= size && forall i :: 0 <= i < n ==> !ReadWorks(faults, size, pos, full, i)
    ensures forall i :: 0 <= i < n ==> FaultAt(faults, i)
    ensures !ReadWorks(faults, size, pos, full, n) ==> FaultAt(faults, n)
  {
    forall i | 0 <= i < n ensures FaultAt(faults, i) {
      assert !ReadWorks(faults, size, pos, full, i);
    }
  }

  lemma NotRead(faults: seq<bool>, answers: seq<Answer>, size: nat, pos: nat, full: nat, n: nat)
    requires forall i :: 0 <= i < n ==> !ReadWorks(faults, size, pos, full, i) && AnswerAt(answers, i) == Retry
    requires !ReadWorks(faults, size, pos, full, n) && AnswerAt(answers, n) == Abort
    ensures ChunkTried(faults, answers, size, pos, full, n, 0, false)
    ensures Transfers(faults, size, pos, full, n, 0) == n + 1 == Asked(n, 0, false)
  {
  }

  lemma Written(faults: seq<bool>, answers: seq<Answer>, size: nat, pos: nat, full: nat, n: nat, m: nat, ok: bool)
    requires forall i :: 0 <= i < n ==> !ReadWorks(faults, size, pos, full, i) && AnswerAt(answers, i) == Retry
    requires ReadWorks(faults, size, pos, full, n) && Tried(Skip(faults, n + 1), Skip(answers, n), true, m, ok)
    ensures ChunkTried(faults, answers, size, pos, full, n, m, ok)
    ensures Skip(Skip(faults, n + 1), m + 1) == Skip(faults, Transfers(faults, size, pos, full, n, m))
    ensures Skip(Skip(answers, n), if ok then m else m + 1) == Skip(answers, Asked(n, m, ok))
  {
    hide Skip, Tried, FaultAt, AnswerAt;
    SkipSkip(faults, n + 1, m + 1);
    SkipSkip(answers, n, if ok then m else m + 1);
  }

  /** Lines 464-486: a read that is tried again with half the size for as long as the user asks for it. */
  method ReadHalving(disk: BlockIo, user: User, pos: nat, full: nat)
    returns (ok: bool, rd: nat, buf: seq<Sector>, n: nat)
    requires full > 0
    modifies disk`faults, user`answers
    ensures rd == Halved(full, n) && ok == ReadWorks(old(disk.faults), |disk.sectors|, pos, full, n)
    ensures forall i :: 0 <= i < n ==>
      !ReadWorks(old(disk.faults), |disk.sectors|, pos, full, i) && AnswerAt(old(user.answers), i) == Retry
    ensures ok ==> pos + rd <= |disk.sectors| && buf == disk.sectors[pos..pos + rd]
    ensures !ok ==> AnswerAt(old(user.answers), n) == Abort
    ensures disk.faults == Skip(old(disk.faults), n + 1)
    ensures user.answers == Skip(old(user.answers), if ok then n else n + 1)
  {
    hide Skip, Rest, FaultAt, AnswerAt;
    Starting(disk.faults, user.answers);
    rd, n := full, 0;
    ok, buf := disk.ReadBlocks(pos, rd);
    while !ok
      invariant rd == Halved(full, n) && ok == ReadWorks(old(disk.faults), |disk.sectors|, pos, full, n)
      invariant forall i :: 0 <= i < n ==>
        !ReadWorks(old(disk.faults), |disk.sectors|, pos, full, i) && AnswerAt(old(user.answers), i) == Retry
      invariant ok ==> pos + rd <= |disk.sectors| && buf == disk.sectors[pos..pos + rd]
      invariant disk.faults == Skip(old(disk.faults), n + 1) && user.answers == Skip(old(user.answers), n)
      decreases |old(user.answers)| - n, !ok
    {
      Continuing(old(disk.faults), old(user.answers), n);
      var ari := user.Ask();
      if ari == Abort {
        return;
      }
      if rd > 1 {
        rd := rd / 2;
      }
      ok, buf := disk.ReadBlocks(pos, rd);
      n := n + 1;
    }
  }

  /** With j failing reads and m failing writes, and as many answers to try again, a window on the disk is read with its
      size halved j times, and written with that. */
  lemma ChunkExactly(faults: seq<bool>, answers: seq<Answer>, size: nat, pos: nat, full: nat,
                     failedReads: nat, failedWrites: nat, ok: bool, j: nat, m: nat)
    requires ChunkTried(faults, answers, size, pos, full, failedReads, failedWrites, ok) && pos + full <= size
    requires forall i :: 0 <= i <= j + m + 1 ==> (FaultAt(faults, i) <==> i < j || j < i <= j + m)
    requires forall i :: 0 <= i < j + m ==> AnswerAt(answers, i) == Retry
    ensures ok && failedReads == j && failedWrites == m
  {
    assert ReadWorks(faults, size, pos, full, j);
    assert failedReads <= j;
    assert failedReads < j ==> FaultAt(faults, failedReads);
    var later, rest := Skip(faults, j + 1), Skip(answers, j);
    forall i | 0 <= i <= m
      ensures FaultAt(later, i) == (i < m) && (i < m ==> AnswerAt(rest, i) == Retry)
    {
      SkipFaults(faults, j + 1, i);
      SkipAnswers(answers, j, i);
    }
    TriedExactly(later, rest, true, failedWrites, ok, m);
  }
}
