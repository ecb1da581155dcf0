/** The blocking I2C transfers: retries within retries, against a bus and an
    interrupt source that may do anything. */
module I2c {
  import opened Text

  const TRIES: nat := 10
  const INTERRUPTS: nat := 10

  datatype SendResult = Sent | BusBusy | Refused

  /** What one wait brings: an interrupt or a timeout, whether the bus has
      become free, and what the interrupt handler counts. */
  datatype Wait = Wait(timeout: bool, busFree: bool, transfers: nat, errors: nat)

  /** The whole behaviour of the outside: the k-th attempt and the k-th wait. */
  datatype Schedule = Schedule(send: nat -> SendResult, wait: nat -> Wait)

  datatype Outcome = Done | TransferRefused | BusStuck | NoInterrupt | TransferErrors

  /** Attempts and waits so far, `transmitIntrs` (or `receiveIntrs`), and
      `Stats.TxErrors`. */
  datatype Progress = Progress(sends: nat, waits: nat, interrupts: nat, errors: nat)

  datatype Result = Result(outcome: Outcome, rounds: nat, at: Progress)

  // ------------------------------------------------------------ what happens

  /** The wait that ends with a free bus, among the next `left`. */
  function FreeAfter(s: Schedule, waits: nat, left: nat): Option<nat>
    decreases left
  {
    if left == 0 then None
    else if s.wait(waits).busFree then Some(waits + 1)
    else FreeAfter(s, waits + 1, left - 1)
  }

  /** The attempts of one try: a second one when the bus was busy at first. */
  function Attempted(s: Schedule, sends: nat, waits: nat, again: bool): (Outcome, nat, nat)
    decreases again
  {
    match s.send(sends)
    case Refused => (TransferRefused, sends + 1, waits)
    case Sent => (Done, sends + 1, waits)
    case BusBusy =>
      match FreeAfter(s, waits, INTERRUPTS)
      case None => (BusStuck, sends + 1, waits + INTERRUPTS)
      case Some(w) => if again then Attempted(s, sends + 1, w, false) else (Done, sends + 1, w)
  }

  /** Waiting for a transfer interrupt: waits, interrupts and errors after it. */
  function Awaited(s: Schedule, waits: nat, left: nat, errors: nat): (nat, nat, nat)
    decreases left
  {
    if left == 0 then (waits, 0, errors)
    else
      var w := s.wait(waits);
      if w.timeout then (waits + 1, 0, errors)
      else if w.transfers > 0 then (waits + 1, w.transfers, errors + w.errors)
      else Awaited(s, waits + 1, left - 1, errors + w.errors)
  }

  lemma AwaitedStep(s: Schedule, waits: nat, left: nat, errors: nat)
    ensures Awaited(s, waits, left, errors) ==
      if left == 0 then (waits, 0, errors)
      else
        var w := s.wait(waits);
        if w.timeout then (waits + 1, 0, errors)
        else if w.transfers > 0 then (waits + 1, w.transfers, errors + w.errors)
        else Awaited(s, waits + 1, left - 1, errors + w.errors)
  {
  }

  function Verdict(write: bool, rounds: nat, errors: nat): Outcome {
    if rounds == TRIES then NoInterrupt else if write && errors > 0 then TransferErrors else Done
  }

  /** A whole transfer from try `rounds` on; only writing looks at the errors,
      and clears them for every try. */
  function Transfer(s: Schedule, write: bool, rounds: nat, p: Progress): Result
    requires rounds <= TRIES
    decreases TRIES - rounds
  {
    if rounds == TRIES then Result(NoInterrupt, rounds, p)
    else
      var errors := if write then 0 else p.errors;
      var (outcome, sends, waits) := Attempted(s, p.sends, p.waits, true);
      if outcome != Done then Result(outcome, rounds, Progress(sends, waits, p.interrupts, errors))
      else
        var (waits', interrupts, errors') := Awaited(s, waits, INTERRUPTS, errors);
        var p' := Progress(sends, waits', interrupts, errors');
        if interrupts == 0 then Transfer(s, write, rounds + 1, p')
        else Result(Verdict(write, rounds + 1, errors'), rounds + 1, p')
  }

  // ------------------------------------------------------------ what it means

  lemma {:induction false} FreeAfterMeaning(s: Schedule, waits: nat, left: nat)
    ensures match FreeAfter(s, waits, left)
      case None => forall k: nat | waits <= k < waits + left :: !s.wait(k).busFree
      case Some(w) => waits < w <= waits + left && s.wait(w - 1).busFree &&
                      forall k: nat | waits <= k < w - 1 :: !s.wait(k).busFree
    decreases left
  {
    if left > 0 && !s.wait(waits).busFree {
      FreeAfterMeaning(s, waits + 1, left - 1);
    }
  }

  /** A try is given up when its last attempt was refused, or the bus stayed
      busy for ten waits after it. */
  lemma {:induction false} AttemptedMeaning(s: Schedule, sends: nat, waits: nat, again: bool)
    ensures var (outcome, sends', waits') := Attempted(s, sends, waits, again);
      var n := if again then 2 else 1;
      && sends < sends' <= sends + n && waits <= waits' <= waits + n * 10
      && outcome in {Done, TransferRefused, BusStuck}
      && (outcome == TransferRefused <==> s.send(sends' - 1) == Refused)
      && (outcome == BusStuck ==> s.send(sends' - 1) == BusBusy && StuckBefore(s, waits'))
      && (outcome == Done ==> s.send(sends' - 1) == Sent || (sends' == sends + n && FreeBefore(s, waits')))
    decreases again
  {
    hide FreeAfter;
    FreeAfterMeaning(s, waits, INTERRUPTS);
    if s.send(sends) == BusBusy && again && FreeAfter(s, waits, INTERRUPTS).Some? {
      AttemptedMeaning(s, sends + 1, FreeAfter(s, waits, INTERRUPTS).value, false);
    }
  }

  ghost predicate StuckBefore(s: Schedule, waits: nat) {
    waits >= 10 && forall k: nat | waits - 10 <= k < waits :: !s.wait(k).busFree
  }

  ghost predicate FreeBefore(s: Schedule, waits: nat) {
    waits > 0 && s.wait(waits - 1).busFree
  }

  lemma {:induction false} AwaitedMeaning(s: Schedule, waits: nat, left: nat, errors: nat)
    ensures var (waits', interrupts, errors') := Awaited(s, waits, left, errors);
      && waits <= waits' <= waits + left && errors <= errors'
      && (interrupts > 0 ==> waits < waits' && s.wait(waits' - 1).transfers == interrupts && !s.wait(waits' - 1).timeout)
      && (interrupts == 0 ==> waits' == waits + left || (waits < waits' && s.wait(waits' - 1).timeout))
    decreases left
  {
    if left > 0 && !s.wait(waits).timeout && s.wait(waits).transfers == 0 {
      AwaitedMeaning(s, waits + 1, left - 1, errors + s.wait(waits).errors);
    }
  }

  /** Whatever bus and interrupts do: at most 20 attempts and 300 waits. */
  lemma {:induction false} TransferBounded(s: Schedule, write: bool, rounds: nat, p: Progress)
    requires rounds <= TRIES
    ensures var r := Transfer(s, write, rounds, p);
      && rounds <= r.rounds <= TRIES
      && p.sends <= r.at.sends <= p.sends + 2 * (TRIES - rounds)
      && p.waits <= r.at.waits <= p.waits + 3 * INTERRUPTS * (TRIES - rounds)
    decreases TRIES - rounds
  {
    hide Attempted, Awaited, Verdict;
    if rounds < TRIES {
      var errors := if write then 0 else p.errors;
      AttemptedMeaning(s, p.sends, p.waits, true);
      var (outcome, sends, waits) := Attempted(s, p.sends, p.waits, true);
      AwaitedMeaning(s, waits, INTERRUPTS, errors);
      var (waits', interrupts, errors') := Awaited(s, waits, INTERRUPTS, errors);
      if outcome == Done && interrupts == 0 {
        TransferBounded(s, write, rounds + 1, Progress(sends, waits', interrupts, errors'));
      }
    }
  }

  ghost predicate SawTransfer(s: Schedule, p: Progress) {
    p.interrupts > 0 && p.waits > 0 && s.wait(p.waits - 1).transfers == p.interrupts
  }

  /** A normal return means that the last wait brought a transfer interrupt and,
      for a write, that no error was counted since the try began. */
  lemma {:induction false} TransferMeaning(s: Schedule, write: bool, rounds: nat, p: Progress)
    requires rounds <= TRIES && p.interrupts == 0
    ensures var r := Transfer(s, write, rounds, p);
      && (r.outcome == NoInterrupt <==> r.rounds == TRIES)
      && (r.outcome in {Done, TransferErrors} ==> SawTransfer(s, r.at))
      && (write && r.outcome == Done ==> r.at.errors == 0)
      && (r.outcome == TransferErrors ==> write && r.at.errors > 0)
      && (r.outcome in {TransferRefused, BusStuck} ==> r.at.interrupts == 0)
    decreases TRIES - rounds
  {
    hide Attempted, Awaited;
    if rounds < TRIES {
      var errors := if write then 0 else p.errors;
      AttemptedMeaning(s, p.sends, p.waits, true);
      var (outcome, sends, waits) := Attempted(s, p.sends, p.waits, true);
      AwaitedMeaning(s, waits, INTERRUPTS, errors);
      var (waits', interrupts, errors') := Awaited(s, waits, INTERRUPTS, errors);
      if outcome == Done && interrupts == 0 {
        TransferMeaning(s, write, rounds + 1, Progress(sends, waits', interrupts, errors'));
      }
    }
  }

  // ------------------------------------------------------------ try by try

  /** One try, on its own: how its attempts end, and the progress after it. */
  function Try(s: Schedule, write: bool, p: Progress): (Outcome, Progress) {
    var errors := if write then 0 else p.errors;
    var (outcome, sends, waits) := Attempted(s, p.sends, p.waits, true);
    if outcome != Done then (outcome, Progress(sends, waits, p.interrupts, errors))
    else
      var (waits', interrupts, errors') := Awaited(s, waits, INTERRUPTS, errors);
      (Done, Progress(sends, waits', interrupts, errors'))
  }

  /** The try is neither refused nor stuck, and brings no transfer interrupt. */
  predicate Quiet(s: Schedule, write: bool, p: Progress) {
    Try(s, write, p).0 == Done && Try(s, write, p).1.interrupts == 0
  }

  /** The progress after `k` tries. */
  function AfterTries(s: Schedule, write: bool, p: Progress, k: nat): Progress {
    if k == 0 then p else Try(s, write, AfterTries(s, write, p, k - 1)).1
  }

  ghost predicate QuietTill(s: Schedule, write: bool, p: Progress, k: nat) {
    forall i | 0 <= i < k :: Quiet(s, write, AfterTries(s, write, p, i))
  }

  lemma {:induction false} TriesShift(s: Schedule, write: bool, p: Progress, k: nat)
    ensures AfterTries(s, write, p, k + 1) == AfterTries(s, write, Try(s, write, p).1, k)
    decreases k
  {
    hide Try;
    if k > 0 {
      TriesShift(s, write, p, k - 1);
    }
  }

  lemma QuietShift(s: Schedule, write: bool, p: Progress, k: nat)
    ensures QuietTill(s, write, p, k + 1) <==> Quiet(s, write, p) && QuietTill(s, write, Try(s, write, p).1, k)
  {
    hide Quiet, Try;
    var q := Try(s, write, p).1;
    forall i: nat ensures AfterTries(s, write, p, i + 1) == AfterTries(s, write, q, i) {
      TriesShift(s, write, p, i);
    }
    if QuietTill(s, write, p, k + 1) {
      assert Quiet(s, write, AfterTries(s, write, p, 0));
      forall i | 0 <= i < k ensures Quiet(s, write, AfterTries(s, write, q, i)) {
        assert Quiet(s, write, AfterTries(s, write, p, i + 1));
      }
    }
    if Quiet(s, write, p) && QuietTill(s, write, q, k) {
      forall i | 0 <= i < k + 1 ensures Quiet(s, write, AfterTries(s, write, p, i)) {
        if i > 0 {
          assert Quiet(s, write, AfterTries(s, write, q, i - 1));
        }
      }
    }
  }

  /** A transfer is its tries: it ends with the first that is not quiet. */
  lemma {:induction false} TransferIsTries(s: Schedule, write: bool, rounds: nat, p: Progress, k: nat)
    requires rounds + k < TRIES && QuietTill(s, write, p, k) && !Quiet(s, write, AfterTries(s, write, p, k))
    ensures var (outcome, q) := Try(s, write, AfterTries(s, write, p, k));
      Transfer(s, write, rounds, p) ==
        if outcome != Done then Result(outcome, rounds + k, q)
        else Result(Verdict(write, rounds + k + 1, q.errors), rounds + k + 1, q)
    decreases k
  {
    hide Attempted, Awaited;
    if k > 0 {
      QuietShift(s, write, p, k - 1);
      TriesShift(s, write, p, k - 1);
      TransferIsTries(s, write, rounds + 1, Try(s, write, p).1, k - 1);
    }
  }

  lemma {:induction false} AllQuiet(s: Schedule, write: bool, rounds: nat, p: Progress)
    requires rounds <= TRIES && QuietTill(s, write, p, TRIES - rounds)
    ensures Transfer(s, write, rounds, p) == Result(NoInterrupt, TRIES, AfterTries(s, write, p, TRIES - rounds))
    decreases TRIES - rounds
  {
    hide Attempted, Awaited;
    if rounds < TRIES {
      QuietShift(s, write, p, TRIES - rounds - 1);
      TriesShift(s, write, p, TRIES - rounds - 1);
      AllQuiet(s, write, rounds + 1, Try(s, write, p).1);
    }
  }

  /** Either all ten tries are quiet, or there is a first one that is not. */
  lemma {:induction false} FirstLoud(s: Schedule, write: bool, p: Progress, n: nat) returns (k: nat)
    ensures k <= n && QuietTill(s, write, p, k)
    ensures k < n ==> !Quiet(s, write, AfterTries(s, write, p, k))
    decreases n
  {
    hide Quiet, AfterTries;
    if n == 0 {
      k := 0;
    } else {
      k := FirstLoud(s, write, p, n - 1);
      if k == n - 1 && Quiet(s, write, AfterTries(s, write, p, k)) {
        k := n;
      }
    }
  }

  /** When "no interrupt" is reported: exactly when the first nine tries are
      quiet and the tenth is neither refused nor stuck. */
  lemma NoInterruptIff(s: Schedule, write: bool, p: Progress)
    ensures Transfer(s, write, 0, p).outcome == NoInterrupt
       <==> QuietTill(s, write, p, 9) && Try(s, write, AfterTries(s, write, p, 9)).0 == Done
    ensures Transfer(s, write, 0, p).outcome == NoInterrupt ==>
      Transfer(s, write, 0, p).at == Try(s, write, AfterTries(s, write, p, 9)).1
  {
    hide Transfer, Attempted, Awaited, AfterTries;
    var k := FirstLoud(s, write, p, TRIES);
    TryOutcomes(s, write, AfterTries(s, write, p, k));
    if k < TRIES {
      TransferIsTries(s, write, 0, p, k);
      assert k < TRIES - 1 ==> !QuietTill(s, write, p, TRIES - 1);
    } else {
      AllQuiet(s, write, 0, p);
      assert Quiet(s, write, AfterTries(s, write, p, TRIES - 1));
      OneMoreTry(s, write, p, TRIES - 1);
    }
  }

  lemma NoTries(s: Schedule, write: bool, p: Progress)
    ensures AfterTries(s, write, p, 0) == p
  {
  }

  lemma OneMoreTry(s: Schedule, write: bool, p: Progress, k: nat)
    ensures AfterTries(s, write, p, k + 1) == Try(s, write, AfterTries(s, write, p, k)).1
  {
    hide Try;
  }

  lemma TryOutcomes(s: Schedule, write: bool, p: Progress)
    ensures Try(s, write, p).0 in {Done, TransferRefused, BusStuck}
  {
    hide FreeAfter;
    AttemptedMeaning(s, p.sends, p.waits, true);
  }

  /** Among the next `left` waits, before any of them times out, one finds that
      the interrupt handler has counted a transfer. */
  ghost predicate Heard(s: Schedule, waits: nat, left: nat) {
    exists k: nat :: waits <= k < waits + left && HeardAt(s, waits, k)
  }

  ghost predicate HeardAt(s: Schedule, waits: nat, k: nat) {
    s.wait(k).transfers > 0 && forall j: nat | waits <= j <= k :: !s.wait(j).timeout
  }

  lemma {:induction false} HeardIff(s: Schedule, waits: nat, left: nat, errors: nat)
    ensures Awaited(s, waits, left, errors).1 > 0 <==> Heard(s, waits, left)
    decreases left
  {
    if left > 0 {
      var w := s.wait(waits);
      HeardIff(s, waits + 1, left - 1, errors + w.errors);
      if !w.timeout && w.transfers > 0 {
        assert HeardAt(s, waits, waits);
      }
      if !w.timeout && Heard(s, waits + 1, left - 1) {
        var k: nat :| waits + 1 <= k < waits + left && HeardAt(s, waits + 1, k);
        assert HeardAt(s, waits, k);
      }
      if Heard(s, waits, left) {
        var k: nat :| waits <= k < waits + left && HeardAt(s, waits, k);
        assert k > waits ==> HeardAt(s, waits + 1, k);
      }
    }
  }

  /** How one try ends, on the schedule. */
  lemma TryOnSchedule(s: Schedule, write: bool, p: Progress)
    ensures var (outcome, sends, waits) := Attempted(s, p.sends, p.waits, true);
      && Try(s, write, p).0 == outcome
      && (outcome == Done ==> (Try(s, write, p).1.interrupts > 0 <==> Heard(s, waits, 10)))
      && (Quiet(s, write, p) <==> outcome == Done && !Heard(s, waits, 10))
  {
    hide Attempted, Awaited, Heard;
    var (outcome, sends, waits) := Attempted(s, p.sends, p.waits, true);
    HeardIff(s, waits, INTERRUPTS, if write then 0 else p.errors);
  }

  /** And when that report is untrue: exactly when, after nine quiet tries, the
      tenth is neither refused nor stuck and a transfer interrupt comes among its
      ten waits, before any of them times out. */
  lemma UntrueReportIff(s: Schedule, write: bool, p: Progress)
    ensures (Transfer(s, write, 0, p).outcome == NoInterrupt && Transfer(s, write, 0, p).at.interrupts > 0)
       <==> (QuietTill(s, write, p, 9) &&
             var last := AfterTries(s, write, p, 9);
             var (outcome, sends, waits) := Attempted(s, last.sends, last.waits, true);
             outcome == Done && Heard(s, waits, 10))
  {
    hide Transfer, Try, AfterTries, Attempted, Heard, QuietTill;
    NoInterruptIff(s, write, p);
    TryOnSchedule(s, write, AfterTries(s, write, p, TRIES - 1));
  }

  /** When a transfer returns normally: one of the first nine tries brings an
      interrupt, those before it are quiet, and a write counts no error in it. */
  lemma DoneIff(s: Schedule, write: bool, p: Progress)
    ensures Transfer(s, write, 0, p).outcome == Done <==>
      exists k | 0 <= k < 9 ::
        var (outcome, q) := Try(s, write, AfterTries(s, write, p, k));
        QuietTill(s, write, p, k) && outcome == Done && q.interrupts > 0 && (write ==> q.errors == 0)
  {
    hide Transfer, Attempted, Awaited, AfterTries, Try;
    var n := FirstLoud(s, write, p, TRIES);
    TryOutcomes(s, write, AfterTries(s, write, p, n));
    if n < TRIES {
      TransferIsTries(s, write, 0, p, n);
    } else {
      AllQuiet(s, write, 0, p);
    }
    forall k | 0 <= k < TRIES - 1 && QuietTill(s, write, p, k) && !Quiet(s, write, AfterTries(s, write, p, k))
      ensures k == n
    {
      FirstIsUnique(s, write, p, k, n);
    }
  }

  lemma FirstIsUnique(s: Schedule, write: bool, p: Progress, k: nat, n: nat)
    requires QuietTill(s, write, p, k) && !Quiet(s, write, AfterTries(s, write, p, k))
    requires QuietTill(s, write, p, n)
    ensures n <= k
    ensures n < TRIES && !Quiet(s, write, AfterTries(s, write, p, n)) ==> k == n
  {
    hide Quiet, AfterTries;
  }

  // ------------------------------------------------------------ was anything sent

  /** Both attempts of the try find the bus busy. */
  predicate BusyTwice(s: Schedule, p: Progress) {
    s.send(p.sends) == BusBusy && s.send(p.sends + 1) == BusBusy
  }

  /** No attempt in a range was accepted. */
  ghost predicate NoneSent(s: Schedule, from: nat, to: nat) {
    forall j | from <= j < to :: s.send(j) != Sent
  }

  lemma TrySends(s: Schedule, write: bool, p: Progress)
    requires Try(s, write, p).0 == Done
    ensures p.sends < Try(s, write, p).1.sends
    ensures NoneSent(s, p.sends, Try(s, write, p).1.sends) <==> BusyTwice(s, p)
  {
    hide FreeAfter, Awaited;
  }

  lemma {:induction false} TriesSend(s: Schedule, write: bool, p: Progress, k: nat)
    requires forall i | 0 <= i < k :: Try(s, write, AfterTries(s, write, p, i)).0 == Done
    ensures p.sends <= AfterTries(s, write, p, k).sends
    ensures NoneSent(s, p.sends, AfterTries(s, write, p, k).sends)
       <==> forall i | 0 <= i < k :: BusyTwice(s, AfterTries(s, write, p, i))
    decreases k
  {
    hide Try, BusyTwice;
    if k > 0 {
      TriesSend(s, write, p, k - 1);
      TrySends(s, write, AfterTries(s, write, p, k - 1));
    }
  }

  /** A transfer that returns normally has sent nothing exactly when in each of
      its tries both attempts find the bus busy. */
  lemma NothingSentIff(s: Schedule, write: bool, p: Progress)
    requires Transfer(s, write, 0, p).outcome == Done
    ensures var r := Transfer(s, write, 0, p);
      NoneSent(s, p.sends, r.at.sends) <==> forall i | 0 <= i < r.rounds :: BusyTwice(s, AfterTries(s, write, p, i))
  {
    hide Transfer, Attempted, Awaited, Try, NoneSent, BusyTwice;
    DoneIff(s, write, p);
    var k :| 0 <= k < TRIES - 1 && QuietTill(s, write, p, k) &&
      Try(s, write, AfterTries(s, write, p, k)).0 == Done && Try(s, write, AfterTries(s, write, p, k)).1.interrupts > 0;
    TransferIsTries(s, write, 0, p, k);
    forall i | 0 <= i < k + 1 ensures Try(s, write, AfterTries(s, write, p, i)).0 == Done {
      assert i < k ==> Quiet(s, write, AfterTries(s, write, p, i));
    }
    TriesSend(s, write, p, k + 1);
    assert AfterTries(s, write, p, k + 1) == Try(s, write, AfterTries(s, write, p, k)).1;
  }

  // ------------------------------------------------------------ schedules that fail

  /** A try that is accepted at once and then times out. */
  lemma TryTimesOut(s: Schedule, write: bool, k: nat)
    requires s.send(k) == Sent && s.wait(k).timeout
    ensures Try(s, write, Progress(k, k, 0, 0)) == (Done, Progress(k + 1, k + 1, 0, 0))
    ensures Quiet(s, write, Progress(k, k, 0, 0))
  {
    hide FreeAfter;
  }

  lemma {:induction false} TriesTimeOut(s: Schedule, write: bool, k: nat)
    requires forall i: nat | i < k :: s.send(i) == Sent && s.wait(i).timeout
    ensures AfterTries(s, write, Progress(0, 0, 0, 0), k) == Progress(k, k, 0, 0)
    ensures QuietTill(s, write, Progress(0, 0, 0, 0), k)
    decreases k
  {
    hide Try, Quiet, AfterTries;
    NoTries(s, write, Progress(0, 0, 0, 0));
    if k > 0 {
      TriesTimeOut(s, write, k - 1);
      TryTimesOut(s, write, k - 1);
      OneMoreTry(s, write, Progress(0, 0, 0, 0), k - 1);
    }
  }

  /** Every attempt is accepted; the first nine waits time out, the tenth brings
      the interrupt. */
  const TENTH := Schedule(k => Sent, k => Wait(k < 9, true, if k == 9 then 1 else 0, 0))

  /** Ten attempts accepted and an interrupt seen, yet none is reported. */
  lemma TenthTryIsLost(write: bool)
    ensures Transfer(TENTH, write, 0, Progress(0, 0, 0, 0)) == Result(NoInterrupt, TRIES, Progress(10, 10, 1, 0))
  {
    var start, k := Progress(0, 0, 0, 0), TRIES - 1;
    forall i: nat | i < k ensures TENTH.send(i) == Sent && TENTH.wait(i).timeout {
    }
    TriesTimeOut(TENTH, write, k);
    assert TENTH.send(k) == Sent && TENTH.wait(k) == Wait(false, true, 1, 0);
    assert Try(TENTH, write, Progress(k, k, 0, 0)) == (Done, Progress(k + 1, k + 1, 1, 0));
    hide Try, Transfer, AfterTries;
    TransferIsTries(TENTH, write, 0, start, k);
  }

  /** Ten attempts are accepted and their waits time out; afterwards the bus is
      busy at every attempt but soon free again, and at wait 12 comes an interrupt. */
  const LATE := Schedule(k => if k < 10 then Sent else BusBusy,
                         k => Wait(k < 10, k >= 10, if k == 12 then 1 else 0, 0))

  /** A first transfer is accepted ten times but times out each time. When its
      interrupt comes at last, a second transfer, whose two attempts find the bus
      busy, takes it for its own. */
  lemma StaleInterrupt(write: bool)
    ensures Transfer(LATE, write, 0, Progress(0, 0, 0, 0)) == Result(NoInterrupt, TRIES, Progress(10, 10, 0, 0))
    ensures Transfer(LATE, write, 0, Progress(10, 10, 0, 0)) == Result(Done, 1, Progress(12, 13, 1, 0))
    ensures NoneSent(LATE, 10, 12)
  {
    var start := Progress(0, 0, 0, 0);
    forall i: nat | i < TRIES ensures LATE.send(i) == Sent && LATE.wait(i).timeout {
    }
    TriesTimeOut(LATE, write, TRIES);
    AllQuiet(LATE, write, 0, start);
    assert LATE.send(10) == LATE.send(11) == BusBusy;
    assert FreeAfter(LATE, 10, INTERRUPTS) == Some(11) && FreeAfter(LATE, 11, INTERRUPTS) == Some(12);
    assert Attempted(LATE, 11, 11, false) == (Done, 12, 12);
    assert Attempted(LATE, 10, 10, true) == (Done, 12, 12);
    assert LATE.wait(12) == Wait(false, true, 1, 0);
    assert Awaited(LATE, 12, INTERRUPTS, 0) == (13, 1, 0);
  }

  // ------------------------------------------------------------ the driver

  class Bus {
    const s: Schedule
    var sends: nat
    var waits: nat
    var interrupts: nat
    var errors: nat

    function Now(): Progress
      reads this
    {
      Progress(sends, waits, interrupts, errors)
    }

    constructor (s: Schedule)
      ensures this.s == s && Now() == Progress(0, 0, 0, 0)
    {
      this.s := s;
      sends, waits, interrupts, errors := 0, 0, 0, 0;
    }

    method WaitForBusNotBusy() returns (stuck: bool)
      modifies `waits
      ensures match FreeAfter(s, old(waits), 10)
        case None => stuck && waits == old(waits) + 10
        case Some(w) => !stuck && waits == w
    {
      var retries := INTERRUPTS;
      while true
        invariant 0 < retries <= INTERRUPTS && waits == old(waits) + (INTERRUPTS - retries)
        invariant FreeAfter(s, old(waits), INTERRUPTS) == FreeAfter(s, waits, retries)
        decreases retries
      {
        var free := s.wait(waits).busFree;
        waits := waits + 1;
        if free {
          break;
        }
        retries := retries - 1;
        if retries == 0 {
          break;
        }
      }
      stuck := retries == 0;
    }

    /** The send loop: one attempt, and another one if the bus was busy. */
    method Attempt() returns (outcome: Outcome)
      modifies `sends, `waits
      ensures (outcome, sends, waits) == Attempted(s, old(sends), old(waits), true)
    {
      var bbRetries: int := 1;
      while true
        invariant 0 <= bbRetries <= 1
        invariant Attempted(s, old(sends), old(waits), true) == Attempted(s, sends, waits, bbRetries == 1)
        decreases bbRetries
      {
        var ret := s.send(sends);
        sends := sends + 1;
        if ret == BusBusy {
          var stuck := WaitForBusNotBusy();
          if stuck {
            return BusStuck;
          }
        } else if ret == Refused {
          return TransferRefused;
        }
        bbRetries := bbRetries - 1;
        if ret != BusBusy || bbRetries < 0 {
          return Done;
        }
      }
    }

    /** The wait loop: until a transfer interrupt, a timeout, or ten interrupts. */
    method AwaitTransfer()
      requires interrupts == 0
      modifies `waits, `interrupts, `errors
      ensures (waits, interrupts, errors) == Awaited(s, old(waits), INTERRUPTS, old(errors))
    {
      hide Awaited;
      var intrRetries := INTERRUPTS;
      while interrupts == 0 && intrRetries > 0
        invariant 0 <= intrRetries <= INTERRUPTS
        invariant Awaited(s, old(waits), INTERRUPTS, old(errors)) ==
          if interrupts > 0 then (waits, interrupts, errors) else Awaited(s, waits, intrRetries, errors)
        decreases intrRetries
      {
        AwaitedStep(s, waits, intrRetries, errors);
        var w := s.wait(waits);
        waits := waits + 1;
        if w.timeout {
          break;
        }
        interrupts := interrupts + w.transfers;
        errors := errors + w.errors;
        intrRetries := intrRetries - 1;
      }
      if interrupts == 0 && intrRetries == 0 {
        AwaitedStep(s, waits, 0, errors);
      }
    }

    /** `driverWriteBlocking`; `rounds` is the number of tries it completed. */
    method DriverWriteBlocking() returns (outcome: Outcome, rounds: nat)
      modifies this
      ensures Result(outcome, rounds, Now()) == Transfer(s, true, 0, old(Now()).(interrupts := 0))
      ensures sends <= old(sends) + 20 && waits <= old(waits) + 300
      ensures outcome == Done ==> SawTransfer(s, Now()) && errors == 0
    {
      TransferBounded(s, true, 0, Now().(interrupts := 0));
      TransferMeaning(s, true, 0, Now().(interrupts := 0));
      var sendRetries := TRIES;
      interrupts := 0;
      while interrupts == 0 && sendRetries > 0
        invariant 0 <= sendRetries <= TRIES
        invariant var n := TRIES - sendRetries;
          Transfer(s, true, 0, old(Now()).(interrupts := 0)) ==
            if interrupts == 0 then Transfer(s, true, n, Now()) else Result(Verdict(true, n, errors), n, Now())
        decreases sendRetries
      {
        errors := 0;
        outcome := Attempt();
        if outcome != Done {
          return outcome, TRIES - sendRetries;
        }
        AwaitTransfer();
        sendRetries := sendRetries - 1;
      }
      rounds := TRIES - sendRetries;
      if sendRetries == 0 {
        return NoInterrupt, rounds;
      }
      if errors > 0 {
        return TransferErrors, rounds;
      }
      return Done, rounds;
    }

    /** `driverReadBlocking`: the same, without the error count. */
    method DriverReadBlocking() returns (outcome: Outcome, rounds: nat)
      modifies this
      ensures Result(outcome, rounds, Now()) == Transfer(s, false, 0, old(Now()).(interrupts := 0))
      ensures sends <= old(sends) + 20 && waits <= old(waits) + 300
      ensures outcome == Done ==> SawTransfer(s, Now())
    {
      TransferBounded(s, false, 0, Now().(interrupts := 0));
      TransferMeaning(s, false, 0, Now().(interrupts := 0));
      var readRetries := TRIES;
      interrupts := 0;
      while interrupts == 0 && readRetries > 0
        invariant 0 <= readRetries <= TRIES
        invariant var n := TRIES - readRetries;
          Transfer(s, false, 0, old(Now()).(interrupts := 0)) ==
            if interrupts == 0 then Transfer(s, false, n, Now()) else Result(Verdict(false, n, errors), n, Now())
        decreases readRetries
      {
        outcome := Attempt();
        if outcome != Done {
          return outcome, TRIES - readRetries;
        }
        AwaitTransfer();
        readRetries := readRetries - 1;
      }
      rounds := TRIES - readRetries;
      if readRetries == 0 {
        return NoInterrupt, rounds;
      }
      return Done, rounds;
    }
  }
}
