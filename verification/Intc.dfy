/** The interrupt controller: two mask registers and a table of polled lines. */
module Intc {

  const MAX_IRQS := 32

  /** A 32-bit word as its bits, the lowest first. */
  type Word = w: seq<bool> | |w| == MAX_IRQS witness seq(MAX_IRQS, _ => false)

  /** `0x00000000` and `0xFFFFFFFF`. */
  function AllBits(b: bool): Word {
    seq(MAX_IRQS, _ => b)
  }

  /** `x | m` */
  function With(x: Word, m: Word): Word {
    seq(MAX_IRQS, i requires 0 <= i < MAX_IRQS => x[i] || m[i])
  }

  /** `x & ~m` */
  function Without(x: Word, m: Word): Word {
    seq(MAX_IRQS, i requires 0 <= i < MAX_IRQS => x[i] && !m[i])
  }

  // ------------------------------------------------------------ the operations

  datatype State = State(ier: Word, imr: Word, polling: seq<bool>)

  datatype Op = Enable(mask: Word, poll: bool) | Disable(mask: Word)

  function Apply(s: State, op: Op, n: nat): State
    requires |s.polling| == MAX_IRQS && n <= MAX_IRQS
  {
    match op
    case Disable(mask) => s.(ier := Without(s.ier, mask))
    case Enable(mask, poll) =>
      State(if poll then Without(s.ier, mask) else With(s.ier, mask),
            if poll then Without(s.imr, mask) else With(s.imr, mask),
            seq(MAX_IRQS, i requires 0 <= i < MAX_IRQS => if i < n && mask[i] then poll else s.polling[i]))
  }

  /** After `init`, with whatever the table happens to hold. */
  function Run(polling: seq<bool>, n: nat, ops: seq<Op>): (s: State)
    requires |polling| == MAX_IRQS && n <= MAX_IRQS
    ensures |s.polling| == MAX_IRQS
    decreases |ops|
  {
    if ops == [] then State(AllBits(false), AllBits(true), polling)
    else Apply(Run(polling, n, ops[..|ops| - 1]), ops[|ops| - 1], n)
  }

  // ------------------------------------------------------------ the history

  /** How line `i` was last enabled, if ever. */
  datatype Mode = Never | Polled | Signalled

  function LastMode(ops: seq<Op>, i: nat): Mode
    requires i < MAX_IRQS
  {
    if ops == [] then Never
    else
      var op := ops[|ops| - 1];
      if op.Enable? && op.mask[i] then (if op.poll then Polled else Signalled)
      else LastMode(ops[..|ops| - 1], i)
  }

  /** The last call about line `i` enabled it without polling. */
  predicate Armed(ops: seq<Op>, i: nat)
    requires i < MAX_IRQS
  {
    ops != [] &&
    var op := ops[|ops| - 1];
    if op.mask[i] then op.Enable? && !op.poll else Armed(ops[..|ops| - 1], i)
  }

  /** Over any sequence of calls, both registers and the table say of each line
      what the calls about that line said last; other lines are not touched. */
  lemma {:induction false} RegistersFollowHistory(polling: seq<bool>, n: nat, ops: seq<Op>, i: nat)
    requires |polling| == 32 && n <= 32 && i < 32
    ensures Run(polling, n, ops).ier[i] <==> Armed(ops, i)
    ensures Run(polling, n, ops).imr[i] <==> LastMode(ops, i) != Polled
    ensures Run(polling, n, ops).polling[i] ==
      if i >= n || LastMode(ops, i) == Never then polling[i] else LastMode(ops, i) == Polled
    decreases |ops|
  {
    if ops != [] {
      RegistersFollowHistory(polling, n, ops[..|ops| - 1], i);
    }
  }

  /** The table agrees with the registers: a line that was enabled is marked as
      polled exactly when its IMR bit is clear, and then its IER bit is clear,
      too. This needs the line to be among the `n` the device reports. */
  lemma {:induction false} PollingAgrees(polling: seq<bool>, n: nat, ops: seq<Op>, i: nat)
    requires |polling| == 32 && i < n <= 32 && LastMode(ops, i) != Never
    ensures var s := Run(polling, n, ops);
      && (s.polling[i] <==> !s.imr[i])
      && (s.polling[i] ==> !s.ier[i])
  {
    RegistersFollowHistory(polling, n, ops, i);
    ArmedIsSignalled(ops, i);
  }

  lemma {:induction false} ArmedIsSignalled(ops: seq<Op>, i: nat)
    requires i < 32
    ensures Armed(ops, i) ==> LastMode(ops, i) == Signalled
  {
    if ops != [] {
      ArmedIsSignalled(ops[..|ops| - 1], i);
    }
  }

  /** Beyond them the table keeps its old entry while the registers change. */
  lemma {:induction false} BeyondReportedLines(polling: seq<bool>, n: nat, i: nat)
    requires |polling| == 32 && n <= i < 32 && !polling[i]
    ensures var s := Run(polling, n, [Enable(AllBits(true), true)]);
      !s.polling[i] && !s.imr[i]
  {
    var ops := [Enable(AllBits(true), true)];
    RegistersFollowHistory(polling, n, ops, i);
    assert LastMode(ops, i) == Polled;
  }

  // ------------------------------------------------------------ the class

  class InterruptController {
    var ier: Word
    var imr: Word
    var numIrqs: nat
    const polling: array<bool>

    ghost predicate Valid()
      reads this
    {
      polling.Length == MAX_IRQS && numIrqs <= MAX_IRQS
    }

    function Now(): State
      reads this, polling
    {
      State(ier, imr, polling[..])
    }

    constructor ()
      ensures Valid() && fresh(polling)
    {
      polling := new bool[MAX_IRQS];
      numIrqs := 0;
    }

    /** The register writes of `init`, for as many lines as the device reports. */
    method Init(lines: nat)
      requires Valid() && lines <= MAX_IRQS
      modifies this
      ensures Valid() && numIrqs == lines && polling[..] == old(polling[..])
      ensures Now() == Run(polling[..], lines, [])
    {
      numIrqs := lines;
      imr := AllBits(false);
      imr := AllBits(true);
      ier := AllBits(false);
    }

    method EnableInterrupt(mask: Word, poll: bool)
      requires Valid()
      modifies this, polling
      ensures Valid() && numIrqs == old(numIrqs)
      ensures Now() == Apply(old(Now()), Enable(mask, poll), numIrqs)
    {
      var oldIer, oldImr := ier, imr;
      for i := 0 to numIrqs
        invariant forall k | 0 <= k < MAX_IRQS ::
          polling[k] == if k < i && mask[k] then poll else old(polling[k])
        modifies polling
      {
        if mask[i] {
          polling[i] := poll;
        }
      }
      if poll {
        imr := Without(oldImr, mask);
        ier := Without(oldIer, mask);
      } else {
        ier := With(oldIer, mask);
        imr := With(oldImr, mask);
      }
    }

    method DisableInterrupt(mask: Word)
      requires Valid()
      modifies `ier
      ensures Valid() && Now() == Apply(old(Now()), Disable(mask), numIrqs)
    {
      ier := Without(ier, mask);
    }
  }
}
