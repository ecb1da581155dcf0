/** What the reader's loop makes of each batch: it formats the samples one by one
    and then prints the buffer. The first text that is too long ends the batch:
    nothing is printed, and what was formatted stays in the buffer. */
module SampleOutput {
  import opened Samples
  import opened StdoutReader

  // ------------------------------------------------------------ one batch

  ghost predicate Printable(batch: seq<string>) {
    forall i | 0 <= i < |batch| :: batch[i] != "" && forall k | 0 <= k < |batch[i]| :: batch[i][k] != NUL
  }

  predicate AllShort(batch: seq<string>, width: nat) {
    forall i | 0 <= i < |batch| :: |batch[i]| <= width
  }

  /** How many samples are formatted: up to the first text that is too long. */
  function Formatted(batch: seq<string>, width: nat): nat
    decreases |batch|
  {
    if batch == [] then 0 else if |batch[0]| > width then 1 else 1 + Formatted(batch[1..], width)
  }

  lemma {:induction false} FormattedIs(batch: seq<string>, width: nat, i: nat)
    requires i <= |batch| && AllShort(batch[..i], width)
    ensures i == |batch| ==> Formatted(batch, width) == i
    ensures i < |batch| ==> i < Formatted(batch, width) <= |batch|
    ensures i < |batch| && |batch[i]| > width ==> Formatted(batch, width) == i + 1
    decreases |batch|
  {
    if i > 0 {
      assert batch[..i][0] == batch[0];
      assert batch[1..][..i - 1] == batch[..i][1..];
      FormattedIs(batch[1..], width, i - 1);
    } else if batch != [] && |batch[0]| <= width {
      FormattedIs(batch[1..], width, 0);
    }
  }

  datatype TurnOutcome = Shown(out: string) | Skipped | Overran

  /** The body of the `try` block. */
  method PrintBatch(f: BufferedSampleFormatter, batch: seq<string>) returns (outcome: TurnOutcome)
    requires f.Valid() && Printable(batch)
    modifies f`currentBufLoc, f`texts, f.buf
    ensures f.Valid()
    ensures outcome.Overran? <==> |old(f.texts)| + Formatted(batch, f.bufSampleSize) > f.bufSamples
    ensures outcome.Shown? ==>
      && AllShort(batch, f.bufSampleSize) && f.texts == []
      && outcome.out == Visible(old(f.texts) + batch, f.bufSampleSize)
    ensures outcome.Skipped? ==>
      var n := Formatted(batch, f.bufSampleSize);
      && !AllShort(batch, f.bufSampleSize) && 0 < n <= |batch|
      && f.texts == old(f.texts) + batch[..n - 1] + [Cropped(batch[n - 1], f.bufSampleSize)]
  {
    assert |f.texts| <= f.bufSamples;
    hide Stores, Visible;
    var width := f.bufSampleSize;
    for i := 0 to |batch|
      invariant f.Valid() && f.texts == old(f.texts) + batch[..i]
      invariant AllShort(batch[..i], width) && |f.texts| <= f.bufSamples
    {
      FormattedIs(batch, width, i);
      var step := f.Format(batch[i]);
      if step.Overrun? {
        return Overran;
      } else if step.Threw? {
        return Skipped;
      }
      assert batch[..i + 1] == batch[..i] + [batch[i]];
    }
    FormattedIs(batch, width, |batch|);
    assert batch[..|batch|] == batch;
    var out := f.Output();
    return Shown(out);
  }

  // ------------------------------------------------------------ many batches

  type Batches = seq<seq<string>>

  /** What is in the buffer after `n` turns, had it room for everything. */
  function Kept(batches: Batches, width: nat, n: nat): seq<string>
    requires n <= |batches|
    decreases n
  {
    if n == 0 || AllShort(batches[n - 1], width) then []
    else Kept(batches, width, n - 1) + Leftover(batches[n - 1], width)
  }

  /** What a batch that is not printed leaves in the buffer. */
  function Leftover(batch: seq<string>, width: nat): seq<string>
    requires !AllShort(batch, width)
  {
    LeftoverIs(batch, width);
    var n := Formatted(batch, width);
    batch[..n - 1] + [Cropped(batch[n - 1], width)]
  }

  lemma {:induction false} LeftoverIs(batch: seq<string>, width: nat)
    requires !AllShort(batch, width)
    ensures 0 < Formatted(batch, width) <= |batch|
    decreases |batch|
  {
    if |batch[0]| <= width {
      var i :| 0 <= i < |batch| && |batch[i]| > width;
      assert batch[1..][i - 1] == batch[i];
      LeftoverIs(batch[1..], width);
    }
  }

  predicate Overflows(batches: Batches, slots: nat, width: nat, r: nat)
    requires r < |batches|
  {
    |Kept(batches, width, r)| + Formatted(batches[r], width) > slots
  }

  /** How turn `r` ends. */
  ghost predicate Ends(batches: Batches, slots: nat, width: nat, r: nat, outcome: TurnOutcome)
    requires r < |batches|
  {
    match outcome
    case Overran => Overflows(batches, slots, width, r)
    case Skipped => !Overflows(batches, slots, width, r) && !AllShort(batches[r], width)
    case Shown(out) =>
      && !Overflows(batches, slots, width, r) && AllShort(batches[r], width)
      && out == Visible(Kept(batches, width, r) + batches[r], width)
  }

  /** The loop of the reader, as far as it concerns the formatter: it goes on
      until a batch overruns the buffer. */
  method PrintAll(f: BufferedSampleFormatter, batches: Batches) returns (outcomes: seq<TurnOutcome>)
    requires f.Valid() && f.texts == [] && forall r | 0 <= r < |batches| :: Printable(batches[r])
    modifies f`currentBufLoc, f`texts, f.buf
    ensures |outcomes| <= |batches|
    ensures forall r | 0 <= r < |outcomes| :: Ends(batches, f.bufSamples, f.bufSampleSize, r, outcomes[r])
    ensures forall r | 0 <= r < |outcomes| && outcomes[r].Overran? :: r == |outcomes| - 1
    ensures |outcomes| < |batches| ==> outcomes != [] && outcomes[|outcomes| - 1].Overran?
  {
    assert Kept(batches, f.bufSampleSize, 0) == [];
    hide Printable, Kept, Ends, BufferedSampleFormatter.Valid;
    outcomes := [];
    for n := 0 to |batches|
      invariant f.Valid() && |outcomes| == n && f.texts == Kept(batches, f.bufSampleSize, n)
      invariant forall r | 0 <= r < n ::
        !outcomes[r].Overran? && Ends(batches, f.bufSamples, f.bufSampleSize, r, outcomes[r])
    {
      var outcome := PrintTurn(f, batches, n);
      outcomes := outcomes + [outcome];
      if outcome.Overran? {
        return;
      }
    }
  }

  method PrintTurn(f: BufferedSampleFormatter, batches: Batches, n: nat) returns (outcome: TurnOutcome)
    requires n < |batches| && f.Valid() && Printable(batches[n]) && f.texts == Kept(batches, f.bufSampleSize, n)
    modifies f`currentBufLoc, f`texts, f.buf
    ensures f.Valid() && Ends(batches, f.bufSamples, f.bufSampleSize, n, outcome)
    ensures !outcome.Overran? ==> f.texts == Kept(batches, f.bufSampleSize, n + 1)
  {
    hide AllShort, Visible, Printable, Formatted, BufferedSampleFormatter.Valid;
    outcome := PrintBatch(f, batches[n]);
  }

  /** The turn after the last one that printed its batch. */
  function SinceOutput(batches: Batches, width: nat, n: nat): (i: nat)
    requires n <= |batches|
    ensures i <= n
    decreases n
  {
    if n == 0 || AllShort(batches[n - 1], width) then n else SinceOutput(batches, width, n - 1)
  }

  /** Samples formatted in the turns from `i` to before `n`. */
  function FormattedIn(batches: Batches, width: nat, i: nat, n: nat): nat
    requires i <= n <= |batches|
    decreases n - i
  {
    if i == n then 0 else FormattedIn(batches, width, i, n - 1) + Formatted(batches[n - 1], width)
  }

  lemma {:induction false} KeptLength(batches: Batches, width: nat, n: nat)
    requires n <= |batches|
    ensures |Kept(batches, width, n)| == FormattedIn(batches, width, SinceOutput(batches, width, n), n)
    decreases n
  {
    hide AllShort, Formatted;
    if n > 0 && !AllShort(batches[n - 1], width) {
      KeptLength(batches, width, n - 1);
      LeftoverIs(batches[n - 1], width);
    }
  }

  /** A turn overruns the buffer exactly when more samples were formatted since
      the last output than there are slots, those of skipped batches included. */
  lemma OverflowsIff(batches: Batches, slots: nat, width: nat, r: nat)
    requires r < |batches|
    ensures Overflows(batches, slots, width, r) <==>
      FormattedIn(batches, width, SinceOutput(batches, width, r), r + 1) > slots
  {
    KeptLength(batches, width, r);
  }

  /** A batch with one text that is too long harms a later one: both have room
      in the buffer by themselves, but the second one overruns it. */
  lemma SkippedThenOverrun(batch: seq<string>, next: seq<string>, slots: nat, width: nat)
    requires !AllShort(batch, width) && Formatted(batch, width) == slots && 0 < Formatted(next, width) <= slots
    ensures !Overflows([batch, next], slots, width, 0) && !Overflows([next], slots, width, 0)
    ensures Overflows([batch, next], slots, width, 1)
  {
    hide AllShort, Formatted;
    assert Kept([batch, next], width, 0) == Kept([next], width, 0) == [];
    KeptLength([batch, next], width, 1);
    assert SinceOutput([batch, next], width, 1) == 0;
    assert FormattedIn([batch, next], width, 0, 0) == 0;
  }

  // ------------------------------------------------------------ the reader's batches

  /** The text of each word of a block. */
  function WordTexts(show: seq<Byte> -> string, bytes: seq<Byte>): (batch: seq<string>)
    ensures |batch| == |bytes| / 4
  {
    seq(|bytes| / 4, i requires 0 <= i < |bytes| / 4 => show(bytes[4 * i..4 * i + 4]))
  }

  /** What the rounds of the reader give the formatter. */
  ghost function RoundTexts(l: Layout, snaps: seq<Memory>, stream: Stream, show: seq<Byte> -> string): (batches: Batches)
    requires |l.base| == 2
    ensures |batches| == |snaps|
    ensures forall r | 0 <= r < |snaps| ::
      batches[r] == WordTexts(show, Printed(l, r % 2, r * l.c.readCoalesce, snaps[r], stream))
  {
    seq(|snaps|, r requires 0 <= r < |snaps| =>
      WordTexts(show, Printed(l, r % 2, r * l.c.readCoalesce, snaps[r], stream)))
  }

  lemma RoundLength(l: Layout, snaps: seq<Memory>, stream: Stream, show: seq<Byte> -> string, r: nat)
    requires |l.base| == 2 && r < |snaps|
    ensures |RoundTexts(l, snaps, stream, show)[r]| == Words(l.c.readCoalesce * |stream(r * l.c.readCoalesce)|)
  {
  }

  /** Where no text is too long, a round overruns the buffer exactly when the
      words of its batch, counted by its first message, outnumber the slots. */
  lemma RoundOverrunsIff(l: Layout, snaps: seq<Memory>, stream: Stream, show: seq<Byte> -> string,
                         slots: nat, width: nat, r: nat)
    requires |l.base| == 2 && r < |snaps| && forall word :: |show(word)| <= width
    ensures Overflows(RoundTexts(l, snaps, stream, show), slots, width, r) <==>
      Words(l.c.readCoalesce * |stream(r * l.c.readCoalesce)|) > slots
  {
    var batches := RoundTexts(l, snaps, stream, show);
    assert forall k | 0 <= k <= r :: AllShort(batches[k], width);
    RoundLength(l, snaps, stream, show, r);
    assert batches[r][..|batches[r]|] == batches[r];
    FormattedIs(batches[r], width, |batches[r]|);
    assert Kept(batches, width, r) == [];
  }
}
