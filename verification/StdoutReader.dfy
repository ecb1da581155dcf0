/** The reader loop: two buffers take turns, one being filled by the hardware
    while the other is formatted. */
module StdoutReader {
  import opened BdRing
  import opened ScatterGather

  type Byte = b: int | 0 <= b < 256

  type Memory = nat -> Byte

  /** The messages that the hardware is going to receive. */
  type Stream = nat -> seq<Byte>

  /** The two blocks, as the DMA engine addresses them. */
  datatype Layout = Layout(c: Config, base: seq<nat>, size: nat) {

    ghost predicate Ok() {
      && |base| == 2 && base[0] > 0 && base[1] > 0
      && 0 < size <= FPGA_DMA_BOUNDARY
      && (base[0] + size <= base[1] || base[1] + size <= base[0])
      && 0 < c.readCoalesce && 0 < c.readMsgSize && c.readCoalesce * c.readMsgSize <= size
      && size % 4 == 0
      && PiecesOk(c, base[0], 0, c.readCoalesce) && PiecesOk(c, base[1], 0, c.readCoalesce)
    }

    /** Where the i-th outstanding message will be put, when the oldest
        outstanding batch belongs to block `b`. */
    function Target(b: nat, i: nat): nat
      requires |base| == 2 && b < 2
    {
      if i < c.readCoalesce then Piece(c, base[b], i) else Piece(c, base[1 - b], i - c.readCoalesce)
    }
  }

  // ------------------------------------------------------------ memory

  function Deposit(mem: Memory, addr: nat, msg: seq<Byte>): Memory {
    (a: nat) => if addr <= a < addr + |msg| then msg[a - addr] else mem(a)
  }

  function Region(mem: Memory, addr: nat, n: nat): seq<Byte> {
    seq(n, k requires 0 <= k => mem(addr + k))
  }

  function Flatten(stream: Stream, from: nat, n: nat): seq<Byte> {
    if n == 0 then [] else Flatten(stream, from, n - 1) + stream(from + n - 1)
  }

  lemma {:induction false} FlattenSplit(stream: Stream, from: nat, n: nat, k: nat)
    ensures Flatten(stream, from, n + k) == Flatten(stream, from, n) + Flatten(stream, from + n, k)
    decreases k
  {
    if k > 0 {
      FlattenSplit(stream, from, n, k - 1);
      assert Flatten(stream, from, n + k) == Flatten(stream, from, n + (k - 1)) + stream(from + n + k - 1);
    }
  }

  /** A batch of full messages, one behind the other in memory, reads back as
      their concatenation. */
  lemma {:induction false} BatchReadsBack(c: Config, mem: Memory, stream: Stream, buf: nat, from: nat, n: nat)
    requires forall i | 0 <= i < n :: Region(mem, Piece(c, buf, i), c.readMsgSize) == stream(from + i)
    ensures Region(mem, buf, n * c.readMsgSize) == Flatten(stream, from, n)
    decreases n
  {
    if n > 0 {
      BatchReadsBack(c, mem, stream, buf, from, n - 1);
      var m, k := c.readMsgSize, (n - 1) * c.readMsgSize;
      assert n * m == k + m;
      assert Region(mem, Piece(c, buf, n - 1), m) == stream(from + (n - 1));
      assert Region(mem, buf, k + m) == Region(mem, buf, k) + Region(mem, buf + k, m);
    }
  }

  /** Block `b` has the same content in both memories. */
  ghost predicate SameBlock(l: Layout, b: nat, mem: Memory, mem': Memory)
    requires |l.base| == 2 && b < 2
  {
    forall a: nat | l.base[b] <= a < l.base[b] + l.size :: mem'(a) == mem(a)
  }

  // ------------------------------------------------------------ descriptors in flight

  /** The hardware queue holds one or two batches, the oldest for block `b`;
      its first descriptor will take message `first`, and all messages before
      `received` have arrived. */
  ghost predicate InFlight(l: Layout, q: seq<Bd>, b: nat, first: nat, received: nat, stream: Stream)
    requires |l.base| == 2
  {
    && b < 2
    && (|q| == l.c.readCoalesce || |q| == 2 * l.c.readCoalesce)
    && first <= received <= first + |q|
    && forall i | 0 <= i < |q| ::
      && q[i].addr == l.Target(b, i) && q[i].length == l.c.readMsgSize && !q[i].failed
      && (q[i].done <==> first + i < received)
      && (q[i].done ==> q[i].actual == |stream(first + i)|)
  }

  /** The messages that have arrived are where their descriptors say. */
  ghost predicate Landed(l: Layout, b: nat, first: nat, received: nat, mem: Memory, stream: Stream)
    requires |l.base| == 2 && b < 2
  {
    forall i | 0 <= i < received - first ::
      Region(mem, l.Target(b, i), |stream(first + i)|) == stream(first + i)
  }

  lemma PiecesApart(c: Config, buf: nat, len: nat, i: nat, j: nat)
    requires c.readCoalesce * c.readMsgSize <= len && i < c.readCoalesce && j < c.readCoalesce && i != j
    ensures Piece(c, buf, i) + c.readMsgSize <= Piece(c, buf, j) || Piece(c, buf, j) + c.readMsgSize <= Piece(c, buf, i)
  {
    if i < j {
      PiecesTile(c, buf, len, i, j);
    } else {
      PiecesTile(c, buf, len, j, i);
    }
  }

  lemma PieceInside(c: Config, buf: nat, len: nat, i: nat)
    requires c.readCoalesce * c.readMsgSize <= len && i < c.readCoalesce
    ensures buf <= Piece(c, buf, i) && Piece(c, buf, i) + c.readMsgSize <= buf + len
  {
    MulLess(i + 1, c.readCoalesce, c.readMsgSize);
    assert (i + 1) * c.readMsgSize == i * c.readMsgSize + c.readMsgSize;
  }

  /** Different outstanding descriptors never share memory. */
  lemma TargetsApart(l: Layout, b: nat, i: nat, j: nat)
    requires l.Ok() && b < 2 && i != j && i < 2 * l.c.readCoalesce && j < 2 * l.c.readCoalesce
    ensures l.Target(b, i) + l.c.readMsgSize <= l.Target(b, j) || l.Target(b, j) + l.c.readMsgSize <= l.Target(b, i)
  {
    var n := l.c.readCoalesce;
    if i < n && j < n {
      PiecesApart(l.c, l.base[b], l.size, i, j);
    } else if i >= n && j >= n {
      PiecesApart(l.c, l.base[1 - b], l.size, i - n, j - n);
    } else {
      TargetInside(l, b, i);
      TargetInside(l, b, j);
    }
  }

  lemma TargetInside(l: Layout, b: nat, i: nat)
    requires l.Ok() && b < 2 && i < 2 * l.c.readCoalesce
    ensures var block := l.base[if i < l.c.readCoalesce then b else 1 - b];
      block <= l.Target(b, i) && l.Target(b, i) + l.c.readMsgSize <= block + l.size
  {
    if i < l.c.readCoalesce {
      PieceInside(l.c, l.base[b], l.size, i);
    } else {
      PieceInside(l.c, l.base[1 - b], l.size, i - l.c.readCoalesce);
    }
  }

  lemma {:induction false} DoneCountIs(q: seq<Bd>, n: nat)
    requires n <= |q| && forall i | 0 <= i < |q| :: q[i].done <==> i < n
    ensures DoneCount(q) == n
  {
    if n > 0 {
      assert q[0].done;
      forall i | 0 <= i < |q[1..]| ensures q[1..][i].done <==> i < n - 1 {
        assert q[1..][i] == q[i + 1];
      }
      DoneCountIs(q[1..], n - 1);
    }
  }

  /** One more message arrives: it lands in its descriptor's piece of memory and
      nowhere else. */
  lemma Receive(l: Layout, q: seq<Bd>, b: nat, first: nat, received: nat, mem: Memory, stream: Stream)
    requires l.Ok() && InFlight(l, q, b, first, received, stream) && received < first + |q|
    requires Landed(l, b, first, received, mem, stream)
    requires forall i :: |stream(i)| <= l.c.readMsgSize
    ensures DoneCount(q) == received - first
    ensures var i := received - first;
      && InFlight(l, q[i := q[i].(done := true, failed := false, actual := |stream(received)|)], b, first, received + 1, stream)
      && Landed(l, b, first, received + 1, Deposit(mem, q[i].addr, stream(received)), stream)
  {
    assert |l.base| == 2;
    hide Piece, Deposit, Region, Landed, Layout.Ok, DoneCount;
    var i := received - first;
    DoneCountIs(q, i);
    OneMoreDone(l, q, b, first, received, stream);
    MessageLands(l, b, first, i, mem, stream);
  }

  lemma OneMoreDone(l: Layout, q: seq<Bd>, b: nat, first: nat, received: nat, stream: Stream)
    requires |l.base| == 2 && InFlight(l, q, b, first, received, stream) && received < first + |q|
    ensures var i := received - first;
      InFlight(l, q[i := q[i].(done := true, failed := false, actual := |stream(received)|)], b, first, received + 1, stream)
  {
    hide Layout.Target;
  }

  lemma MessageLands(l: Layout, b: nat, first: nat, i: nat, mem: Memory, stream: Stream)
    requires l.Ok() && b < 2 && i < 2 * l.c.readCoalesce && Landed(l, b, first, first + i, mem, stream)
    requires forall k :: |stream(k)| <= l.c.readMsgSize
    ensures Landed(l, b, first, first + i + 1, Deposit(mem, l.Target(b, i), stream(first + i)), stream)
  {
    hide Piece;
    var mem' := Deposit(mem, l.Target(b, i), stream(first + i));
    forall j | 0 <= j < i + 1
      ensures Region(mem', l.Target(b, j), |stream(first + j)|) == stream(first + j) {
      if j < i {
        TargetsApart(l, b, i, j);
        assert |stream(first + i)| <= l.c.readMsgSize && |stream(first + j)| <= l.c.readMsgSize;
        assert Region(mem', l.Target(b, j), |stream(first + j)|) == Region(mem, l.Target(b, j), |stream(first + j)|);
      }
    }
  }

  // ------------------------------------------------------------ one ring, two blocks

  /** `batches` batches are out, the oldest belongs to block `b` and starts with
      message `first`; what has arrived is in its place. */
  ghost predicate InStep(l: Layout, r: Ring, mem: Memory, stream: Stream, received: nat,
                         size: nat, b: nat, first: nat, batches: nat)
  {
    && l.Ok() && b < 2 && 1 <= batches <= 2
    && (forall i :: |stream(i)| <= l.c.readMsgSize)
    && Conserved(r, size) && 2 * l.c.readCoalesce <= size
    && |HwBds(r)| == batches * l.c.readCoalesce
    && InFlight(l, HwBds(r), b, first, received, stream)
    && Landed(l, b, first, received, mem, stream)
  }

  lemma StepLands(l: Layout, r: Ring, mem: Memory, stream: Stream, received: nat,
                  size: nat, b: nat, first: nat, batches: nat)
    requires InStep(l, r, mem, stream, received, size, b, first, batches)
    requires received < first + batches * l.c.readCoalesce
    ensures r.Ready() == received - first < |r.hw| && r.hw[r.Ready()] < |r.bds|
    ensures var mem' := Deposit(mem, r.bds[r.hw[r.Ready()]].addr, stream(received));
      && InStep(l, r.Finish(false, |stream(received)|), mem', stream, received + 1, size, b, first, batches)
      && (batches == 1 ==> SameBlock(l, 1 - b, mem, mem'))
  {
    hide Ring.Valid, Ring.Order, InFlight, Landed, Piece, Ring.Finish;
    var q := HwBds(r);
    assert |q| == |r.hw|;
    Receive(l, q, b, first, received, mem, stream);
    HwInRange(r);
    ReadyIsDoneCount(r.bds, r.hw);
    FinishMeaning(r, false, |stream(received)|);
    if batches == 1 {
      LandsInside(l, q, b, first, received, mem, stream, batches);
    }
  }

  lemma LandsInside(l: Layout, q: seq<Bd>, b: nat, first: nat, received: nat, mem: Memory, stream: Stream, batches: nat)
    requires l.Ok() && InFlight(l, q, b, first, received, stream) && |q| == batches * l.c.readCoalesce
    requires received < first + |q| && |stream(received)| <= l.c.readMsgSize && batches == 1
    ensures SameBlock(l, 1 - b, mem, Deposit(mem, q[received - first].addr, stream(received)))
  {
    TargetInside(l, b, received - first);
  }

  /** The free list always has room for the next batch, and the batch goes
      behind the one already out. */
  lemma SubmitInStep(l: Layout, r: Ring, mem: Memory, stream: Stream, received: nat, size: nat, b: nat, first: nat)
    requires InStep(l, r, mem, stream, received, size, b, first, 1)
    ensures var (r', res) := AfterRead(l.c, r, l.base[1 - b], l.size);
      && res == Returned(true)
      && InStep(l, r', mem, stream, received, size, b, first, 2)
      && HwBds(r') == HwBds(r) + Batch(l.c, l.base[1 - b])
  {
    hide Ring.Valid, Ring.Order, SubmitRead, Piece, Landed;
    var base := l.base[1 - b];
    assert |HwBds(r)| == |r.hw|;
    SubmitReadMeaning(l.c, r, base, l.size);
    var q' := HwBds(r) + Batch(l.c, base);
    assert InFlight(l, q', b, first, received, stream);
  }

  /** The block holds the batch that starts with message `first`: each message
      at its piece. */
  ghost predicate Holds(l: Layout, b: nat, first: nat, mem: Memory, stream: Stream)
    requires |l.base| == 2 && b < 2
  {
    forall i | 0 <= i < l.c.readCoalesce ::
      Region(mem, Piece(l.c, l.base[b], i), |stream(first + i)|) == stream(first + i)
  }

  /** Retiring one full batch leaves exactly the other block's batch out, and
      the retired block holds its messages. The byte count goes by the first. */
  lemma CompleteInStep(l: Layout, ch: Channel, mem: Memory, stream: Stream, received: nat,
                       size: nat, b: nat, first: nat, intrs: int)
    requires InStep(l, ch.ring, mem, stream, received, size, b, first, 2)
    requires first + l.c.readCoalesce <= received && intrs >= 0
    ensures var n, (ch', res) := l.c.readCoalesce, CompleteRead(l.c, ch, intrs, true);
      && res == Returned(Completion(n * |stream(first)|, n, intrs)) && ch'.errcnt == ERROR_BUDGET
      && InStep(l, ch'.ring, mem, stream, received, size, 1 - b, first + n, 1)
      && HwBds(ch'.ring) == HwBds(ch.ring)[n..]
      && Holds(l, b, first, mem, stream)
  {
    hide Ring.Valid, Ring.Order, Piece, Retire, Ring.FromHw;
    var q, n := HwBds(ch.ring), l.c.readCoalesce;
    DoneCountIs(q, received - first);
    CompleteReadMeaning(l.c, ch, intrs, true);
    assert q[0].done && q[0].actual == |stream(first)|;
    assert |q| == |ch.ring.hw|;
    ShiftInFlight(l, q, b, first, received, mem, stream);
    FullBatchBudget(l.c, ch, intrs);
    BatchLanded(l, b, first, received, mem, stream);
  }

  lemma FullBatchBudget(c: Config, ch: Channel, intrs: int)
    requires ch.ring.Valid() && intrs >= 0 && DoneCount(HwBds(ch.ring)) >= c.readCoalesce
    ensures CompleteRead(c, ch, intrs, true).0.errcnt == ERROR_BUDGET
  {
    HwInRange(ch.ring);
    ReadyIsDoneCount(ch.ring.bds, ch.ring.hw);
  }

  lemma BatchLanded(l: Layout, b: nat, first: nat, received: nat, mem: Memory, stream: Stream)
    requires l.Ok() && b < 2 && Landed(l, b, first, received, mem, stream)
    requires first + l.c.readCoalesce <= received
    ensures Holds(l, b, first, mem, stream)
  {
    forall i | 0 <= i < l.c.readCoalesce
      ensures Region(mem, Piece(l.c, l.base[b], i), |stream(first + i)|) == stream(first + i) {
      assert l.Target(b, i) == Piece(l.c, l.base[b], i);
    }
  }

  lemma ShiftInFlight(l: Layout, q: seq<Bd>, b: nat, first: nat, received: nat, mem: Memory, stream: Stream)
    requires l.Ok() && |q| == 2 * l.c.readCoalesce && first + l.c.readCoalesce <= received
    requires InFlight(l, q, b, first, received, stream) && Landed(l, b, first, received, mem, stream)
    ensures InFlight(l, q[l.c.readCoalesce..], 1 - b, first + l.c.readCoalesce, received, stream)
    ensures Landed(l, 1 - b, first + l.c.readCoalesce, received, mem, stream)
  {
    assert |l.base| == 2;
    hide Piece, Region, Layout.Ok;
    var n := l.c.readCoalesce;
    forall i | 0 <= i < n ensures q[n..][i] == q[n + i] && l.Target(b, n + i) == l.Target(1 - b, i) {
    }
    var other, from, left := 1 - b, first + n, received - first - n;
    forall i | 0 <= i < left ensures Region(mem, l.Target(other, i), |stream(from + i)|) == stream(from + i) {
      var k := n + i;
      assert l.Target(b, k) == l.Target(other, i);
      assert Region(mem, l.Target(b, k), |stream(first + k)|) == stream(first + k);
    }
  }

  // ------------------------------------------------------------ the loop

  /** How many messages have arrived at moment `i` of round `r`: moment 0 is the
      completion, moment w + 1 the formatting of word w. A full batch is there
      at the completion, and the hardware fills only what it was given. */
  ghost predicate Timely(l: Layout, arrived: (nat, nat) -> nat) {
    forall r: nat, i: nat :: (r + 1) * l.c.readCoalesce <= arrived(r, i) <= (r + 2) * l.c.readCoalesce
  }

  class StdoutReader {
    const l: Layout
    const dma: Dma
    const stream: Stream             // what the hardware is going to receive
    var mem: Memory
    var received: nat                // how much of it has arrived
    var output: seq<Byte>            // what has been formatted

    constructor (l: Layout, dma: Dma, stream: Stream, mem: Memory)
      ensures this.l == l && this.dma == dma && this.stream == stream
      ensures this.mem == mem && received == 0 && output == []
    {
      this.l := l;
      this.dma := dma;
      this.stream := stream;
      this.mem := mem;
      received := 0;
      output := [];
    }

    ghost predicate Outstanding(size: nat, b: nat, first: nat, batches: nat)
      reads `mem, `received, dma
    {
      && dma.c == l.c && dma.tx.ring.Valid()
      && InStep(l, dma.rx.ring, mem, stream, received, size, b, first, batches)
    }

    lemma Facts(size: nat, b: nat, first: nat, batches: nat)
      requires Outstanding(size, b, first, batches)
      ensures l.Ok() && b < 2 && |l.base| == 2 && dma.c == l.c && dma.Valid() && dma.tx.ring.Valid()
      ensures InStep(l, dma.rx.ring, mem, stream, received, size, b, first, batches)
      ensures l.c.readCoalesce * l.c.readMsgSize <= l.size && l.size % 4 == 0
      ensures forall i :: |stream(i)| <= l.c.readMsgSize
    {
    }

    lemma IsOutstanding(size: nat, b: nat, first: nat, batches: nat)
      requires dma.c == l.c && dma.tx.ring.Valid()
      requires InStep(l, dma.rx.ring, mem, stream, received, size, b, first, batches)
      ensures Outstanding(size, b, first, batches)
    {
    }

    /** The hardware runs until `target` messages have arrived. */
    method Hardware(target: nat, ghost size: nat, ghost b: nat, ghost first: nat, ghost batches: nat)
      requires Outstanding(size, b, first, batches)
      requires target <= first + batches * l.c.readCoalesce
      modifies this`mem, this`received, dma`rx
      ensures Outstanding(size, b, first, batches)
      ensures received == if old(received) < target then target else old(received)
      ensures b < 2 && l.Ok() && (batches == 1 ==> SameBlock(l, 1 - b, old(mem), mem))
    {
      hide InStep, Ring.Valid, Ring.Order, Deposit, SameBlock;
      Facts(size, b, first, batches);
      ghost var start := mem;
      SameBlockSelf(l, mem);
      while received < target
        invariant Outstanding(size, b, first, batches)
        invariant old(received) <= received && (received <= target || received == old(received))
        invariant batches == 1 ==> SameBlock(l, 1 - b, start, mem)
      {
        ghost var last := mem;
        StepLands(l, dma.rx.ring, mem, stream, received, size, b, first, batches);
        var slot := dma.rx.ring.hw[dma.rx.ring.Ready()];
        mem := Deposit(mem, dma.rx.ring.bds[slot].addr, stream(received));
        dma.rx := dma.rx.(ring := dma.rx.ring.Finish(false, |stream(received)|));
        received := received + 1;
        if batches == 1 {
          SameBlockTrans(l, 1 - b, start, last, mem);
        }
      }
    }

    /** `dma->read(*block[next], size)` */
    method SubmitNext(cur: nat, ghost size: nat, ghost first: nat)
      requires cur < 2 && Outstanding(size, cur, first, 1)
      modifies dma`rx
      ensures Outstanding(size, cur, first, 2)
    {
      hide *;
      Facts(size, cur, first, 1);
      SubmitInStep(l, dma.rx.ring, mem, stream, received, size, cur, first);
      var accepted := dma.Read(l.base[1 - cur], l.size);
      IsOutstanding(size, cur, first, 2);
    }

    /** `dma->readComplete()` once a full batch is there. */
    method CompleteBatch(cur: nat, intrs: nat, ghost size: nat, ghost first: nat) returns (completion: Completion)
      requires cur < 2 && Outstanding(size, cur, first, 2)
      requires first + l.c.readCoalesce <= received
      modifies dma`rx
      ensures Outstanding(size, 1 - cur, first + l.c.readCoalesce, 1)
      ensures completion == Completion(l.c.readCoalesce * |stream(first)|, l.c.readCoalesce, intrs)
      ensures |l.base| == 2 && Holds(l, cur, first, mem, stream)
    {
      hide *;
      Facts(size, cur, first, 2);
      CompleteInStep(l, dma.rx, mem, stream, received, size, cur, first, intrs);
      var res := dma.ReadComplete(intrs, true);
      completion := res.value;
      IsOutstanding(size, 1 - cur, first + l.c.readCoalesce, 1);
    }

    /** One turn of the loop: submit the other block, complete this one, format
        what was completed. `snap` is the memory at the completion. */
    method Round(cur: nat, intrs: nat, arrived: nat -> nat, ghost size: nat, ghost first: nat)
      returns (ghost snap: Memory)
      requires cur < 2 && Outstanding(size, cur, first, 1)
      requires forall i: nat :: first + l.c.readCoalesce <= arrived(i) <= first + 2 * l.c.readCoalesce
      modifies this`mem, this`received, this`output, dma`rx
      ensures Outstanding(size, 1 - cur, first + l.c.readCoalesce, 1)
      ensures |l.base| == 2 && Holds(l, cur, first, snap, stream)
      ensures output == old(output) + Printed(l, cur, first, snap, stream)
    {
      hide *;
      SubmitNext(cur, size, first);
      Hardware(arrived(0), size, cur, first, 2);
      var completion := CompleteBatch(cur, intrs, size, first);
      snap := mem;
      PrintedIs(l, cur, first, snap, stream);
      Facts(size, 1 - cur, first + l.c.readCoalesce, 1);
      BytesFit(l, |stream(first)|);
      Format(cur, completion.bytes, arrived, size, first + l.c.readCoalesce);
    }

    /** The formatting loop over the completed block `cur`, which the hardware
        no longer owns: the queue holds only the other block's batch, and while
        the hardware goes on filling that one, this one stays as it was. */
    method Format(cur: nat, bytes: nat, arrived: nat -> nat, ghost size: nat, ghost first: nat)
      requires cur < 2 && Outstanding(size, 1 - cur, first, 1)
      requires forall i: nat :: arrived(i) <= first + l.c.readCoalesce
      requires bytes <= l.size
      modifies this`mem, this`received, this`output, dma`rx
      ensures Outstanding(size, 1 - cur, first, 1)
      ensures |l.base| == 2 && SameBlock(l, cur, old(mem), mem)
      ensures output == old(output) + Region(old(mem), l.base[cur], 4 * Words(bytes))
    {
      hide *;
      Facts(size, 1 - cur, first, 1);
      WordsFit(bytes, l.size);
      var i, base := 0, l.base[cur];
      ghost var start := mem;
      SameBlockSelf(l, mem);
      RegionEmpty(mem, base);
      while i * 4 < bytes
        invariant i <= Words(bytes)
        invariant Outstanding(size, 1 - cur, first, 1)
        invariant SameBlock(l, cur, start, mem)
        invariant output == old(output) + Region(start, base, i * 4)
        decreases bytes - i * 4
      {
        ghost var last := mem;
        Hardware(arrived(i + 1), size, 1 - cur, first, 1);
        SameBlockTrans(l, cur, start, last, mem);
        RegionGrows(start, base, i * 4);
        WordsMore(bytes, i);
        SameRegion(l, cur, start, mem, base + i * 4, 4);
        output := output + Region(mem, base + i * 4, 4);
        i := i + 1;
      }
      WordsDone(bytes, i);
    }

    /** The endless loop, stopped after some number of rounds. */
    method Rounds(rounds: nat, intrs: nat -> nat, arrived: (nat, nat) -> nat, ghost size: nat)
      returns (ghost snaps: seq<Memory>)
      requires Timely(l, arrived) && Outstanding(size, 0, 0, 1) && output == []
      modifies this`mem, this`received, this`output, dma`rx
      ensures |l.base| == 2 && |snaps| == rounds && AllHold(l, snaps, stream)
      ensures output == Dump(l, snaps, stream)
      ensures Outstanding(size, rounds % 2, rounds * l.c.readCoalesce, 1)
    {
      hide *;
      var cur, next := 0, 1;
      ghost var first := 0;
      snaps := [];
      Facts(size, 0, 0, 1);
      NoSnaps(l, stream);
      for r := 0 to rounds
        invariant cur == r % 2 && next == 1 - cur && |snaps| == r
        invariant first == r * l.c.readCoalesce
        invariant Outstanding(size, cur, first, 1)
        invariant AllHold(l, snaps, stream) && output == Dump(l, snaps, stream)
      {
        InTime(l, arrived, r, first);
        ghost var snap := Round(cur, intrs(r), i => arrived(r, i), size, first);
        OneMoreSnap(l, snaps, snap, stream);
        snaps := snaps + [snap];
        first := first + l.c.readCoalesce;
        cur := next;
        next := (next + 1) % 2;
      }
    }

    /** `readFromDmaToStdOut` for any number of rounds and messages of any length
        that fit: each round prints its block as it was at the completion, when
        it held the messages of that round. */
    method ReadFromDmaToStdOut(rounds: nat, intrs: nat -> nat, arrived: (nat, nat) -> nat, ghost size: nat)
      returns (ghost snaps: seq<Memory>)
      requires l.Ok() && dma.c == l.c && Timely(l, arrived)
      requires forall i :: |stream(i)| <= l.c.readMsgSize
      requires dma.Valid() && Conserved(dma.rx.ring, size) && HwBds(dma.rx.ring) == []
      requires 2 * l.c.readCoalesce <= size
      requires received == 0 && output == []
      modifies this`mem, this`received, this`output, dma`rx
      ensures |l.base| == 2 && |snaps| == rounds && AllHold(l, snaps, stream)
      ensures output == Dump(l, snaps, stream)
      ensures Outstanding(size, rounds % 2, rounds * l.c.readCoalesce, 1)
      ensures PrintsExactly(l, stream) ==> output == Flatten(stream, 0, rounds * l.c.readCoalesce)
    {
      assert |l.base| == 2 && dma.tx.ring.Valid();
      hide *;
      FirstBatch(l, dma.rx.ring, mem, stream, size);
      var accepted := dma.Read(l.base[0], l.size);
      IsOutstanding(size, 0, 0, 1);
      snaps := Rounds(rounds, intrs, arrived, size);
      if PrintsExactly(l, stream) {
        DumpIsExact(l, snaps, stream);
      }
    }
  }

  // ------------------------------------------------------------ what is printed

  /** The words the formatting loop visits for a byte count. */
  function Words(bytes: nat): nat {
    (bytes + 3) / 4
  }

  lemma WordsFit(bytes: nat, size: nat)
    requires bytes <= size && size % 4 == 0
    ensures 4 * Words(bytes) <= size
  {
  }

  lemma WordsMore(bytes: nat, i: nat)
    requires i * 4 < bytes
    ensures i + 1 <= Words(bytes)
  {
  }

  lemma WordsDone(bytes: nat, i: nat)
    requires i <= Words(bytes) && i * 4 >= bytes
    ensures i * 4 == 4 * Words(bytes)
  {
  }

  lemma BytesFit(l: Layout, len: nat)
    requires len <= l.c.readMsgSize && l.c.readCoalesce * l.c.readMsgSize <= l.size
    ensures l.c.readCoalesce * len <= l.size
  {
    MulLess(len, l.c.readMsgSize, l.c.readCoalesce);
  }

  /** What a round prints, given the memory at its completion. */
  function Printed(l: Layout, b: nat, first: nat, mem: Memory, stream: Stream): seq<Byte>
    requires |l.base| == 2 && b < 2
  {
    Region(mem, l.base[b], 4 * Words(l.c.readCoalesce * |stream(first)|))
  }

  lemma PrintedIs(l: Layout, b: nat, first: nat, mem: Memory, stream: Stream)
    requires |l.base| == 2 && b < 2
    ensures Printed(l, b, first, mem, stream) == Region(mem, l.base[b], 4 * Words(l.c.readCoalesce * |stream(first)|))
  {
  }

  ghost predicate AllHold(l: Layout, snaps: seq<Memory>, stream: Stream)
    requires |l.base| == 2
  {
    forall r | 0 <= r < |snaps| :: Holds(l, r % 2, r * l.c.readCoalesce, snaps[r], stream)
  }

  /** The output of as many rounds as there are snapshots. */
  ghost function Dump(l: Layout, snaps: seq<Memory>, stream: Stream): seq<Byte>
    requires |l.base| == 2
    decreases |snaps|
  {
    if snaps == [] then []
    else
      var r := |snaps| - 1;
      Dump(l, snaps[..r], stream) + Printed(l, r % 2, r * l.c.readCoalesce, snaps[r], stream)
  }

  lemma NoSnaps(l: Layout, stream: Stream)
    requires |l.base| == 2
    ensures AllHold(l, [], stream) && Dump(l, [], stream) == []
  {
  }

  lemma OneMoreSnap(l: Layout, snaps: seq<Memory>, snap: Memory, stream: Stream)
    requires |l.base| == 2 && AllHold(l, snaps, stream)
    requires Holds(l, |snaps| % 2, |snaps| * l.c.readCoalesce, snap, stream)
    ensures AllHold(l, snaps + [snap], stream)
    ensures Dump(l, snaps + [snap], stream) ==
      Dump(l, snaps, stream) + Printed(l, |snaps| % 2, |snaps| * l.c.readCoalesce, snap, stream)
  {
    assert (snaps + [snap])[..|snaps|] == snaps;
  }

  ghost predicate AllLong(stream: Stream, first: nat, n: nat, len: nat) {
    forall m | first <= m < first + n :: |stream(m)| == len
  }

  /** The lengths of the messages of a batch make its printed form exact. */
  ghost predicate Exact(l: Layout, first: nat, stream: Stream) {
    var n := l.c.readCoalesce;
    && n * |stream(first)| % 4 == 0
    && (|| n == 1
        || AllLong(stream, first, n, l.c.readMsgSize)
        || AllLong(stream, first, n, 0))
  }

  ghost predicate PrintsExactly(l: Layout, stream: Stream) {
    forall r: nat :: Exact(l, r * l.c.readCoalesce, stream)
  }

  lemma {:induction false} FlattenNothing(stream: Stream, first: nat, n: nat)
    requires AllLong(stream, first, n, 0)
    ensures Flatten(stream, first, n) == []
    decreases n
  {
    if n > 0 {
      FlattenNothing(stream, first, n - 1);
    }
  }

  lemma ExactPrints(l: Layout, b: nat, first: nat, mem: Memory, stream: Stream)
    requires l.Ok() && b < 2 && Holds(l, b, first, mem, stream) && Exact(l, first, stream)
    ensures Printed(l, b, first, mem, stream) == Flatten(stream, first, l.c.readCoalesce)
  {
    var n := l.c.readCoalesce;
    assert |stream(first + 0)| == |stream(first)|;
    if AllLong(stream, first, n, l.c.readMsgSize) {
      forall i | 0 <= i < n ensures Region(mem, Piece(l.c, l.base[b], i), l.c.readMsgSize) == stream(first + i) {
        assert |stream(first + i)| == l.c.readMsgSize;
      }
      BatchReadsBack(l.c, mem, stream, l.base[b], first, n);
    } else if AllLong(stream, first, n, 0) {
      FlattenNothing(stream, first, n);
    } else {
      assert n == 1 && Piece(l.c, l.base[b], 0) == l.base[b];
      assert Region(mem, Piece(l.c, l.base[b], 0), |stream(first + 0)|) == stream(first + 0);
      assert Flatten(stream, first, 0) == [];
      assert Flatten(stream, first, 1) == Flatten(stream, first, 0) + stream(first);
    }
  }

  lemma {:induction false} FlattenLength(stream: Stream, first: nat, n: nat, len: nat)
    requires forall i :: |stream(i)| <= len
    ensures |Flatten(stream, first, n)| <= n * len
    ensures |Flatten(stream, first, n)| == n * len <==> AllLong(stream, first, n, len)
    ensures |Flatten(stream, first, n)| == 0 <==> AllLong(stream, first, n, 0)
    decreases n
  {
    if n > 0 {
      FlattenLength(stream, first, n - 1, len);
      assert n * len == (n - 1) * len + len;
      assert |stream(first + n - 1)| <= len;
    }
  }

  /** A memory that holds a batch and is filled with `y` elsewhere. */
  ghost function Laid(c: Config, buf: nat, stream: Stream, first: nat, n: nat, y: Byte): Memory
    decreases n
  {
    if n == 0 then (a: nat) => y
    else Deposit(Laid(c, buf, stream, first, n - 1, y), Piece(c, buf, n - 1), stream(first + n - 1))
  }

  lemma {:induction false} LaidHolds(c: Config, buf: nat, stream: Stream, first: nat, n: nat, y: Byte, i: nat)
    requires (forall k :: |stream(k)| <= c.readMsgSize) && i < n
    ensures Region(Laid(c, buf, stream, first, n, y), Piece(c, buf, i), |stream(first + i)|) == stream(first + i)
    decreases n
  {
    if i < n - 1 {
      LaidHolds(c, buf, stream, first, n - 1, y, i);
      MulLess(i + 1, n - 1, c.readMsgSize);
      assert (i + 1) * c.readMsgSize == i * c.readMsgSize + c.readMsgSize;
      assert |stream(first + i)| <= c.readMsgSize;
    }
  }

  lemma {:induction false} LaidElsewhere(c: Config, buf: nat, stream: Stream, first: nat, n: nat, y: Byte, a: nat)
    requires buf + |stream(first)| <= a < buf + c.readMsgSize
    ensures Laid(c, buf, stream, first, n, y)(a) == y
    decreases n
  {
    if n > 0 {
      LaidElsewhere(c, buf, stream, first, n - 1, y, a);
      if n > 1 {
        MulLess(1, n - 1, c.readMsgSize);
      }
    }
  }

  lemma SomeMemoryHolds(l: Layout, b: nat, first: nat, stream: Stream, y: Byte)
    requires l.Ok() && b < 2 && forall k :: |stream(k)| <= l.c.readMsgSize
    ensures Holds(l, b, first, Laid(l.c, l.base[b], stream, first, l.c.readCoalesce, y), stream)
  {
    forall i | 0 <= i < l.c.readCoalesce
      ensures Region(Laid(l.c, l.base[b], stream, first, l.c.readCoalesce, y), Piece(l.c, l.base[b], i), |stream(first + i)|)
        == stream(first + i)
    {
      LaidHolds(l.c, l.base[b], stream, first, l.c.readCoalesce, y, i);
    }
  }

  /** The bytes a round prints are those of its messages, whatever else is in the
      block, exactly when they fill whole words and the batch is a single message,
      or all messages are full, or all are empty. */
  lemma ExactIff(l: Layout, b: nat, first: nat, stream: Stream)
    requires l.Ok() && b < 2 && forall k :: |stream(k)| <= l.c.readMsgSize
    ensures (forall mem | Holds(l, b, first, mem, stream) ::
               Printed(l, b, first, mem, stream) == Flatten(stream, first, l.c.readCoalesce))
       <==> Exact(l, first, stream)
  {
    hide Holds, Flatten, Laid;
    if Exact(l, first, stream) {
      forall mem | Holds(l, b, first, mem, stream)
        ensures Printed(l, b, first, mem, stream) == Flatten(stream, first, l.c.readCoalesce)
      {
        ExactPrints(l, b, first, mem, stream);
      }
    }
    if forall mem | Holds(l, b, first, mem, stream) ::
        Printed(l, b, first, mem, stream) == Flatten(stream, first, l.c.readCoalesce) {
      var text := Flatten(stream, first, l.c.readCoalesce);
      forall y ensures Reproduces(l, b, first, stream, y) {
        SomeMemoryHolds(l, b, first, stream, y);
        var mem := Laid(l.c, l.base[b], stream, first, l.c.readCoalesce, y);
        assert Printed(l, b, first, mem, stream) == text;
      }
      OnlyExact(l, b, first, stream);
    }
  }

  /** The batch is printed exactly out of a block that is otherwise full of `y`. */
  ghost predicate Reproduces(l: Layout, b: nat, first: nat, stream: Stream, y: Byte)
    requires |l.base| == 2 && b < 2
  {
    Printed(l, b, first, Laid(l.c, l.base[b], stream, first, l.c.readCoalesce, y), stream)
      == Flatten(stream, first, l.c.readCoalesce)
  }

  lemma OnlyExact(l: Layout, b: nat, first: nat, stream: Stream)
    requires l.Ok() && b < 2 && forall k :: |stream(k)| <= l.c.readMsgSize
    requires forall y :: Reproduces(l, b, first, stream, y)
    ensures Exact(l, first, stream)
  {
    var n, s, m := l.c.readCoalesce, |stream(first)|, l.c.readMsgSize;
    assert |l.base| == 2 && 0 < n && 0 < m && s <= m;
    assert Reproduces(l, b, first, stream, 0) && Reproduces(l, b, first, stream, 1);
    hide Flatten, Laid, Layout.Ok, Region, Printed, Reproduces, AllLong, Words;
    PrintsWholeWords(l, b, first, stream, 0);
    FlattenLength(stream, first, n, m);
    MulLess(1, n, s);
    if n == 1 {
      FlattenOne(stream, first);
    } else if 0 < s < m {
      MulLess(2, n, s);
      GapShows(l, b, first, stream, 0);
      GapShows(l, b, first, stream, 1);
    } else {
      assert n * s == if s == 0 then 0 else n * m;
    }
  }

  lemma PrintsWholeWords(l: Layout, b: nat, first: nat, stream: Stream, y: Byte)
    requires |l.base| == 2 && b < 2 && Reproduces(l, b, first, stream, y)
    ensures var n, bytes := l.c.readCoalesce, l.c.readCoalesce * |stream(first)|;
      |Flatten(stream, first, n)| >= bytes && (|Flatten(stream, first, n)| == bytes <==> bytes % 4 == 0)
      && (bytes == 0 ==> |Flatten(stream, first, n)| == 0)
  {
    hide Flatten, Laid;
  }

  lemma FlattenOne(stream: Stream, first: nat)
    ensures Flatten(stream, first, 1) == stream(first)
  {
    assert Flatten(stream, first, 0) == [];
  }

  /** Between a first message that is short and the second, the rest shows. */
  lemma GapShows(l: Layout, b: nat, first: nat, stream: Stream, y: Byte)
    requires |l.base| == 2 && b < 2 && |stream(first)| < l.c.readMsgSize
    requires |stream(first)| < l.c.readCoalesce * |stream(first)| && Reproduces(l, b, first, stream, y)
    ensures |Flatten(stream, first, l.c.readCoalesce)| > |stream(first)|
    ensures Flatten(stream, first, l.c.readCoalesce)[|stream(first)|] == y
  {
    hide Laid;
    var mem := Laid(l.c, l.base[b], stream, first, l.c.readCoalesce, y);
    LaidElsewhere(l.c, l.base[b], stream, first, l.c.readCoalesce, y, l.base[b] + |stream(first)|);
    assert Printed(l, b, first, mem, stream)[|stream(first)|] == mem(l.base[b] + |stream(first)|);
  }

  lemma LastHolds(l: Layout, snaps: seq<Memory>, stream: Stream, r: nat)
    requires |l.base| == 2 && |snaps| == r + 1 && AllHold(l, snaps, stream)
    ensures AllHold(l, snaps[..r], stream) && Holds(l, r % 2, r * l.c.readCoalesce, snaps[r], stream)
  {
  }

  lemma ExactAt(l: Layout, stream: Stream, r: nat)
    requires PrintsExactly(l, stream)
    ensures Exact(l, r * l.c.readCoalesce, stream)
  {
  }

  lemma NextRound(r: nat, n: nat)
    ensures r * n + n == (r + 1) * n
  {
  }

  /** Rounds that print exactly print the whole stream. */
  lemma {:induction false} DumpIsExact(l: Layout, snaps: seq<Memory>, stream: Stream)
    requires l.Ok() && AllHold(l, snaps, stream) && PrintsExactly(l, stream)
    ensures Dump(l, snaps, stream) == Flatten(stream, 0, |snaps| * l.c.readCoalesce)
    decreases |snaps|
  {
    hide Exact, Flatten, Printed, Holds, AllHold, PrintsExactly;
    if snaps == [] {
      FlattenNothing(stream, 0, 0);
    } else {
      var r, n := |snaps| - 1, l.c.readCoalesce;
      LastHolds(l, snaps, stream, r);
      DumpIsExact(l, snaps[..r], stream);
      hide Layout.Ok;
      ExactAt(l, stream, r);
      ExactPrints(l, r % 2, r * n, snaps[r], stream);
      FlattenSplit(stream, 0, r * n, n);
      NextRound(r, n);
    }
  }

  lemma SameBlockSelf(l: Layout, mem: Memory)
    requires |l.base| == 2
    ensures SameBlock(l, 0, mem, mem) && SameBlock(l, 1, mem, mem)
  {
  }

  lemma SameBlockTrans(l: Layout, b: nat, m1: Memory, m2: Memory, m3: Memory)
    requires |l.base| == 2 && b < 2 && SameBlock(l, b, m1, m2) && SameBlock(l, b, m2, m3)
    ensures SameBlock(l, b, m1, m3)
  {
  }

  lemma RegionEmpty(mem: Memory, addr: nat)
    ensures Region(mem, addr, 0) == []
  {
  }

  lemma InTime(l: Layout, arrived: (nat, nat) -> nat, r: nat, first: nat)
    requires Timely(l, arrived) && first == r * l.c.readCoalesce
    ensures forall i: nat :: first + l.c.readCoalesce <= arrived(r, i) <= first + 2 * l.c.readCoalesce
    ensures first + l.c.readCoalesce == (r + 1) * l.c.readCoalesce
  {
    forall i: nat ensures first + l.c.readCoalesce <= arrived(r, i) <= first + 2 * l.c.readCoalesce {
      assert (r + 1) * l.c.readCoalesce <= arrived(r, i) <= (r + 2) * l.c.readCoalesce;
    }
  }

  lemma SameRegion(l: Layout, b: nat, mem: Memory, mem': Memory, addr: nat, n: nat)
    requires |l.base| == 2 && b < 2 && SameBlock(l, b, mem, mem')
    requires l.base[b] <= addr && addr + n <= l.base[b] + l.size
    ensures Region(mem', addr, n) == Region(mem, addr, n)
  {
  }

  lemma RegionGrows(mem: Memory, addr: nat, n: nat)
    ensures Region(mem, addr, n + 4) == Region(mem, addr, n) + Region(mem, addr + n, 4)
  {
  }

  /** The read before the loop, into the first block. */
  lemma FirstBatch(l: Layout, r: Ring, mem: Memory, stream: Stream, size: nat)
    requires l.Ok() && Conserved(r, size) && HwBds(r) == [] && 2 * l.c.readCoalesce <= size
    requires forall i :: |stream(i)| <= l.c.readMsgSize
    ensures AfterRead(l.c, r, l.base[0], l.size).1 == Returned(true)
    ensures InStep(l, AfterRead(l.c, r, l.base[0], l.size).0, mem, stream, 0, size, 0, 0, 1)
  {
    hide Ring.Valid, Ring.Order, SubmitRead, Piece, Landed;
    assert |HwBds(r)| == |r.hw|;
    SubmitReadMeaning(l.c, r, l.base[0], l.size);
    assert HwBds(r) + Batch(l.c, l.base[0]) == Batch(l.c, l.base[0]);
    NothingLanded(l, mem, stream);
  }

  lemma NothingLanded(l: Layout, mem: Memory, stream: Stream)
    requires l.Ok()
    ensures Landed(l, 0, 0, 0, mem, stream)
  {
  }

  // ------------------------------------------------------------ when it goes wrong

  /** Which block each outstanding descriptor belongs to. */
  function Blocks(q: seq<Bd>): seq<nat> {
    seq(|q|, i requires 0 <= i < |q| => q[i].id)
  }

  function Repeat(n: nat, x: nat): seq<nat> {
    seq(n, _ => x)
  }

  /** The blocks in the hardware queue just before the completion of round `r`,
      if the completions so far took back `retired[0]`, `retired[1]`, ... */
  function QueueBefore(n: nat, base: seq<nat>, retired: seq<nat>, r: nat): seq<nat>
    requires |base| == 2 && r <= |retired|
    decreases r
  {
    if r == 0 then Repeat(n, base[0]) + Repeat(n, base[1])
    else
      var q := QueueBefore(n, base, retired, r - 1);
      (if retired[r - 1] <= |q| then q[retired[r - 1]..] else []) + Repeat(n, base[(r + 1) % 2])
  }

  ghost predicate InTurn(n: nat, base: seq<nat>, retired: seq<nat>, r: nat)
    requires |base| == 2 && r <= |retired|
  {
    QueueBefore(n, base, retired, r) == Repeat(n, base[r % 2]) + Repeat(n, base[(r + 1) % 2])
  }

  /** The two blocks keep taking turns exactly as long as every completion takes
      back one full batch. */
  lemma {:induction false} TurnsIffFullBatches(n: nat, base: seq<nat>, retired: seq<nat>, rounds: nat)
    requires n > 0 && |base| == 2 && rounds <= |retired|
    ensures (forall r | 0 <= r <= rounds :: InTurn(n, base, retired, r))
       <==> (forall r | 0 <= r < rounds :: retired[r] == n)
    decreases rounds
  {
    if rounds > 0 {
      var last := rounds - 1;
      TurnsIffFullBatches(n, base, retired, last);
      if forall r | 0 <= r <= last :: InTurn(n, base, retired, r) {
        assert InTurn(n, base, retired, last);
        var q := QueueBefore(n, base, retired, last);
        assert q[n..] == Repeat(n, base[rounds % 2]);
        if InTurn(n, base, retired, rounds) {
          assert |QueueBefore(n, base, retired, rounds)| == 2 * n;
          assert retired[last] == n;
        }
      }
    }
  }

  /** The driver calls act on the blocks in the queue as `QueueBefore` says: an
      accepted read appends one batch of its block ... */
  lemma ReadAppendsBlock(c: Config, r: Ring, buf: nat, len: nat)
    requires r.Valid() && r.Settled() && 0 < len <= FPGA_DMA_BOUNDARY
    requires AfterRead(c, r, buf, len).1 == Returned(true)
    ensures AfterRead(c, r, buf, len).0.Valid()
    ensures Blocks(HwBds(AfterRead(c, r, buf, len).0)) == Blocks(HwBds(r)) + Repeat(c.readCoalesce, buf)
  {
    hide SubmitRead, Ring.Valid;
    SubmitReadMeaning(c, r, buf, len);
    assert Blocks(HwBds(r) + Batch(c, buf)) == Blocks(HwBds(r)) + Repeat(c.readCoalesce, buf);
  }

  /** ... and a completion, however it ends, drops some from the front. */
  lemma CompletionDropsBlocks(c: Config, ch: Channel, intrs: int, ioc: bool)
    requires ch.ring.Valid() && ch.ring.Settled()
    ensures CompleteRead(c, ch, intrs, ioc).0.ring.Valid()
    ensures var q, q' := HwBds(ch.ring), HwBds(CompleteRead(c, ch, intrs, ioc).0.ring);
      |q'| <= |q| && Blocks(q') == Blocks(q)[|q| - |q'|..]
  {
    hide CompleteRead, Ring.Valid;
    CompleteReadMeaning(c, ch, intrs, ioc);
  }

  // ------------------------------------------------------------ runs of the driver

  /** A hardware step, with any status and any number of bytes. */
  datatype Hw = Hw(failed: bool, actual: nat)

  function Work(r: Ring, steps: seq<Hw>): Ring
    decreases |steps|
  {
    if steps == [] then r else Work(r.Finish(steps[0].failed, steps[0].actual), steps[1..])
  }

  /** Every descriptor points into the block it was submitted for. */
  ghost predicate Aimed(l: Layout, q: seq<Bd>) {
    forall i | 0 <= i < |q| :: q[i].id <= q[i].addr && q[i].addr + q[i].length <= q[i].id + l.size
  }

  lemma {:induction false} WorkKeeps(l: Layout, r: Ring, steps: seq<Hw>, size: nat)
    requires Conserved(r, size)
    ensures Conserved(Work(r, steps), size) && Work(r, steps).hw == r.hw
    ensures Blocks(HwBds(Work(r, steps))) == Blocks(HwBds(r))
    ensures Aimed(l, HwBds(r)) ==> Aimed(l, HwBds(Work(r, steps)))
    decreases |steps|
  {
    if steps != [] {
      FinishAims(l, r, steps[0].failed, steps[0].actual, size);
      WorkKeeps(l, r.Finish(steps[0].failed, steps[0].actual), steps[1..], size);
    }
  }

  lemma FinishAims(l: Layout, r: Ring, failed: bool, actual: nat, size: nat)
    requires Conserved(r, size)
    ensures Conserved(r.Finish(failed, actual), size) && r.Finish(failed, actual).hw == r.hw
    ensures Blocks(HwBds(r.Finish(failed, actual))) == Blocks(HwBds(r))
    ensures Aimed(l, HwBds(r)) ==> Aimed(l, HwBds(r.Finish(failed, actual)))
  {
    hide Ring.Valid, Ring.Order;
    HwInRange(r);
    ReadyIsDoneCount(r.bds, r.hw);
    if DoneCount(HwBds(r)) < |r.hw| {
      hide Ring.Finish, HwBds;
      FinishMeaning(r, failed, actual);
    }
  }

  /** One turn of the reader: what the hardware does while the last block is
      formatted and while the completion waits, and how that wait ends. */
  datatype Turn = Turn(formatting: seq<Hw>, waiting: seq<Hw>, intrs: int, ioc: bool)

  /** The channel when entering each turn, and just before its completion. */
  datatype Run = Run(turns: seq<Turn>, entering: seq<Channel>, at: seq<Channel>)

  ghost predicate FirstRead(l: Layout, start: Channel, entering: Channel)
    requires |l.base| == 2
  {
    && start.ring.Valid()
    && AfterRead(l.c, start.ring, l.base[0], l.size) == (entering.ring, Returned(true))
  }

  ghost predicate Reads(l: Layout, r: nat, entering: Channel, t: Turn, at: Channel)
    requires |l.base| == 2
  {
    var ring := Work(entering.ring, t.formatting);
    && ring.Valid()
    && AfterRead(l.c, ring, l.base[(r + 1) % 2], l.size).1 == Returned(true)
    && at.ring == Work(AfterRead(l.c, ring, l.base[(r + 1) % 2], l.size).0, t.waiting)
  }

  ghost predicate Returns(l: Layout, at: Channel, t: Turn, next: Channel) {
    at.ring.Valid() && CompleteRead(l.c, at, t.intrs, t.ioc).0 == next && CompleteRead(l.c, at, t.intrs, t.ioc).1.Returned?
  }

  /** A run of the reader in which no call of the driver throws. */
  ghost predicate DriverRun(l: Layout, start: Channel, run: Run)
    requires |l.base| == 2
  {
    && |run.turns| == |run.entering| == |run.at| > 0
    && FirstRead(l, start, run.entering[0])
    && (forall r | 0 <= r < |run.at| :: Reads(l, r, run.entering[r], run.turns[r], run.at[r]))
    && (forall r | 0 < r < |run.at| :: Returns(l, run.at[r - 1], run.turns[r - 1], run.entering[r]))
  }

  /** How many descriptors each completion took back. */
  function TakenBack(run: Run): seq<nat>
    requires |run.entering| == |run.at| > 0
  {
    seq(|run.at| - 1, r requires 0 <= r < |run.at| - 1 =>
      var before, after := |run.at[r].ring.hw|, |run.entering[r + 1].ring.hw|;
      if after <= before then before - after else 0)
  }

  lemma ReadAims(l: Layout, b: nat, r: Ring, size: nat)
    requires l.Ok() && b < 2 && Conserved(r, size) && Aimed(l, HwBds(r))
    requires AfterRead(l.c, r, l.base[b], l.size).1 == Returned(true)
    ensures var r' := AfterRead(l.c, r, l.base[b], l.size).0;
      && Conserved(r', size) && Aimed(l, HwBds(r'))
      && Blocks(HwBds(r')) == Blocks(HwBds(r)) + Repeat(l.c.readCoalesce, l.base[b])
  {
    hide SubmitRead, Ring.Valid, Ring.Order, Piece;
    SubmitReadMeaning(l.c, r, l.base[b], l.size);
    ReadAppendsBlock(l.c, r, l.base[b], l.size);
    SettledSize(AfterRead(l.c, r, l.base[b], l.size).0);
    var q := HwBds(r);
    var q' := q + Batch(l.c, l.base[b]);
    forall i | 0 <= i < |q'| ensures q'[i].id <= q'[i].addr && q'[i].addr + q'[i].length <= q'[i].id + l.size {
      if i >= |q| {
        PieceInside(l.c, l.base[b], l.size, i - |q|);
      }
    }
  }

  lemma CompletionAims(l: Layout, ch: Channel, intrs: int, ioc: bool, size: nat)
    requires Conserved(ch.ring, size) && Aimed(l, HwBds(ch.ring))
    requires CompleteRead(l.c, ch, intrs, ioc).1.Returned?
    ensures var r, r' := ch.ring, CompleteRead(l.c, ch, intrs, ioc).0.ring;
      && Conserved(r', size) && Aimed(l, HwBds(r')) && |r'.hw| <= |r.hw|
      && Blocks(HwBds(r')) == Blocks(HwBds(r))[|r.hw| - |r'.hw|..]
  {
    hide CompleteRead, Ring.Valid, Ring.Order, HwBds;
    CompleteReadMeaning(l.c, ch, intrs, ioc);
    SettledSize(CompleteRead(l.c, ch, intrs, ioc).0.ring);
    HwBdsLength(ch.ring);
  }

  lemma HwBdsLength(r: Ring)
    requires r.Valid()
    ensures |HwBds(r)| == |r.hw|
  {
  }

  /** The hardware owns one descriptor for each entry of `blocks`, in order and
      pointing into that block; the rest of the ring is free. */
  ghost predicate Queues(l: Layout, r: Ring, size: nat, blocks: seq<nat>) {
    Conserved(r, size) && Aimed(l, HwBds(r)) && Blocks(HwBds(r)) == blocks
  }

  lemma QueuesFacts(l: Layout, r: Ring, size: nat, blocks: seq<nat>)
    requires Queues(l, r, size, blocks)
    ensures r.Valid() && |blocks| == |r.hw|
  {
  }

  lemma QueuesNothing(l: Layout, r: Ring, size: nat)
    requires Conserved(r, size) && HwBds(r) == []
    ensures Queues(l, r, size, [])
  {
  }

  lemma QueuesWork(l: Layout, r: Ring, steps: seq<Hw>, size: nat, blocks: seq<nat>)
    requires Queues(l, r, size, blocks)
    ensures Queues(l, Work(r, steps), size, blocks)
  {
    WorkKeeps(l, r, steps, size);
  }

  lemma QueuesRead(l: Layout, b: nat, r: Ring, size: nat, blocks: seq<nat>)
    requires l.Ok() && b < 2 && Queues(l, r, size, blocks)
    requires r.Valid() && AfterRead(l.c, r, l.base[b], l.size).1 == Returned(true)
    ensures Queues(l, AfterRead(l.c, r, l.base[b], l.size).0, size, blocks + Repeat(l.c.readCoalesce, l.base[b]))
  {
    ReadAims(l, b, r, size);
  }

  lemma QueuesCompletion(l: Layout, ch: Channel, intrs: int, ioc: bool, size: nat, blocks: seq<nat>)
    requires Queues(l, ch.ring, size, blocks) && CompleteRead(l.c, ch, intrs, ioc).1.Returned?
    ensures var r, r' := ch.ring, CompleteRead(l.c, ch, intrs, ioc).0.ring;
      && |r'.hw| <= |r.hw| == |blocks|
      && Queues(l, r', size, blocks[|r.hw| - |r'.hw|..])
  {
    CompletionAims(l, ch, intrs, ioc, size);
  }

  /** The two reads of a turn and the work around them. */
  lemma QueuesTurn(l: Layout, r: nat, entering: Channel, t: Turn, at: Channel, size: nat, blocks: seq<nat>)
    requires l.Ok() && Reads(l, r, entering, t, at) && Queues(l, entering.ring, size, blocks)
    ensures Queues(l, at.ring, size, blocks + Repeat(l.c.readCoalesce, l.base[(r + 1) % 2]))
  {
    hide Queues, Work, AfterRead, Repeat;
    QueuesWork(l, entering.ring, t.formatting, size, blocks);
    var ring := Work(entering.ring, t.formatting);
    QueuesRead(l, (r + 1) % 2, ring, size, blocks);
    QueuesWork(l, AfterRead(l.c, ring, l.base[(r + 1) % 2], l.size).0, t.waiting, size,
      blocks + Repeat(l.c.readCoalesce, l.base[(r + 1) % 2]));
  }

  lemma RunShape(l: Layout, start: Channel, run: Run)
    requires l.Ok() && DriverRun(l, start, run)
    ensures |l.base| == 2 && |run.turns| == |run.entering| == |run.at| > 0
  {
  }

  lemma RunStep(l: Layout, start: Channel, run: Run, r: nat)
    requires |l.base| == 2 && DriverRun(l, start, run) && r < |run.at|
    ensures Reads(l, r, run.entering[r], run.turns[r], run.at[r])
    ensures r == 0 ==> FirstRead(l, start, run.entering[0])
    ensures r > 0 ==> Returns(l, run.at[r - 1], run.turns[r - 1], run.entering[r])
  {
    hide Reads, FirstRead, Returns;
  }

  lemma RunTakes(run: Run, r: nat)
    requires |run.entering| == |run.at| && r < |run.at|
    ensures |TakenBack(run)| >= r
    ensures r > 0 && |run.entering[r].ring.hw| <= |run.at[r - 1].ring.hw| ==>
      TakenBack(run)[r - 1] == |run.at[r - 1].ring.hw| - |run.entering[r].ring.hw|
  {
  }

  /** Whatever the hardware does, and however many descriptors each completion
      takes back: just before completion `r` the hardware queue holds the blocks
      that `QueueBefore` says. */
  lemma {:induction false} RunQueue(l: Layout, start: Channel, run: Run, size: nat, r: nat)
    requires l.Ok() && Conserved(start.ring, size) && HwBds(start.ring) == []
    requires DriverRun(l, start, run) && r < |run.at|
    ensures Queues(l, run.at[r].ring, size, QueueBefore(l.c.readCoalesce, l.base, TakenBack(run), r))
    decreases r
  {
    hide *;
    RunShape(l, start, run);
    RunStep(l, start, run, r);
    RunTakes(run, r);
    var entering, n, taken := run.entering[r], l.c.readCoalesce, TakenBack(run);
    QueueBeforeStep(n, l.base, taken, r);
    if r == 0 {
      QueuesNothing(l, start.ring, size);
      RunStart(l, start, entering, size);
      QueuesTurn(l, r, entering, run.turns[r], run.at[r], size, Repeat(n, l.base[0]));
    } else {
      RunQueue(l, start, run, size, r - 1);
      RunReturn(l, run.at[r - 1], run.turns[r - 1], entering, size, QueueBefore(n, l.base, taken, r - 1));
      QueuesTurn(l, r, entering, run.turns[r], run.at[r], size, QueueBefore(n, l.base, taken, r - 1)[taken[r - 1]..]);
    }
  }

  lemma RunStart(l: Layout, start: Channel, entering: Channel, size: nat)
    requires l.Ok() && Queues(l, start.ring, size, []) && FirstRead(l, start, entering)
    ensures Queues(l, entering.ring, size, Repeat(l.c.readCoalesce, l.base[0]))
  {
    hide Queues, AfterRead;
    QueuesRead(l, 0, start.ring, size, []);
    assert [] + Repeat(l.c.readCoalesce, l.base[0]) == Repeat(l.c.readCoalesce, l.base[0]);
  }

  lemma RunReturn(l: Layout, last: Channel, t: Turn, entering: Channel, size: nat, blocks: seq<nat>)
    requires Queues(l, last.ring, size, blocks) && Returns(l, last, t, entering)
    ensures |entering.ring.hw| <= |last.ring.hw| == |blocks|
    ensures Queues(l, entering.ring, size, blocks[|last.ring.hw| - |entering.ring.hw|..])
  {
    hide Queues, CompleteRead;
    QueuesCompletion(l, last, t.intrs, t.ioc, size, blocks);
  }

  lemma QueueBeforeStep(n: nat, base: seq<nat>, retired: seq<nat>, r: nat)
    requires |base| == 2 && r <= |retired|
    ensures QueueBefore(n, base, retired, r) ==
      if r == 0 then Repeat(n, base[0]) + Repeat(n, base[1])
      else
        var q := QueueBefore(n, base, retired, r - 1);
        (if retired[r - 1] <= |q| then q[retired[r - 1]..] else []) + Repeat(n, base[(r + 1) % 2])
  {
  }

  /** The first `k` descriptors of the queue are done, no other is, none failed. */
  ghost predicate DoneUpTo(q: seq<Bd>, k: nat) {
    k <= |q| && forall i | 0 <= i < |q| :: (q[i].done <==> i < k) && !q[i].failed
  }

  lemma {:induction false} WorkFinishes(r: Ring, size: nat, k: nat, n: nat)
    requires Conserved(r, size) && DoneUpTo(HwBds(r), k) && k + n <= |r.hw|
    ensures Conserved(Work(r, seq(n, _ => Hw(false, 0))), size)
    ensures Work(r, seq(n, _ => Hw(false, 0))).hw == r.hw
    ensures DoneUpTo(HwBds(Work(r, seq(n, _ => Hw(false, 0)))), k + n)
    decreases n
  {
    var steps := seq(n, _ => Hw(false, 0));
    if n > 0 {
      hide Ring.Valid, Ring.Order, Ring.Finish;
      DoneCountIs(HwBds(r), k);
      HwBdsLength(r);
      FinishMeaning(r, false, 0);
      assert steps[1..] == seq(n - 1, _ => Hw(false, 0));
      WorkFinishes(r.Finish(false, 0), size, k + 1, n - 1);
    }
  }

  /** Before the completion of a turn whose batch has arrived in full. */
  ghost predicate FullTurn(l: Layout, r: Ring, size: nat) {
    Conserved(r, size) && |HwBds(r)| == 2 * l.c.readCoalesce && DoneUpTo(HwBds(r), l.c.readCoalesce)
  }

  lemma TurnFills(l: Layout, b: nat, r: Ring, size: nat)
    requires l.Ok() && 2 * l.c.readCoalesce <= size && b < 2
    requires Conserved(r, size) && |HwBds(r)| == l.c.readCoalesce && DoneUpTo(HwBds(r), 0)
    ensures AfterRead(l.c, r, l.base[b], l.size).1 == Returned(true)
    ensures FullTurn(l, Work(AfterRead(l.c, r, l.base[b], l.size).0, seq(l.c.readCoalesce, _ => Hw(false, 0))), size)
  {
    hide SubmitRead, Ring.Valid, Ring.Order, Work;
    HwBdsLength(r);
    SubmitReadMeaning(l.c, r, l.base[b], l.size);
    var r' := AfterRead(l.c, r, l.base[b], l.size).0;
    SettledSize(r');
    HwBdsLength(r');
    WorkFinishes(r', size, 0, l.c.readCoalesce);
    HwBdsLength(Work(r', seq(l.c.readCoalesce, _ => Hw(false, 0))));
  }

  lemma FullTurnReturns(l: Layout, ch: Channel, size: nat)
    requires l.Ok() && FullTurn(l, ch.ring, size)
    ensures var (ch', res) := CompleteRead(l.c, ch, 1, true);
      && res.Returned? && Conserved(ch'.ring, size) && |ch'.ring.hw| + l.c.readCoalesce == |ch.ring.hw|
      && |HwBds(ch'.ring)| == l.c.readCoalesce && DoneUpTo(HwBds(ch'.ring), 0)
  {
    hide CompleteRead, Ring.Valid, Ring.Order;
    DoneCountIs(HwBds(ch.ring), l.c.readCoalesce);
    HwBdsLength(ch.ring);
    CompleteReadMeaning(l.c, ch, 1, true);
    SettledSize(CompleteRead(l.c, ch, 1, true).0.ring);
  }

  lemma FirstFills(l: Layout, r: Ring, size: nat)
    requires l.Ok() && 2 * l.c.readCoalesce <= size && Conserved(r, size) && HwBds(r) == []
    ensures var (r', res) := AfterRead(l.c, r, l.base[0], l.size);
      res == Returned(true) && Conserved(r', size) && |HwBds(r')| == l.c.readCoalesce && DoneUpTo(HwBds(r'), 0)
  {
    hide SubmitRead, Ring.Valid, Ring.Order;
    HwBdsLength(r);
    SubmitReadMeaning(l.c, r, l.base[0], l.size);
    SettledSize(AfterRead(l.c, r, l.base[0], l.size).0);
  }

  lemma NoWork(r: Ring)
    ensures Work(r, []) == r
  {
  }

  /** The turn in which nothing but one full batch arrives. */
  function FullBatch(n: nat): Turn {
    Turn([], seq(n, _ => Hw(false, 0)), 1, true)
  }

  ghost predicate FullRun(l: Layout, start: Channel, size: nat, rounds: nat, run: Run) {
    && |l.base| == 2 && |run.turns| == |run.entering| == |run.at| == rounds + 1
    && (forall r | 0 <= r <= rounds :: run.turns[r] == FullBatch(l.c.readCoalesce))
    && (forall r | 0 <= r < rounds :: TakenBack(run)[r] == l.c.readCoalesce)
    && FullTurn(l, run.at[rounds].ring, size)
    && DriverRun(l, start, run)
  }

  lemma FullRunStarts(l: Layout, start: Channel, size: nat) returns (run: Run)
    requires l.Ok() && 2 * l.c.readCoalesce <= size && Conserved(start.ring, size) && HwBds(start.ring) == []
    ensures FullRun(l, start, size, 0, run)
  {
    hide Ring.Valid, Ring.Order, CompleteRead, AfterRead, Work, FullTurn, HwBds;
    var turn := FullBatch(l.c.readCoalesce);
    FirstFills(l, start.ring, size);
    var entering := start.(ring := AfterRead(l.c, start.ring, l.base[0], l.size).0);
    TurnFills(l, 1, entering.ring, size);
    NoWork(entering.ring);
    var at := entering.(ring := Work(AfterRead(l.c, entering.ring, l.base[1], l.size).0, turn.waiting));
    run := Run([turn], [entering], [at]);
  }

  lemma TurnGoesOn(l: Layout, last: Channel, size: nat, r: nat) returns (entering: Channel, at: Channel)
    requires l.Ok() && 2 * l.c.readCoalesce <= size && FullTurn(l, last.ring, size) && last.ring.Valid()
    ensures |l.base| == 2 && Returns(l, last, FullBatch(l.c.readCoalesce), entering)
    ensures Reads(l, r, entering, FullBatch(l.c.readCoalesce), at) && FullTurn(l, at.ring, size)
    ensures |entering.ring.hw| + l.c.readCoalesce == |last.ring.hw|
  {
    hide Ring.Valid, Ring.Order, CompleteRead, AfterRead, Work, FullTurn, HwBds;
    var b := (r + 1) % 2;
    FullTurnReturns(l, last, size);
    entering := CompleteRead(l.c, last, 1, true).0;
    TurnFills(l, b, entering.ring, size);
    NoWork(entering.ring);
    at := entering.(ring := Work(AfterRead(l.c, entering.ring, l.base[b], l.size).0, FullBatch(l.c.readCoalesce).waiting));
  }

  lemma RunAppend(l: Layout, start: Channel, run: Run, t: Turn, entering: Channel, at: Channel)
    requires |l.base| == 2 && DriverRun(l, start, run)
    requires Returns(l, run.at[|run.at| - 1], run.turns[|run.at| - 1], entering) && Reads(l, |run.at|, entering, t, at)
    ensures var longer := Run(run.turns + [t], run.entering + [entering], run.at + [at]);
      && DriverRun(l, start, longer) && |TakenBack(longer)| == |run.at|
      && (forall r | 0 <= r < |run.at| - 1 :: TakenBack(longer)[r] == TakenBack(run)[r])
      && (|entering.ring.hw| <= |run.at[|run.at| - 1].ring.hw| ==>
            TakenBack(longer)[|run.at| - 1] == |run.at[|run.at| - 1].ring.hw| - |entering.ring.hw|)
  {
    hide Reads, Returns, FirstRead;
    var longer := Run(run.turns + [t], run.entering + [entering], run.at + [at]);
    forall r | 0 < r < |longer.at| ensures Returns(l, longer.at[r - 1], longer.turns[r - 1], longer.entering[r]) {
      if r < |run.at| {
        assert Returns(l, run.at[r - 1], run.turns[r - 1], run.entering[r]);
      }
    }
  }

  lemma FullRunGoesOn(l: Layout, start: Channel, size: nat, rounds: nat, before: Run) returns (run: Run)
    requires l.Ok() && 2 * l.c.readCoalesce <= size && FullRun(l, start, size, rounds, before)
    ensures FullRun(l, start, size, rounds + 1, run)
  {
    hide DriverRun, Reads, Returns, FullTurn, TakenBack, FullBatch, Layout.Ok;
    RunShape(l, start, before);
    FullTurnValid(l, before.at[rounds].ring, size);
    var entering, at := TurnGoesOn(l, before.at[rounds], size, rounds + 1);
    RunAppend(l, start, before, FullBatch(l.c.readCoalesce), entering, at);
    run := Run(before.turns + [FullBatch(l.c.readCoalesce)], before.entering + [entering], before.at + [at]);
  }

  lemma FullTurnValid(l: Layout, r: Ring, size: nat)
    requires FullTurn(l, r, size)
    ensures r.Valid()
  {
  }

  /** There are runs of any length in which every completion takes back a full batch. */
  lemma {:induction false} FullRunsExist(l: Layout, start: Channel, size: nat, rounds: nat) returns (run: Run)
    requires l.Ok() && 2 * l.c.readCoalesce <= size && Conserved(start.ring, size) && HwBds(start.ring) == []
    ensures FullRun(l, start, size, rounds, run)
    decreases rounds
  {
    hide FullRun;
    if rounds == 0 {
      run := FullRunStarts(l, start, size);
    } else {
      run := FullRunsExist(l, start, size, rounds - 1);
      run := FullRunGoesOn(l, start, size, rounds - 1, run);
    }
  }

  ghost predicate BlocksInTurn(l: Layout, run: Run, r: nat)
    requires |l.base| == 2 && r < |run.at|
  {
    && run.at[r].ring.Valid()
    && Blocks(HwBds(run.at[r].ring)) ==
         Repeat(l.c.readCoalesce, l.base[r % 2]) + Repeat(l.c.readCoalesce, l.base[(r + 1) % 2])
  }

  /** In a run of the driver the two blocks take turns before all completions
      exactly when all completions but the last take back one full batch. */
  lemma RunTakesTurnsIff(l: Layout, start: Channel, run: Run, size: nat)
    requires l.Ok() && Conserved(start.ring, size) && HwBds(start.ring) == []
    requires DriverRun(l, start, run)
    ensures (forall r | 0 <= r < |run.at| :: BlocksInTurn(l, run, r))
       <==> (forall r | 0 <= r < |run.at| - 1 :: TakenBack(run)[r] == l.c.readCoalesce)
  {
    hide DriverRun, QueueBefore, HwBds, Conserved, Ring.Valid;
    RunShape(l, start, run);
    forall r | 0 <= r < |run.at|
      ensures BlocksInTurn(l, run, r) <==> InTurn(l.c.readCoalesce, l.base, TakenBack(run), r)
    {
      RunQueue(l, start, run, size, r);
      QueuesFacts(l, run.at[r].ring, size, QueueBefore(l.c.readCoalesce, l.base, TakenBack(run), r));
    }
    TurnsIffFullBatches(l.c.readCoalesce, l.base, TakenBack(run), |run.at| - 1);
  }

  /** Double buffering is safe as long as every completion so far took back one
      full batch, whatever the lengths and states of the messages: the hardware
      queue is the current block's batch and the next one's. */
  lemma FullTurnsInTurn(l: Layout, start: Channel, run: Run, size: nat, r: nat)
    requires l.Ok() && Conserved(start.ring, size) && HwBds(start.ring) == []
    requires DriverRun(l, start, run) && r < |run.at|
    requires forall k | 0 <= k < r :: TakenBack(run)[k] == l.c.readCoalesce
    ensures Queues(l, run.at[r].ring, size,
      Repeat(l.c.readCoalesce, l.base[r % 2]) + Repeat(l.c.readCoalesce, l.base[(r + 1) % 2]))
  {
    RunQueue(l, start, run, size, r);
    TurnsIffFullBatches(l.c.readCoalesce, l.base, TakenBack(run), r);
    assert InTurn(l.c.readCoalesce, l.base, TakenBack(run), r);
  }

  /** And if the completion takes back a full batch, too, everything the hardware
      still owns lies outside the block about to be formatted, and whatever it
      does during formatting, the next read is accepted. */
  lemma FullTurnsAreSafe(l: Layout, ch: Channel, size: nat, b: nat, intrs: int, ioc: bool, steps: seq<Hw>)
    requires l.Ok() && 2 * l.c.readCoalesce <= size && b < 2
    requires Queues(l, ch.ring, size, Repeat(l.c.readCoalesce, l.base[b]) + Repeat(l.c.readCoalesce, l.base[1 - b]))
    requires var (ch', res) := CompleteRead(l.c, ch, intrs, ioc);
      res.Returned? && |ch'.ring.hw| + l.c.readCoalesce == |ch.ring.hw|
    ensures var (ch', res) := CompleteRead(l.c, ch, intrs, ioc);
      && Queues(l, ch'.ring, size, Repeat(l.c.readCoalesce, l.base[1 - b]))
      && ch'.ring.Valid() && OutsideBlock(l, b, HwBds(ch'.ring))
      && Work(ch'.ring, steps).Valid()
      && AfterRead(l.c, Work(ch'.ring, steps), l.base[b], l.size).1 == Returned(true)
  {
    hide Ring.Valid, Ring.Order, CompleteRead, AfterRead, Work, HwBds, Aimed, Conserved;
    var n, ch' := l.c.readCoalesce, CompleteRead(l.c, ch, intrs, ioc).0;
    var both := Repeat(n, l.base[b]) + Repeat(n, l.base[1 - b]);
    QueuesCompletion(l, ch, intrs, ioc, size, both);
    assert both[n..] == Repeat(n, l.base[1 - b]);
    QueuesFacts(l, ch'.ring, size, Repeat(n, l.base[1 - b]));
    OnlyOther(l, 1 - b, HwBds(ch'.ring));
    QueuesWork(l, ch'.ring, steps, size, Repeat(n, l.base[1 - b]));
    QueuesFacts(l, Work(ch'.ring, steps), size, Repeat(n, l.base[1 - b]));
    RoomForNext(l, b, Work(ch'.ring, steps), size);
  }

  /** No descriptor reaches into the block. */
  ghost predicate OutsideBlock(l: Layout, b: nat, q: seq<Bd>)
    requires |l.base| == 2 && b < 2
  {
    forall i | 0 <= i < |q| :: q[i].addr + q[i].length <= l.base[b] || l.base[b] + l.size <= q[i].addr
  }

  lemma OnlyOther(l: Layout, b: nat, q: seq<Bd>)
    requires l.Ok() && b < 2 && Aimed(l, q) && Blocks(q) == Repeat(l.c.readCoalesce, l.base[b])
    ensures OutsideBlock(l, 1 - b, q)
  {
    forall i | 0 <= i < |q|
      ensures q[i].addr + q[i].length <= l.base[1 - b] || l.base[1 - b] + l.size <= q[i].addr
    {
      assert Blocks(q)[i] == q[i].id;
    }
  }

  lemma RoomForNext(l: Layout, b: nat, r: Ring, size: nat)
    requires l.Ok() && b < 2 && Conserved(r, size) && |r.hw| <= l.c.readCoalesce && 2 * l.c.readCoalesce <= size
    ensures AfterRead(l.c, r, l.base[b], l.size).1 == Returned(true)
  {
    hide SubmitRead, Ring.Valid, Ring.Order;
    SubmitReadMeaning(l.c, r, l.base[b], l.size);
  }
}
