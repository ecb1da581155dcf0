/** The scatter-gather half of the DMA driver: submitting batches of
    descriptors and retiring them. Each call runs under the hardware lock and is
    one atomic step here; the hardware works between the steps. */
module ScatterGather {
  import opened Text
  import opened BdRing

  const FPGA_DMA_BOUNDARY := 0x1000
  const TX_SINGLE_BD: nat := 0x0C00_0000   // start and end of frame
  const ERROR_BUDGET: nat := 32
  const SIZE_MAX: nat := 0xFFFF_FFFF_FFFF_FFFF

  datatype Config = Config(
    readCoalesce: nat,
    writeCoalesce: nat,
    readMsgSize: nat,
    maxTransferLen: nat,
    wordLen: nat,
    hasDre: bool)
  {
    /** `XAxiDma_BdSetBufAddr` refuses unaligned addresses without a realignment engine. */
    predicate AddrOk(addr: nat) {
      hasDre || wordLen == 0 || addr % wordLen == 0
    }

    /** `XAxiDma_BdSetLength` refuses empty and oversized transfers. */
    predicate LengthOk(len: nat) {
      0 < len <= maxTransferLen
    }
  }

  /** Why a call throws: partial batches too often, an error in a descriptor, or
      anything refused on the way. */
  datatype Fault = TooManyPartialBatches | DescriptorError | Refused

  datatype Result<+T> = Returned(value: T) | Threw(fault: Fault)

  datatype Completion = Completion(bytes: nat, bds: nat, interrupts: nat)

  /** A ring and the error budget of its completion routine. */
  datatype Channel = Channel(ring: Ring, errcnt: nat)

  // ------------------------------------------------------------ submitting

  /** Programs the descriptors `slots[i..]` with consecutive pieces of the
      buffer; false at the first one that refuses. */
  function ProgramBds(c: Config, bds: seq<Bd>, slots: Slots, i: nat, buf: nat): (seq<Bd>, bool)
    requires forall k | 0 <= k < |slots| :: slots[k] < |bds|
    decreases |slots| - i
  {
    if i >= |slots| then (bds, true)
    else
      var s, addr := slots[i], buf + i * c.readMsgSize;
      if !c.AddrOk(addr) then (bds, false)
      else
        var bds1 := bds[s := bds[s].(addr := addr)];
        if !c.LengthOk(c.readMsgSize) then (bds1, false)
        else ProgramBds(c, bds1[s := bds1[s].(length := c.readMsgSize, ctrl := 0, id := buf)], slots, i + 1, buf)
  }

  /** `readScatterGather` */
  function SubmitRead(c: Config, r: Ring, buf: nat, len: nat): (Ring, Result<bool>)
    requires r.Valid()
  {
    var n := c.readCoalesce;
    if len < n * c.readMsgSize || r.Alloc(n).None? then (r, Threw(Refused))
    else
      var (r1, head) := r.Alloc(n).value;
      var slots := r.free[..n];
      FreeInRange(r);
      var (bds, ok) := ProgramBds(c, r1.bds, slots, 0, buf);
      var r2 := r1.(bds := bds);
      if !ok || r2.ToHw(n, head).None? then (r2, Threw(Refused))
      else (r2.ToHw(n, head).value, Returned(true))
  }

  /** `writeScatterGather` */
  function SubmitWrite(c: Config, r: Ring, buf: nat, len: nat): (Ring, Result<bool>)
    requires r.Valid()
  {
    if r.Alloc(1).None? then (r, Threw(Refused))
    else
      var (r1, head) := r.Alloc(1).value;
      assert head < |r.bds| by { FreeInRange(r); }
      if !c.AddrOk(buf) then (r1, Threw(Refused))
      else
        var bds1 := r1.bds[head := r1.bds[head].(addr := buf)];
        if !c.LengthOk(len) then (r1.(bds := bds1), Threw(Refused))
        else
          var r2 := r1.(bds := bds1[head := bds1[head].(length := len, ctrl := TX_SINGLE_BD, id := buf)]);
          if r2.ToHw(1, head).None? then (r2, Threw(Refused))
          else (r2.ToHw(1, head).value, Returned(true))
  }

  /** `Dma::read`; the translated buffer address is a parameter. */
  function AfterRead(c: Config, r: Ring, buf: nat, len: nat): (Ring, Result<bool>)
    requires r.Valid()
  {
    if len == 0 then (r, Returned(true))
    else if len > FPGA_DMA_BOUNDARY then (r, Returned(false))
    else if buf == 0 then (r, Threw(Refused))
    else SubmitRead(c, r, buf, len)
  }

  /** `Dma::write` */
  function AfterWrite(c: Config, r: Ring, buf: nat, len: nat): (Ring, Result<bool>)
    requires r.Valid()
  {
    if len == 0 then (r, Returned(true))
    else if len > FPGA_DMA_BOUNDARY then (r, Returned(false))
    else if buf == 0 then (r, Threw(Refused))
    else SubmitWrite(c, r, buf, len)
  }

  // ------------------------------------------------------------ retiring

  predicate AnyFailed(bds: seq<Bd>, slots: Slots) {
    exists s | s in slots :: s < |bds| && bds[s].failed
  }

  /** Retiring a batch of `n` descriptors that FromHw has handed back. */
  function Retire(before: Ring, after: Ring, n: nat, bytesOfHead: nat, interrupts: nat): (Ring, Result<Completion>)
    requires n <= |before.hw|
  {
    if n == 0 then (after, Returned(Completion(0, 0, interrupts)))
    else if AnyFailed(before.bds, before.hw[..n]) then (after, Threw(DescriptorError))
    else if after.Free(n, before.hw[0]).None? then (after, Threw(Refused))
    else (after.Free(n, before.hw[0]).value, Returned(Completion(n * bytesOfHead, n, interrupts)))
  }

  function HeadOf(r: Ring): Bd {
    if r.hw != [] && r.hw[0] < |r.bds| then r.bds[r.hw[0]] else BLANK
  }

  /** `readCompleteScatterGather`, given what waiting for the interrupt
      returned and whether the IOC bit was set. */
  function CompleteRead(c: Config, ch: Channel, intrs: int, ioc: bool): (Channel, Result<Completion>) {
    var r := ch.ring;
    if intrs < 0 then
      var (r1, n) := r.FromHw(|r.hw|);
      var freed := if n == 0 then Some(r1) else r1.Free(n, r.hw[0]);
      (ch.(ring := if freed.Some? then freed.value else r1), Returned(Completion(0, 0, 0)))
    else if !ioc then (ch, Returned(Completion(0, 0, intrs)))
    else
      var (r1, n) := r.FromHw(c.readCoalesce);
      if n < c.readCoalesce && ch.errcnt == 0 then (Channel(r1, SIZE_MAX), Threw(TooManyPartialBatches))
      else
        var errcnt := if n < c.readCoalesce then ch.errcnt - 1 else ERROR_BUDGET;
        CompleteBound(r.bds, r.hw);
        var (r2, res) := Retire(r, r1, n, HeadOf(r).actual, intrs);
        (Channel(r2, errcnt), res)
  }

  /** `writeCompleteScatterGather`: no timeout branch, the budget is never
      replenished, and lengths are those requested. */
  function CompleteWrite(c: Config, ch: Channel, intrs: int): (Channel, Result<Completion>) {
    var r := ch.ring;
    var interrupts := ToSizeT(intrs);
    var (r1, n) := r.FromHw(c.writeCoalesce);
    if n < c.writeCoalesce && ch.errcnt == 0 then (Channel(r1, SIZE_MAX), Threw(TooManyPartialBatches))
    else
      var errcnt := if n < c.writeCoalesce then ch.errcnt - 1 else ch.errcnt;
      CompleteBound(r.bds, r.hw);
      var (r2, res) := Retire(r, r1, n, HeadOf(r).length, interrupts);
      (Channel(r2, errcnt), res)
  }

  /** Conversion of a signed count to `size_t`. */
  function ToSizeT(x: int): nat {
    x % (SIZE_MAX + 1)
  }

  // ------------------------------------------------------------ ring lemmas

  lemma FreeInRange(r: Ring)
    requires r.Valid()
    ensures forall i | 0 <= i < |r.free| :: r.free[i] < |r.bds|
  {
    var k := |r.post| + |r.hw| + |r.pre|;
    forall i | 0 <= i < |r.free| ensures r.free[i] < |r.bds| {
      assert r.free[i] == r.Order()[k + i];
    }
  }

  /** Moving descriptors between neighbouring queues does not change the order. */
  lemma SameOrder(r: Ring, r': Ring)
    requires r.Valid() && r'.Order() == r.Order() && |r'.bds| == |r.bds|
    ensures r'.Valid()
  {
  }

  /** The order does not depend on what the descriptors say. */
  lemma Reprogram(r: Ring, bds: seq<Bd>)
    requires r.Valid() && |bds| == |r.bds|
    ensures r.(bds := bds).Valid() && r.(bds := bds).Order() == r.Order()
  {
  }

  lemma AllocKeeps(r: Ring, n: nat)
    requires r.Valid() && r.Alloc(n).Some?
    ensures r.Alloc(n).value.0.Valid()
    ensures r.Alloc(n).value.0.Order() == r.Order()
  {
    var r' := r.Alloc(n).value.0;
    var front := r.post + r.hw;
    assert front + (r.pre + r.free[..n]) + r.free[n..] == front + r.pre + r.free;
    SameOrder(r, r');
  }

  lemma ToHwKeeps(r: Ring, n: nat, head: nat)
    requires r.Valid() && r.ToHw(n, head).Some?
    ensures r.ToHw(n, head).value.Valid()
    ensures r.ToHw(n, head).value.Order() == r.Order()
  {
    hide Ring.Valid, Wiped;
    var r' := r.ToHw(n, head).value;
    assert r.post + (r.hw + r.pre[..n]) + r.pre[n..] == r.post + r.hw + r.pre;
    assert r'.Order() == r.Order() && |r'.bds| == |r.bds|;
    SameOrder(r, r');
  }

  lemma FromHwKeeps(r: Ring, limit: nat)
    requires r.Valid()
    ensures r.FromHw(limit).0.Valid() && r.FromHw(limit).0.Order() == r.Order()
    ensures r.FromHw(limit).1 <= |r.hw|
  {
    CompleteBound(r.bds, r.hw);
    var (r', n) := r.FromHw(limit);
    assert r.post + r.hw[..n] + r.hw[n..] == r.post + r.hw;
    assert r'.Order() == r.Order();
    SameOrder(r, r');
  }

  /** Freeing turns the ring: the retired slots go to the very end. */
  lemma FreeKeeps(r: Ring, n: nat, head: nat)
    requires r.Valid() && r.Free(n, head).Some?
    ensures r.Free(n, head).value.Valid()
    ensures r.Free(n, head).value.Order() == r.Order()[n..] + r.Order()[..n]
  {
    var r', o := r.Free(n, head).value, r.Order();
    if n == 0 {
      assert o[0..] + o[..0] == o;
    } else {
      assert r'.Order() == o[n..] + o[..n];
      var turned := if n < |o| then o[n] else o[0];
      forall i | 0 <= i < |o| ensures r'.Order()[i] == r'.Around(turned + i) {
        assert r'.Order()[i] == if i < |o| - n then o[n + i] else o[i - (|o| - n)];
      }
    }
  }

  // ------------------------------------------------------------ submitting, meaning

  /** Address of the k-th piece of a buffer. */
  function Piece(c: Config, buf: nat, k: nat): nat {
    buf + k * c.readMsgSize
  }

  /** The descriptors of a read into `buf`, as handed to the hardware. */
  function Batch(c: Config, buf: nat): seq<Bd> {
    seq(c.readCoalesce, k requires 0 <= k => Bd(Piece(c, buf, k), c.readMsgSize, 0, buf, false, false, 0))
  }

  function BdsAt(bds: seq<Bd>, slots: Slots): seq<Bd>
    requires forall i | 0 <= i < |slots| :: slots[i] < |bds|
  {
    seq(|slots|, i requires 0 <= i < |slots| => bds[slots[i]])
  }

  lemma HwInRange(r: Ring)
    requires r.Valid()
    ensures forall i | 0 <= i < |r.hw| :: r.hw[i] < |r.bds|
  {
    forall i | 0 <= i < |r.hw| ensures r.hw[i] < |r.bds| {
      assert r.hw[i] == r.Order()[|r.post| + i];
    }
  }

  /** The descriptors the hardware owns, oldest first. */
  function HwBds(r: Ring): seq<Bd>
    requires r.Valid()
  {
    HwInRange(r);
    BdsAt(r.bds, r.hw)
  }

  ghost predicate Distinct(slots: Slots) {
    forall i, j | 0 <= i < j < |slots| :: slots[i] != slots[j]
  }

  predicate PieceOk(c: Config, buf: nat, k: nat) {
    c.AddrOk(Piece(c, buf, k)) && c.LengthOk(c.readMsgSize)
  }

  predicate PiecesOk(c: Config, buf: nat, i: nat, n: nat) {
    forall k | i <= k < n :: PieceOk(c, buf, k)
  }

  function Programmed(c: Config, bd: Bd, buf: nat, k: nat): Bd {
    bd.(addr := Piece(c, buf, k), length := c.readMsgSize, ctrl := 0, id := buf)
  }

  lemma {:induction false} ProgramMeaning(c: Config, bds: seq<Bd>, slots: Slots, i: nat, buf: nat)
    requires (forall k | 0 <= k < |slots| :: slots[k] < |bds|) && Distinct(slots) && i <= |slots|
    ensures |ProgramBds(c, bds, slots, i, buf).0| == |bds|
    ensures ProgramBds(c, bds, slots, i, buf).1 <==> PiecesOk(c, buf, i, |slots|)
    ensures forall s | 0 <= s < |bds| && (forall k | i <= k < |slots| :: slots[k] != s) ::
      ProgramBds(c, bds, slots, i, buf).0[s] == bds[s]
    ensures ProgramBds(c, bds, slots, i, buf).1 ==>
      forall k | i <= k < |slots| ::
        ProgramBds(c, bds, slots, i, buf).0[slots[k]] == Programmed(c, bds[slots[k]], buf, k)
    decreases |slots| - i
  {
    if i < |slots| {
      var s, addr := slots[i], buf + i * c.readMsgSize;
      assert addr == Piece(c, buf, i);
      if PieceOk(c, buf, i) {
        var bds1 := bds[s := bds[s].(addr := addr)];
        var bds2 := bds1[s := bds1[s].(length := c.readMsgSize, ctrl := 0, id := buf)];
        ProgramMeaning(c, bds2, slots, i + 1, buf);
        assert ProgramBds(c, bds, slots, i, buf) == ProgramBds(c, bds2, slots, i + 1, buf);
      } else {
        assert !PiecesOk(c, buf, i, |slots|);
      }
    }
  }

  lemma QueueDistinct(r: Ring)
    requires r.Valid()
    ensures Distinct(r.free)
    ensures forall i, j | 0 <= i < |r.hw| && 0 <= j < |r.free| :: r.hw[i] != r.free[j]
    ensures forall i, j | 0 <= i < |r.pre| && 0 <= j < |r.free| :: r.pre[i] != r.free[j]
    ensures forall i, j | 0 <= i < |r.post| && 0 <= j < |r.hw| :: r.post[i] != r.hw[j]
    ensures forall i, j | 0 <= i < |r.hw| && 0 <= j < |r.pre| :: r.hw[i] != r.pre[j]
    ensures forall j | 0 <= j < |r.pre| :: r.pre[j] < |r.bds|
  {
    var a, b, d := |r.post|, |r.post| + |r.hw|, |r.post| + |r.hw| + |r.pre|;
    forall i, j | 0 <= i < j < |r.free| ensures r.free[i] != r.free[j] {
      SlotsDistinct(r, d + i, d + j);
    }
    forall i, j | 0 <= i < |r.hw| && 0 <= j < |r.free| ensures r.hw[i] != r.free[j] {
      SlotsDistinct(r, a + i, d + j);
    }
    forall i, j | 0 <= i < |r.pre| && 0 <= j < |r.free| ensures r.pre[i] != r.free[j] {
      SlotsDistinct(r, b + i, d + j);
    }
    forall i, j | 0 <= i < |r.hw| && 0 <= j < |r.pre| ensures r.hw[i] != r.pre[j] {
      SlotsDistinct(r, a + i, b + j);
    }
    forall j | 0 <= j < |r.pre| ensures r.pre[j] < |r.bds| {
      assert r.pre[j] == r.Order()[b + j];
    }
    forall i, j | 0 <= i < |r.post| && 0 <= j < |r.hw| ensures r.post[i] != r.hw[j] {
      SlotsDistinct(r, i, a + j);
    }
  }

  /** A read gets as far as taking descriptors off the free list. */
  predicate Allocates(c: Config, r: Ring, len: nat) {
    c.readCoalesce * c.readMsgSize <= len && 0 < c.readCoalesce <= |r.free|
  }

  predicate Acceptable(c: Config, r: Ring, buf: nat, len: nat) {
    Allocates(c, r, len) && PiecesOk(c, buf, 0, c.readCoalesce)
  }

  function WipedBd(bd: Bd): Bd {
    bd.(done := false, failed := false, actual := 0)
  }

  lemma PreInRange(r: Ring)
    requires r.Valid()
    ensures forall k | 0 <= k < |r.pre| :: r.pre[k] < |r.bds|
  {
    QueueDistinct(r);
  }

  /** What the hardware will see of the oldest `n` reserved descriptors. */
  function PreBds(r: Ring, n: nat): seq<Bd>
    requires r.Valid() && n <= |r.pre|
  {
    PreInRange(r);
    seq(n, k requires 0 <= k < n => WipedBd(r.bds[r.pre[k]]))
  }

  /** Handing over appends those descriptors and disturbs no other. */
  lemma HandOver(r: Ring, n: nat)
    requires r.Valid() && 0 < n <= |r.pre|
    ensures r.ToHw(n, r.pre[0]).value.Valid()
    ensures r.ToHw(n, r.pre[0]).value.Order() == r.Order()
    ensures HwBds(r.ToHw(n, r.pre[0]).value) == HwBds(r) + PreBds(r, n)
  {
    hide Ring.Valid, Ring.Order, Wiped;
    ToHwKeeps(r, n, r.pre[0]);
    var r' := r.ToHw(n, r.pre[0]).value;
    var batch := r.pre[..n];
    assert r'.hw == r.hw + batch && r'.bds == Wiped(r.bds, batch);
    QueueDistinct(r);
    HwInRange(r);
    HwInRange(r');
    WipedElsewhere(r.bds, batch, r.hw);
    InTwoParts(HwBds(r'), HwBds(r), PreBds(r, n));
  }

  lemma WipedElsewhere(bds: seq<Bd>, slots: Slots, others: Slots)
    requires forall i | 0 <= i < |others| :: others[i] < |bds|
    requires forall i, j | 0 <= i < |others| && 0 <= j < |slots| :: others[i] != slots[j]
    ensures forall i | 0 <= i < |others| :: Wiped(bds, slots)[others[i]] == bds[others[i]]
  {
  }

  lemma HwBdsSame(r: Ring, r': Ring)
    requires r.Valid() && r'.Valid() && r'.hw == r.hw
    requires forall i | 0 <= i < |r.hw| :: r.hw[i] < |r.bds| && r.hw[i] < |r'.bds| && r'.bds[r.hw[i]] == r.bds[r.hw[i]]
    ensures HwBds(r') == HwBds(r) && |HwBds(r)| == |r.hw|
  {
    hide Ring.Valid;
    assert |HwBds(r)| == |HwBds(r')| == |r.hw|;
  }

  lemma InTwoParts(whole: seq<Bd>, first: seq<Bd>, second: seq<Bd>)
    requires |whole| == |first| + |second|
    requires forall i | 0 <= i < |first| :: whole[i] == first[i]
    requires forall k | 0 <= k < |second| :: whole[|first| + k] == second[k]
    ensures whole == first + second
  {
    forall i | 0 <= i < |whole| ensures whole[i] == (first + second)[i] {
      if i >= |first| {
        assert whole[|first| + (i - |first|)] == second[i - |first|];
      }
    }
  }

  /** A settled ring after allocating `n` descriptors and programming them. */
  lemma Prepared(r: Ring, n: nat, bds: seq<Bd>)
    requires r.Valid() && r.Settled() && 0 < n <= |r.free| && |bds| == |r.bds|
    requires forall i | 0 <= i < |r.hw| :: r.hw[i] < |r.bds| && bds[r.hw[i]] == r.bds[r.hw[i]]
    ensures var r2 := r.Alloc(n).value.0.(bds := bds);
      && r2.Valid() && r2.Order() == r.Order() && r2.post == []
      && r2.pre == r.free[..n] && r2.hw == r.hw && HwBds(r2) == HwBds(r) && |HwBds(r)| == |r.hw|
  {
    hide Ring.Valid, Ring.Order;
    AllocKeeps(r, n);
    Reprogram(r.Alloc(n).value.0, bds);
    HwBdsSame(r, r.Alloc(n).value.0.(bds := bds));
  }

  /** Allocating `n` descriptors, programming them and handing them over puts
      exactly the programmed batch behind what the hardware already owns. */
  lemma Enqueue(r: Ring, n: nat, bds: seq<Bd>, batch: seq<Bd>)
    requires r.Valid() && r.Settled() && 0 < n <= |r.free|
    requires |bds| == |r.bds| && |batch| == n
    requires forall i | 0 <= i < |r.hw| :: r.hw[i] < |r.bds| && bds[r.hw[i]] == r.bds[r.hw[i]]
    requires forall k | 0 <= k < n :: (r.free[k] < |r.bds| && WipedBd(bds[r.free[k]]) == batch[k])
    ensures var r2 := r.Alloc(n).value.0.(bds := bds);
      && r2.Valid() && r2.Order() == r.Order() && r2.ToHw(n, r.free[0]).Some?
      && var r3 := r2.ToHw(n, r.free[0]).value;
      && r3.Valid() && r3.Order() == r.Order() && r3.Settled()
      && HwBds(r3) == HwBds(r) + batch && r3.free == r.free[n..]
  {
    hide Ring.Valid, Ring.Order, HwBds, Wiped, WipedBd;
    var r2 := r.Alloc(n).value.0.(bds := bds);
    Prepared(r, n, bds);
    HandOver(r2, n);
    assert PreBds(r2, n) == batch;
  }

  /** From a settled ring, a read is accepted exactly when the buffer is large
      enough, enough descriptors are free and every piece can be programmed;
      then precisely its batch joins the hardware queue. A read that throws
      after allocating leaves its descriptors stranded. */
  lemma SubmitReadMeaning(c: Config, r: Ring, buf: nat, len: nat)
    requires r.Valid() && r.Settled()
    ensures var (r', res) := SubmitRead(c, r, buf, len);
      && r'.Valid() && r'.Order() == r.Order() && r'.Size() == r.Size() && r'.post == []
      && res == (if Acceptable(c, r, buf, len) then Returned(true) else Threw(Refused))
      && (r'.Settled() <==> Allocates(c, r, len) ==> PiecesOk(c, buf, 0, c.readCoalesce))
      && (Acceptable(c, r, buf, len) ==>
            HwBds(r') == HwBds(r) + Batch(c, buf) && r'.free == r.free[c.readCoalesce..])
  {
    if Allocates(c, r, len) {
      var n := c.readCoalesce;
      AllocKeeps(r, n);
      FreeInRange(r);
      HwInRange(r);
      QueueDistinct(r);
      var r1, slots := r.Alloc(n).value.0, r.free[..n];
      ProgramMeaning(c, r1.bds, slots, 0, buf);
      var (bds, ok) := ProgramBds(c, r1.bds, slots, 0, buf);
      SameOrder(r1, r1.(bds := bds));
      if ok {
        forall k | 0 <= k < n
          ensures WipedBd(bds[r.free[k]]) == Batch(c, buf)[k] {
          assert slots[k] == r.free[k];
        }
        Enqueue(r, n, bds, Batch(c, buf));
      }
    }
  }

  /** The pieces of an accepted read follow each other without gap or overlap
      and stay inside the buffer. */
  lemma PiecesTile(c: Config, buf: nat, len: nat, j: nat, k: nat)
    requires c.readCoalesce * c.readMsgSize <= len && j < k < c.readCoalesce
    ensures Piece(c, buf, j) + c.readMsgSize <= Piece(c, buf, k)
    ensures k == j + 1 ==> Piece(c, buf, j) + c.readMsgSize == Piece(c, buf, k)
    ensures Piece(c, buf, 0) == buf && Piece(c, buf, k) + c.readMsgSize <= buf + len
  {
    MulLess(j + 1, k, c.readMsgSize);
    MulLess(k + 1, c.readCoalesce, c.readMsgSize);
    assert (j + 1) * c.readMsgSize == j * c.readMsgSize + c.readMsgSize;
    assert (k + 1) * c.readMsgSize == k * c.readMsgSize + c.readMsgSize;
  }

  lemma MulLess(a: nat, b: nat, m: nat)
    requires a <= b
    ensures a * m <= b * m
  {
  }

  lemma SubmitWriteMeaning(c: Config, r: Ring, buf: nat, len: nat)
    requires r.Valid() && r.Settled()
    ensures var (r', res) := SubmitWrite(c, r, buf, len);
      var ok := r.free != [] && c.AddrOk(buf) && c.LengthOk(len);
      && r'.Valid() && r'.Order() == r.Order() && r'.Size() == r.Size() && r'.post == []
      && res == (if ok then Returned(true) else Threw(Refused))
      && (r'.Settled() <==> r.free == [] || ok)
      && (ok ==> HwBds(r') == HwBds(r) + [Bd(buf, len, TX_SINGLE_BD, buf, false, false, 0)]
                 && r'.free == r.free[1..])
  {
    if r.free != [] {
      var (r1, head) := r.Alloc(1).value;
      AllocKeeps(r, 1);
      FreeInRange(r);
      HwInRange(r);
      QueueDistinct(r);
      if c.AddrOk(buf) {
        var bds1 := r1.bds[head := r1.bds[head].(addr := buf)];
        SameOrder(r1, r1.(bds := bds1));
        if c.LengthOk(len) {
          var bds2 := bds1[head := bds1[head].(length := len, ctrl := TX_SINGLE_BD, id := buf)];
          Enqueue(r, 1, bds2, [Bd(buf, len, TX_SINGLE_BD, buf, false, false, 0)]);
        }
      }
    }
  }

  /** The pieces of a buffer, and when each can be programmed. */
  lemma BatchIs(c: Config, buf: nat)
    ensures |Batch(c, buf)| == c.readCoalesce
    ensures forall k | 0 <= k < c.readCoalesce ::
      Batch(c, buf)[k] == Bd(buf + k * c.readMsgSize, c.readMsgSize, 0, buf, false, false, 0)
  {
  }

  lemma PiecesOkIff(c: Config, buf: nat)
    requires 0 < c.readCoalesce
    ensures PiecesOk(c, buf, 0, c.readCoalesce) <==>
      && 0 < c.readMsgSize <= c.maxTransferLen
      && (c.hasDre || c.wordLen == 0 || forall k | 0 <= k < c.readCoalesce :: Piece(c, buf, k) % c.wordLen == 0)
  {
    if PiecesOk(c, buf, 0, c.readCoalesce) {
      assert PieceOk(c, buf, 0);
      forall k | 0 <= k < c.readCoalesce ensures c.AddrOk(Piece(c, buf, k)) {
        assert PieceOk(c, buf, k);
      }
    }
  }

  /** `Dma::read` on a settled ring: empty and oversized reads leave it alone; any
      other is accepted exactly when the buffer is there and large enough, a batch of
      descriptors is free, and each piece can be programmed; then the hardware gets
      the pieces of this buffer. */
  lemma ReadMeaning(c: Config, r: Ring, buf: nat, len: nat)
    requires r.Valid() && r.Settled()
    ensures var (r', res) := AfterRead(c, r, buf, len);
      && (len == 0 ==> r' == r && res == Returned(true))
      && (len > 0x1000 ==> r' == r && res == Returned(false))
      && r'.Valid()
      && (0 < len <= 0x1000 ==>
            && (res.Returned? <==> buf != 0 && c.readCoalesce * c.readMsgSize <= len
                                   && 0 < c.readCoalesce <= |r.free| && PiecesOk(c, buf, 0, c.readCoalesce))
            && (res.Returned? ==>
                  && res.value && r'.Settled() && r'.free == r.free[c.readCoalesce..]
                  && HwBds(r') == HwBds(r) + Batch(c, buf)))
  {
    if 0 < len <= 0x1000 && buf != 0 {
      SubmitReadMeaning(c, r, buf, len);
      hide SubmitRead, HwBds, Ring.Valid, Ring.Order, Batch, PiecesOk;
    }
  }

  /** `Dma::write`, likewise: an accepted one gives the hardware this buffer and this
      length, as start and end of a frame. */
  lemma WriteMeaning(c: Config, r: Ring, buf: nat, len: nat)
    requires r.Valid() && r.Settled()
    ensures var (r', res) := AfterWrite(c, r, buf, len);
      && (len == 0 ==> r' == r && res == Returned(true))
      && (len > 0x1000 ==> r' == r && res == Returned(false))
      && r'.Valid()
      && (0 < len <= 0x1000 ==>
            && (res.Returned? <==> buf != 0 && r.free != [] && len <= c.maxTransferLen
                                   && (c.hasDre || c.wordLen == 0 || buf % c.wordLen == 0))
            && (res.Returned? ==>
                  && res.value && r'.Settled() && r'.free == r.free[1..]
                  && HwBds(r') == HwBds(r) + [Bd(buf, len, 0x0C00_0000, buf, false, false, 0)]))
  {
    if 0 < len <= 0x1000 && buf != 0 {
      SubmitWriteMeaning(c, r, buf, len);
      hide SubmitWrite, HwBds, Ring.Valid, Ring.Order;
    }
  }

  // ------------------------------------------------------------ retiring, meaning

  /** How many descriptors at the front of a queue are done. */
  function DoneCount(q: seq<Bd>): nat {
    if q == [] || !q[0].done then 0 else 1 + DoneCount(q[1..])
  }

  lemma {:induction false} ReadyIsDoneCount(bds: seq<Bd>, slots: Slots)
    requires forall i | 0 <= i < |slots| :: slots[i] < |bds|
    ensures Complete(bds, slots) == DoneCount(BdsAt(bds, slots)) <= |slots|
    decreases |slots|
  {
    if slots != [] && bds[slots[0]].done {
      ReadyIsDoneCount(bds, slots[1..]);
      assert BdsAt(bds, slots)[1..] == BdsAt(bds, slots[1..]);
    }
  }

  /** Taking `n` descriptors back and freeing them removes exactly the oldest
      `n` from the hardware queue and puts their slots at the end of the ring. */
  lemma Dequeue(r: Ring, limit: nat)
    requires r.Valid() && r.Settled()
    ensures var (r1, n) := r.FromHw(limit);
      && n == (if DoneCount(HwBds(r)) < limit then DoneCount(HwBds(r)) else limit) <= |r.hw|
      && r1.Valid() && r1.post == r.hw[..n] && r1.pre == [] && r1.Size() == r.Size()
      && r1.hw == r.hw[n..] && HwBds(r1) == HwBds(r)[n..]
      && (n > 0 ==>
          r1.Free(n, r.hw[0]).Some? &&
          var r2 := r1.Free(n, r.hw[0]).value;
          && r2.Valid() && r2.Settled() && r2.free == r.free + r.hw[..n] && r2.Size() == r.Size()
          && r2.hw == r.hw[n..] && HwBds(r2) == HwBds(r)[n..])
  {
    hide Ring.Order, Ring.Valid;
    FromHwKeeps(r, limit);
    HwInRange(r);
    ReadyIsDoneCount(r.bds, r.hw);
    var (r1, n) := r.FromHw(limit);
    assert HwBds(r1) == HwBds(r)[n..];
    if n > 0 {
      FreeKeeps(r1, n, r.hw[0]);
      assert HwBds(r1.Free(n, r.hw[0]).value) == HwBds(r)[n..];
    }
  }

  /** How many descriptors a completion takes back. */
  function Retired(limit: nat, q: seq<Bd>): nat {
    if DoneCount(q) < limit then DoneCount(q) else limit
  }

  predicate AnyBad(q: seq<Bd>, n: nat)
    requires n <= |q|
  {
    exists i | 0 <= i < n :: q[i].failed
  }

  /** `Retire` on a settled ring: either everything is back on the free list and
      reported, or one descriptor shows an error and the batch is stranded. */
  lemma RetireMeaning(r: Ring, limit: nat, bytesOfHead: nat, interrupts: nat)
    requires r.Valid() && r.Settled()
    ensures var (r1, n) := r.FromHw(limit);
      n <= |r.hw| &&
      var (r2, res) := Retire(r, r1, n, bytesOfHead, interrupts);
      && n <= |HwBds(r)| && r2.Valid() && r2.pre == [] && r2.Size() == r.Size()
      && r2.hw == r.hw[n..] && HwBds(r2) == HwBds(r)[n..]
      && (res.Threw? <==> AnyBad(HwBds(r), n)) && (res.Threw? ==> res.fault == DescriptorError)
      && (res.Threw? ==> r2.post == r.hw[..n])
      && (!res.Threw? ==> r2.Settled() && r2.free == r.free + r.hw[..n])
      && (!res.Threw? ==> res == Returned(Completion(n * bytesOfHead, n, interrupts)))
  {
    hide Ring.Order, Ring.Valid, Ring.Free;
    Dequeue(r, limit);
    HwInRange(r);
    var (r1, n) := r.FromHw(limit);
    assert AnyFailed(r.bds, r.hw[..n]) <==> AnyBad(HwBds(r), n) by {
      if AnyBad(HwBds(r), n) {
        var i :| 0 <= i < n && HwBds(r)[i].failed;
        assert r.hw[..n][i] in r.hw[..n];
      }
      if AnyFailed(r.bds, r.hw[..n]) {
        var s :| s in r.hw[..n] && s < |r.bds| && r.bds[s].failed;
        var i :| 0 <= i < n && r.hw[..n][i] == s;
        assert HwBds(r)[i].failed;
      }
    }
    assert n == 0 ==> r1.Settled() && r.free + r.hw[..n] == r.free && r1.free == r.free;
  }

  /** When the read completion throws: the partial-batch budget is used up, or a
      retired descriptor shows an error. */
  ghost predicate ReadCompletionFails(c: Config, ch: Channel, intrs: int, ioc: bool)
    requires ch.ring.Valid()
  {
    var n := Retired(c.readCoalesce, HwBds(ch.ring));
    && intrs >= 0 && ioc
    && ((n < c.readCoalesce && ch.errcnt == 0) || (n <= |HwBds(ch.ring)| && AnyBad(HwBds(ch.ring), n)))
  }

  /** `readComplete` on a settled ring, all branches: timeout, spurious
      interrupt, partial batch and full batch. */
  lemma CompleteReadMeaning(c: Config, ch: Channel, intrs: int, ioc: bool)
    requires ch.ring.Valid() && ch.ring.Settled()
    ensures var r, (ch', res) := ch.ring, CompleteRead(c, ch, intrs, ioc);
      var n := if intrs < 0 then DoneCount(HwBds(r)) else if !ioc then 0 else Retired(c.readCoalesce, HwBds(r));
      && n <= |r.hw| && ch'.ring.Valid() && ch'.ring.Size() == r.Size()
      && ch'.ring.hw == r.hw[n..] && HwBds(ch'.ring) == HwBds(r)[n..]
      && (res.Threw? <==> ReadCompletionFails(c, ch, intrs, ioc))
      && (res.Threw? ==> res.fault == if n < c.readCoalesce && ch.errcnt == 0 then TooManyPartialBatches else DescriptorError)
      && (res.Threw? ==> ch'.ring.post == r.hw[..n])
      && (!res.Threw? ==> ch'.ring.Settled() && ch'.ring.free == r.free + r.hw[..n])
      && (!res.Threw? && intrs < 0 ==> res.value == Completion(0, 0, 0))
      && (!res.Threw? && intrs >= 0 ==>
            res.value == Completion(n * (if n == 0 then 0 else HwBds(r)[0].actual), n, intrs))
  {
    hide Ring.Order, Ring.Valid, Ring.Free, Retire;
    var r := ch.ring;
    HwInRange(r);
    ReadyIsDoneCount(r.bds, r.hw);
    Dequeue(r, |r.hw|);
    Dequeue(r, c.readCoalesce);
    RetireMeaning(r, c.readCoalesce, HeadOf(r).actual, if intrs < 0 then 0 else intrs);
    assert r.hw[0..] == r.hw && HwBds(r)[0..] == HwBds(r) && r.free + r.hw[..0] == r.free;
    assert r.hw != [] ==> HeadOf(r) == HwBds(r)[0];
  }

  ghost predicate WriteCompletionFails(c: Config, ch: Channel)
    requires ch.ring.Valid()
  {
    var n := Retired(c.writeCoalesce, HwBds(ch.ring));
    || (n < c.writeCoalesce && ch.errcnt == 0)
    || (n <= |HwBds(ch.ring)| && AnyBad(HwBds(ch.ring), n))
  }

  lemma CompleteWriteMeaning(c: Config, ch: Channel, intrs: int)
    requires ch.ring.Valid() && ch.ring.Settled()
    ensures var r, (ch', res) := ch.ring, CompleteWrite(c, ch, intrs);
      var n := Retired(c.writeCoalesce, HwBds(r));
      && n <= |r.hw| && ch'.ring.Valid() && ch'.ring.Size() == r.Size()
      && ch'.ring.hw == r.hw[n..] && HwBds(ch'.ring) == HwBds(r)[n..]
      && (res.Threw? <==> WriteCompletionFails(c, ch))
      && (res.Threw? ==> res.fault == if n < c.writeCoalesce && ch.errcnt == 0 then TooManyPartialBatches else DescriptorError)
      && (res.Threw? ==> ch'.ring.post == r.hw[..n])
      && (!res.Threw? ==> ch'.ring.Settled() && ch'.ring.free == r.free + r.hw[..n])
      && (!res.Threw? ==>
            res.value == Completion(n * (if n == 0 then 0 else HwBds(r)[0].length), n, intrs % 0x1_0000_0000_0000_0000))
  {
    hide Ring.Order, Ring.Valid, Ring.Free, Retire;
    var r := ch.ring;
    HwInRange(r);
    ReadyIsDoneCount(r.bds, r.hw);
    Dequeue(r, c.writeCoalesce);
    RetireMeaning(r, c.writeCoalesce, HeadOf(r).length, ToSizeT(intrs));
    assert r.hw != [] ==> HeadOf(r) == HwBds(r)[0];
  }

  // ------------------------------------------------------------ byte counts

  function Sum(lengths: seq<nat>): nat {
    if lengths == [] then 0 else lengths[0] + Sum(lengths[1..])
  }

  /** What the hardware received into each descriptor of a queue. */
  function Actuals(q: seq<Bd>): seq<nat> {
    seq(|q|, i requires 0 <= i < |q| => q[i].actual)
  }

  /** What the driver asked it to send from each. */
  function Requested(q: seq<Bd>): seq<nat> {
    seq(|q|, i requires 0 <= i < |q| => q[i].length)
  }

  ghost predicate NoneAbove(lengths: seq<nat>, x: nat) {
    forall i | 0 <= i < |lengths| :: lengths[i] <= x
  }

  ghost predicate NoneBelow(lengths: seq<nat>, x: nat) {
    forall i | 0 <= i < |lengths| :: lengths[i] >= x
  }

  ghost predicate AllAre(lengths: seq<nat>, x: nat) {
    forall i | 0 <= i < |lengths| :: lengths[i] == x
  }

  lemma TailBounds(lengths: seq<nat>, x: nat)
    requires lengths != []
    ensures NoneAbove(lengths, x) <==> lengths[0] <= x && NoneAbove(lengths[1..], x)
    ensures NoneBelow(lengths, x) <==> lengths[0] >= x && NoneBelow(lengths[1..], x)
    ensures AllAre(lengths, x) <==> lengths[0] == x && AllAre(lengths[1..], x)
  {
    assert forall i | 1 <= i < |lengths| :: lengths[i] == lengths[1..][i - 1];
  }

  lemma {:induction false} SumBounds(lengths: seq<nat>, x: nat)
    ensures NoneAbove(lengths, x) ==> Sum(lengths) <= |lengths| * x
    ensures NoneBelow(lengths, x) ==> Sum(lengths) >= |lengths| * x
    ensures NoneAbove(lengths, x) || NoneBelow(lengths, x) ==> (Sum(lengths) == |lengths| * x <==> AllAre(lengths, x))
  {
    if lengths != [] {
      hide NoneAbove, NoneBelow, AllAre;
      TailBounds(lengths, x);
      SumBounds(lengths[1..], x);
      assert |lengths| * x == x + |lengths[1..]| * x;
    }
  }

  /** How a count that takes the head for all relates to the true sum: right
      when all are equal; when none is above the head never too little, when
      none is below it never too much, and in both cases right only then. */
  ghost predicate CountedByHead(lengths: seq<nat>, bytes: nat) {
    if lengths == [] then bytes == 0
    else
      && (AllAre(lengths, lengths[0]) ==> bytes == Sum(lengths))
      && (NoneAbove(lengths, lengths[0]) ==> bytes >= Sum(lengths) && (bytes == Sum(lengths) <==> AllAre(lengths, lengths[0])))
      && (NoneBelow(lengths, lengths[0]) ==> bytes <= Sum(lengths) && (bytes == Sum(lengths) <==> AllAre(lengths, lengths[0])))
  }

  lemma HeadCount(lengths: seq<nat>)
    ensures CountedByHead(lengths, |lengths| * if lengths == [] then 0 else lengths[0])
  {
    if lengths != [] {
      SumBounds(lengths, lengths[0]);
    }
  }

  /** The byte count of a read completion that returns, against the bytes that
      the hardware put into the descriptors it retires. */
  lemma ReadBytes(c: Config, ch: Channel, intrs: nat)
    requires ch.ring.Valid() && ch.ring.Settled()
    requires CompleteRead(c, ch, intrs, true).1.Returned?
    ensures var res := CompleteRead(c, ch, intrs, true).1.value;
      res.bds <= |HwBds(ch.ring)| && CountedByHead(Actuals(HwBds(ch.ring)[..res.bds]), res.bytes)
  {
    hide CompleteRead, Ring.Valid, Sum, CountedByHead, DoneCount;
    CompleteReadMeaning(c, ch, intrs, true);
    var q, n := HwBds(ch.ring), CompleteRead(c, ch, intrs, true).1.value.bds;
    assert |q| == |ch.ring.hw|;
    assert n > 0 ==> Actuals(q[..n])[0] == q[0].actual;
    HeadCount(Actuals(q[..n]));
  }

  /** The same for a write completion and the lengths asked for. */
  lemma WriteBytes(c: Config, ch: Channel, intrs: int)
    requires ch.ring.Valid() && ch.ring.Settled()
    requires CompleteWrite(c, ch, intrs).1.Returned?
    ensures var res := CompleteWrite(c, ch, intrs).1.value;
      res.bds <= |HwBds(ch.ring)| && CountedByHead(Requested(HwBds(ch.ring)[..res.bds]), res.bytes)
  {
    hide CompleteWrite, Ring.Valid, Sum, CountedByHead, DoneCount;
    CompleteWriteMeaning(c, ch, intrs);
    var q, n := HwBds(ch.ring), CompleteWrite(c, ch, intrs).1.value.bds;
    assert |q| == |ch.ring.hw|;
    assert n > 0 ==> Requested(q[..n])[0] == q[0].length;
    HeadCount(Requested(q[..n]));
  }

  /** So if the first message of a batch fills its descriptor, the count is
      right exactly when all messages of the batch do. */
  lemma BytesExactWhenFull(c: Config, ch: Channel, intrs: nat)
    requires ch.ring.Valid() && ch.ring.Settled()
    requires CompleteRead(c, ch, intrs, true).1.Returned?
    requires NoneAbove(Actuals(HwBds(ch.ring)), c.readMsgSize)
    ensures var res := CompleteRead(c, ch, intrs, true).1.value;
      res.bds <= |HwBds(ch.ring)| &&
      var lengths := Actuals(HwBds(ch.ring)[..res.bds]);
      lengths != [] && lengths[0] == c.readMsgSize ==> (res.bytes == Sum(lengths) <==> AllAre(lengths, c.readMsgSize))
  {
    hide CompleteRead, Ring.Valid, Sum;
    ReadBytes(c, ch, intrs);
    var q, n := HwBds(ch.ring), CompleteRead(c, ch, intrs, true).1.value.bds;
    assert forall i | 0 <= i < n :: Actuals(q[..n])[i] == Actuals(q)[i];
  }

  /** With batches of one, as the driver is built, the count is always right. */
  lemma SingleReadIsCounted(c: Config, ch: Channel, intrs: nat)
    requires ch.ring.Valid() && ch.ring.Settled() && c.readCoalesce <= 1
    requires CompleteRead(c, ch, intrs, true).1.Returned?
    ensures var res := CompleteRead(c, ch, intrs, true).1.value;
      res.bds <= |HwBds(ch.ring)| && res.bytes == Sum(Actuals(HwBds(ch.ring)[..res.bds]))
  {
    hide CompleteRead, Ring.Valid, Sum, HwBds, DoneCount, Actuals;
    CompleteReadMeaning(c, ch, intrs, true);
    ReadBytes(c, ch, intrs);
    OneIsCounted(Actuals(HwBds(ch.ring)[..CompleteRead(c, ch, intrs, true).1.value.bds]));
    ActualsLength(HwBds(ch.ring)[..CompleteRead(c, ch, intrs, true).1.value.bds]);
  }

  lemma SingleWriteIsCounted(c: Config, ch: Channel, intrs: int)
    requires ch.ring.Valid() && ch.ring.Settled() && c.writeCoalesce <= 1
    requires CompleteWrite(c, ch, intrs).1.Returned?
    ensures var res := CompleteWrite(c, ch, intrs).1.value;
      res.bds <= |HwBds(ch.ring)| && res.bytes == Sum(Requested(HwBds(ch.ring)[..res.bds]))
  {
    hide CompleteWrite, Ring.Valid, Sum, HwBds, DoneCount, Requested;
    CompleteWriteMeaning(c, ch, intrs);
    WriteBytes(c, ch, intrs);
    OneIsCounted(Requested(HwBds(ch.ring)[..CompleteWrite(c, ch, intrs).1.value.bds]));
    ActualsLength(HwBds(ch.ring)[..CompleteWrite(c, ch, intrs).1.value.bds]);
  }

  lemma OneIsCounted(lengths: seq<nat>)
    ensures |lengths| <= 1 ==> forall bytes | CountedByHead(lengths, bytes) :: bytes == Sum(lengths)
  {
  }

  lemma ActualsLength(q: seq<Bd>)
    ensures |Actuals(q)| == |Requested(q)| == |q|
  {
  }

  /** A ring of two descriptors that have received `a` and `b` bytes. */
  function Pair(a: nat, b: nat): Ring {
    Ring([BLANK.(done := true, actual := a), BLANK.(done := true, actual := b)], [], [], [0, 1], [])
  }

  /** A batch of two is reported as twice the first message. */
  lemma PairIsMiscounted(c: Config, a: nat, b: nat, intrs: nat)
    requires c.readCoalesce == 2
    ensures Pair(a, b).Valid() && Pair(a, b).Settled()
    ensures CompleteRead(c, Channel(Pair(a, b), ERROR_BUDGET), intrs, true).1 == Returned(Completion(2 * a, 2, intrs))
    ensures Sum(Actuals(HwBds(Pair(a, b)))) == a + b
  {
    var r := Pair(a, b);
    assert r.Order() == [0, 1];
    var q := HwBds(r);
    assert q == [r.bds[0], r.bds[1]];
    DoneBoth(q);
    assert !AnyBad(q, 2);
    SumOfTwo(a, b);
    assert Actuals(q) == [a, b];
    assert q[0].actual == a && Retired(2, q) == 2;
    hide CompleteRead, Ring.Valid, HwBds, DoneCount;
    CompleteReadMeaning(c, Channel(r, ERROR_BUDGET), intrs, true);
    assert CompleteRead(c, Channel(r, ERROR_BUDGET), intrs, true).1.value == Completion(2 * a, 2, intrs);
  }

  lemma DoneBoth(q: seq<Bd>)
    requires |q| == 2 && q[0].done && q[1].done
    ensures DoneCount(q) == 2
  {
    assert DoneCount(q[1..]) == 1 + DoneCount(q[1..][1..]);
  }

  lemma SumOfTwo(a: nat, b: nat)
    ensures Sum([a, b]) == a + b
  {
    assert [a, b][1..] == [b] && [b][1..] == [];
    assert Sum([b]) == b + Sum([b][1..]);
  }

  // ------------------------------------------------------------ whole runs

  datatype State = State(rx: Channel, tx: Channel)

  /** Driver calls and hardware steps, in any order. */
  datatype Event =
    | ReadCall(buf: nat, len: nat)
    | WriteCall(buf: nat, len: nat)
    | ReadWait(intrs: int, ioc: bool)
    | WriteWait(intrs: int)
    | RxHardware(rxFailed: bool, rxActual: nat)
    | TxHardware(txFailed: bool, txActual: nat)

  /** The state after an event, and whether it was a call that threw. */
  function Step(c: Config, s: State, e: Event): (State, bool)
    requires s.rx.ring.Valid() && s.tx.ring.Valid()
  {
    match e
    case ReadCall(buf, len) =>
      var (r, res) := AfterRead(c, s.rx.ring, buf, len);
      (s.(rx := s.rx.(ring := r)), res.Threw?)
    case WriteCall(buf, len) =>
      var (r, res) := AfterWrite(c, s.tx.ring, buf, len);
      (s.(tx := s.tx.(ring := r)), res.Threw?)
    case ReadWait(intrs, ioc) =>
      var (ch, res) := CompleteRead(c, s.rx, intrs, ioc);
      (s.(rx := ch), res.Threw?)
    case WriteWait(intrs) =>
      var (ch, res) := CompleteWrite(c, s.tx, intrs);
      (s.(tx := ch), res.Threw?)
    case RxHardware(failed, actual) =>
      (s.(rx := s.rx.(ring := s.rx.ring.Finish(failed, actual))), false)
    case TxHardware(failed, actual) =>
      (s.(tx := s.tx.(ring := s.tx.ring.Finish(failed, actual))), false)
  }

  /** Each event concerns its own ring only, and only calls throw. */
  lemma StepIs(c: Config, s: State, e: Event)
    requires s.rx.ring.Valid() && s.tx.ring.Valid()
    ensures var (s', threw) := Step(c, s, e);
      match e
      case ReadCall(buf, len) =>
        && s'.tx == s.tx && s'.rx.errcnt == s.rx.errcnt && s'.rx.ring == AfterRead(c, s.rx.ring, buf, len).0
        && (threw <==> !AfterRead(c, s.rx.ring, buf, len).1.Returned?)
      case WriteCall(buf, len) =>
        && s'.rx == s.rx && s'.tx.errcnt == s.tx.errcnt && s'.tx.ring == AfterWrite(c, s.tx.ring, buf, len).0
        && (threw <==> !AfterWrite(c, s.tx.ring, buf, len).1.Returned?)
      case ReadWait(intrs, ioc) =>
        && s'.tx == s.tx && s'.rx == CompleteRead(c, s.rx, intrs, ioc).0
        && (threw <==> !CompleteRead(c, s.rx, intrs, ioc).1.Returned?)
      case WriteWait(intrs) =>
        && s'.rx == s.rx && s'.tx == CompleteWrite(c, s.tx, intrs).0
        && (threw <==> !CompleteWrite(c, s.tx, intrs).1.Returned?)
      case RxHardware(failed, actual) =>
        !threw && s'.tx == s.tx && s'.rx.errcnt == s.rx.errcnt && s'.rx.ring == s.rx.ring.Finish(failed, actual)
      case TxHardware(failed, actual) =>
        !threw && s'.rx == s.rx && s'.tx.errcnt == s.tx.errcnt && s'.tx.ring == s.tx.ring.Finish(failed, actual)
  {
    hide AfterRead, AfterWrite, CompleteRead, CompleteWrite, Ring.Finish;
  }

  /** Between calls: nothing stranded, and free and hardware-owned descriptors
      add up to the whole ring. */
  ghost predicate Conserved(r: Ring, size: nat) {
    r.Valid() && r.Settled() && r.Size() == size && |r.free| + |r.hw| == size
  }

  lemma FinishKeeps(r: Ring, failed: bool, actual: nat)
    requires r.Valid()
    ensures r.Finish(failed, actual).Valid() && r.Finish(failed, actual).Order() == r.Order()
    ensures r.Finish(failed, actual).Size() == r.Size()
  {
    CompleteBound(r.bds, r.hw);
    Reprogram(r, r.Finish(failed, actual).bds);
  }

  /** The engine finishes the first descriptor of its queue that is not done. */
  lemma FinishMeaning(r: Ring, failed: bool, actual: nat)
    requires r.Valid() && DoneCount(HwBds(r)) < |r.hw|
    ensures var r', i := r.Finish(failed, actual), DoneCount(HwBds(r));
      && r'.Valid() && r'.free == r.free && r'.pre == r.pre && r'.post == r.post && r'.hw == r.hw
      && r'.Size() == r.Size() && |HwBds(r)| == |r.hw|
      && HwBds(r') == HwBds(r)[i := HwBds(r)[i].(done := true, failed := failed, actual := actual)]
  {
    hide Ring.Valid, Ring.Order;
    FinishKeeps(r, failed, actual);
    HwInRange(r);
    ReadyIsDoneCount(r.bds, r.hw);
    HwDistinct(r);
    var r' := r.Finish(failed, actual);
    HwInRange(r');
    assert r'.hw == r.hw;
  }

  lemma HwDistinct(r: Ring)
    requires r.Valid()
    ensures Distinct(r.hw)
  {
    forall i, j | 0 <= i < j < |r.hw| ensures r.hw[i] != r.hw[j] {
      SlotsDistinct(r, |r.post| + i, |r.post| + j);
    }
  }

  lemma SettledSize(r: Ring)
    ensures r.Valid() && r.Settled() ==> |r.free| + |r.hw| == r.Size()
  {
  }

  lemma StepConserves(c: Config, s: State, e: Event, nrx: nat, ntx: nat)
    requires Conserved(s.rx.ring, nrx) && Conserved(s.tx.ring, ntx)
    requires !Step(c, s, e).1
    ensures Conserved(Step(c, s, e).0.rx.ring, nrx) && Conserved(Step(c, s, e).0.tx.ring, ntx)
  {
    hide SubmitRead, SubmitWrite, CompleteRead, CompleteWrite, Ring.Valid, Ring.Order, HwBds;
    SettledSize(s.rx.ring);
    SettledSize(s.tx.ring);
    SettledSize(Step(c, s, e).0.rx.ring);
    SettledSize(Step(c, s, e).0.tx.ring);
    match e
    case ReadCall(buf, len) => SubmitReadMeaning(c, s.rx.ring, buf, len);
    case WriteCall(buf, len) => SubmitWriteMeaning(c, s.tx.ring, buf, len);
    case ReadWait(intrs, ioc) => CompleteReadMeaning(c, s.rx, intrs, ioc);
    case WriteWait(intrs) => CompleteWriteMeaning(c, s.tx, intrs);
    case RxHardware(failed, actual) => FinishKeeps(s.rx.ring, failed, actual);
    case TxHardware(failed, actual) => FinishKeeps(s.tx.ring, failed, actual);
  }

  /** The events all happen, none of them throwing, and lead from `s` to `t`. */
  ghost predicate Runs(c: Config, s: State, events: seq<Event>, t: State)
    requires s.rx.ring.Valid() && s.tx.ring.Valid()
    decreases |events|
  {
    if events == [] then s == t
    else
      var (s', threw) := Step(c, s, events[0]);
      !threw && s'.rx.ring.Valid() && s'.tx.ring.Valid() && Runs(c, s', events[1..], t)
  }

  function Initial(nrx: nat, ntx: nat): (s: State)
    ensures s.rx.ring.Valid() && s.tx.ring.Valid()
  {
    FreshValid(nrx);
    FreshValid(ntx);
    State(Channel(Fresh(nrx), ERROR_BUDGET), Channel(Fresh(ntx), ERROR_BUDGET))
  }

  /** Descriptor conservation over every interleaving of reads, writes, full,
      partial and timed-out completions and hardware steps. */
  lemma {:induction false} RunConserves(c: Config, s: State, events: seq<Event>, t: State, nrx: nat, ntx: nat)
    requires Conserved(s.rx.ring, nrx) && Conserved(s.tx.ring, ntx)
    requires Runs(c, s, events, t)
    ensures Conserved(t.rx.ring, nrx) && Conserved(t.tx.ring, ntx)
    decreases |events|
  {
    if events != [] {
      StepConserves(c, s, events[0], nrx, ntx);
      RunConserves(c, Step(c, s, events[0]).0, events[1..], t, nrx, ntx);
    }
  }

  lemma InitialConserved(nrx: nat, ntx: nat)
    ensures Conserved(Initial(nrx, ntx).rx.ring, nrx) && Conserved(Initial(nrx, ntx).tx.ring, ntx)
  {
    FreshValid(nrx);
    FreshValid(ntx);
  }

  /** From initialisation on. */
  lemma RunFromInitial(c: Config, events: seq<Event>, t: State, nrx: nat, ntx: nat)
    requires Runs(c, Initial(nrx, ntx), events, t)
    ensures Conserved(t.rx.ring, nrx) && Conserved(t.tx.ring, ntx)
  {
    InitialConserved(nrx, ntx);
    RunConserves(c, Initial(nrx, ntx), events, t, nrx, ntx);
  }

  // ------------------------------------------------------------ stranded descriptors

  /** What is stranded in `before` still heads the same queue in `after`. */
  ghost predicate StillStranded(before: Ring, after: Ring) {
    && after.Valid()
    && (before.pre != [] ==> before.pre <= after.pre)
    && (before.post != [] ==> before.post <= after.post)
  }

  /** A read that finds descriptors stranded before the hardware throws, if it
      gets to the ring at all, and adds its own to them. */
  lemma ReadStrands(c: Config, r: Ring, buf: nat, len: nat)
    requires r.Valid()
    ensures StillStranded(r, SubmitRead(c, r, buf, len).0)
    ensures r.pre != [] ==> SubmitRead(c, r, buf, len).1.Threw?
  {
    hide Ring.Valid, Ring.Order;
    if Allocates(c, r, len) {
      var n := c.readCoalesce;
      QueueDistinct(r);
      AllocKeeps(r, n);
      FreeInRange(r);
      var (r1, head) := r.Alloc(n).value;
      ProgramMeaning(c, r1.bds, r.free[..n], 0, buf);
      var (bds, ok) := ProgramBds(c, r1.bds, r.free[..n], 0, buf);
      Reprogram(r1, bds);
      if r.pre == [] && ok {
        ToHwKeeps(r1.(bds := bds), n, head);
      }
    }
  }

  lemma WriteStrands(c: Config, r: Ring, buf: nat, len: nat)
    requires r.Valid()
    ensures StillStranded(r, SubmitWrite(c, r, buf, len).0)
    ensures r.pre != [] ==> SubmitWrite(c, r, buf, len).1.Threw?
  {
    hide Ring.Valid, Ring.Order;
    if r.free != [] {
      QueueDistinct(r);
      AllocKeeps(r, 1);
      FreeInRange(r);
      var (r1, head) := r.Alloc(1).value;
      var bds1 := r1.bds[head := r1.bds[head].(addr := buf)];
      var bds2 := bds1[head := bds1[head].(length := len, ctrl := TX_SINGLE_BD, id := buf)];
      Reprogram(r1, r1.bds);
      Reprogram(r1, bds1);
      Reprogram(r1, bds2);
      if r.pre == [] {
        ToHwKeeps(r1.(bds := bds2), 1, head);
      }
    }
  }

  /** A completion that takes something back and finds a batch stranded behind
      the hardware cannot free it; what it took joins the stranded. */
  lemma TakeBackStrands(r: Ring, limit: nat)
    requires r.Valid()
    ensures var (r1, n) := r.FromHw(limit);
      && n <= |r.hw| && StillStranded(r, r1)
      && (n > 0 ==>
        && (r.post != [] ==> r1.Free(n, r.hw[0]).None?)
        && (r1.Free(n, r.hw[0]).Some? ==> StillStranded(r, r1.Free(n, r.hw[0]).value)))
  {
    hide Ring.Valid, Ring.Order;
    FromHwKeeps(r, limit);
    QueueDistinct(r);
    var (r1, n) := r.FromHw(limit);
    if n > 0 && r1.Free(n, r.hw[0]).Some? {
      FreeKeeps(r1, n, r.hw[0]);
    }
  }

  lemma ReadWaitStrands(c: Config, ch: Channel, intrs: int, ioc: bool)
    requires ch.ring.Valid()
    ensures StillStranded(ch.ring, CompleteRead(c, ch, intrs, ioc).0.ring)
    ensures ch.ring.post != [] && intrs >= 0 && ioc && 0 < Retired(c.readCoalesce, HwBds(ch.ring)) ==>
      CompleteRead(c, ch, intrs, ioc).1.Threw?
  {
    hide Ring.Valid, Ring.Order, Ring.Free;
    var r := ch.ring;
    HwInRange(r);
    ReadyIsDoneCount(r.bds, r.hw);
    TakeBackStrands(r, |r.hw|);
    TakeBackStrands(r, c.readCoalesce);
  }

  lemma WriteWaitStrands(c: Config, ch: Channel, intrs: int)
    requires ch.ring.Valid()
    ensures StillStranded(ch.ring, CompleteWrite(c, ch, intrs).0.ring)
    ensures ch.ring.post != [] && 0 < Retired(c.writeCoalesce, HwBds(ch.ring)) ==>
      CompleteWrite(c, ch, intrs).1.Threw?
  {
    hide Ring.Valid, Ring.Order, Ring.Free;
    var r := ch.ring;
    HwInRange(r);
    ReadyIsDoneCount(r.bds, r.hw);
    TakeBackStrands(r, c.writeCoalesce);
  }

  lemma StepStrands(c: Config, s: State, e: Event)
    requires s.rx.ring.Valid() && s.tx.ring.Valid()
    ensures StillStranded(s.rx.ring, Step(c, s, e).0.rx.ring)
    ensures StillStranded(s.tx.ring, Step(c, s, e).0.tx.ring)
  {
    hide SubmitRead, SubmitWrite, CompleteRead, CompleteWrite, Ring.Valid, Ring.Order;
    match e
    case ReadCall(buf, len) => ReadStrands(c, s.rx.ring, buf, len);
    case WriteCall(buf, len) => WriteStrands(c, s.tx.ring, buf, len);
    case ReadWait(intrs, ioc) => ReadWaitStrands(c, s.rx, intrs, ioc);
    case WriteWait(intrs) => WriteWaitStrands(c, s.tx, intrs);
    case RxHardware(failed, actual) => FinishKeeps(s.rx.ring, failed, actual);
    case TxHardware(failed, actual) => FinishKeeps(s.tx.ring, failed, actual);
  }

  /** The state after a sequence of events, whether calls throw or not. */
  function After(c: Config, s: State, events: seq<Event>): (t: State)
    requires s.rx.ring.Valid() && s.tx.ring.Valid()
    ensures t.rx.ring.Valid() && t.tx.ring.Valid()
    decreases |events|
  {
    if events == [] then s
    else
      StepStrands(c, s, events[0]);
      After(c, Step(c, s, events[0]).0, events[1..])
  }

  /** Stranded for good: nothing that happens later brings those descriptors
      back, short of a new ring. */
  lemma {:induction false} StrandedForGood(c: Config, s: State, events: seq<Event>)
    requires s.rx.ring.Valid() && s.tx.ring.Valid()
    ensures StillStranded(s.rx.ring, After(c, s, events).rx.ring)
    ensures StillStranded(s.tx.ring, After(c, s, events).tx.ring)
    decreases |events|
  {
    hide Step, StillStranded, Ring.Valid;
    StrandedStill(s.rx.ring);
    StrandedStill(s.tx.ring);
    if events != [] {
      StepStrands(c, s, events[0]);
      StillValid(s.rx.ring, Step(c, s, events[0]).0.rx.ring);
      StillValid(s.tx.ring, Step(c, s, events[0]).0.tx.ring);
      var s', t := Step(c, s, events[0]).0, After(c, s, events);
      StrandedForGood(c, s', events[1..]);
      StrandedOn(s.rx.ring, s'.rx.ring, t.rx.ring);
      StrandedOn(s.tx.ring, s'.tx.ring, t.tx.ring);
    }
  }

  lemma StrandedStill(r: Ring)
    requires r.Valid()
    ensures StillStranded(r, r)
  {
  }

  lemma StillValid(before: Ring, after: Ring)
    requires StillStranded(before, after)
    ensures after.Valid()
  {
  }

  lemma StrandedOn(before: Ring, middle: Ring, after: Ring)
    requires StillStranded(before, middle) && StillStranded(middle, after)
    ensures StillStranded(before, after)
  {
  }

  /** Therefore, once a read has stranded its descriptors, every later read that
      gets to the ring throws, after whatever events. */
  lemma LaterReadsThrow(c: Config, s: State, events: seq<Event>, buf: nat, len: nat)
    requires s.rx.ring.Valid() && s.tx.ring.Valid() && s.rx.ring.pre != []
    requires buf != 0 && 0 < len <= FPGA_DMA_BOUNDARY
    ensures AfterRead(c, After(c, s, events).rx.ring, buf, len).1.Threw?
  {
    hide SubmitRead, Step, Ring.Valid;
    StrandedForGood(c, s, events);
    ReadStrands(c, After(c, s, events).rx.ring, buf, len);
  }

  /** And once a completion has stranded a batch, every later completion that
      would take something back throws. */
  lemma LaterCompletionsThrow(c: Config, s: State, events: seq<Event>, intrs: nat)
    requires s.rx.ring.Valid() && s.tx.ring.Valid() && s.rx.ring.post != []
    ensures var ch := After(c, s, events).rx;
      0 < Retired(c.readCoalesce, HwBds(ch.ring)) ==> CompleteRead(c, ch, intrs, true).1.Threw?
  {
    hide CompleteRead, Step, Ring.Valid;
    StrandedForGood(c, s, events);
    ReadWaitStrands(c, After(c, s, events).rx, intrs, true);
  }

  /** The same for the transmit side. */
  lemma LaterWritesThrow(c: Config, s: State, events: seq<Event>, buf: nat, len: nat)
    requires s.rx.ring.Valid() && s.tx.ring.Valid() && s.tx.ring.pre != []
    requires buf != 0 && 0 < len <= FPGA_DMA_BOUNDARY
    ensures AfterWrite(c, After(c, s, events).tx.ring, buf, len).1.Threw?
  {
    hide SubmitWrite, Step, Ring.Valid;
    StrandedForGood(c, s, events);
    WriteStrands(c, After(c, s, events).tx.ring, buf, len);
  }

  lemma LaterWriteCompletionsThrow(c: Config, s: State, events: seq<Event>, intrs: int)
    requires s.rx.ring.Valid() && s.tx.ring.Valid() && s.tx.ring.post != []
    ensures var ch := After(c, s, events).tx;
      0 < Retired(c.writeCoalesce, HwBds(ch.ring)) ==> CompleteWrite(c, ch, intrs).1.Threw?
  {
    hide CompleteWrite, Step, Ring.Valid;
    StrandedForGood(c, s, events);
    WriteWaitStrands(c, After(c, s, events).tx, intrs);
  }

  // ------------------------------------------------------------ too many partial batches

  lemma {:induction false} AfterSnoc(c: Config, s: State, events: seq<Event>, e: Event)
    requires s.rx.ring.Valid() && s.tx.ring.Valid()
    ensures After(c, s, events + [e]) == Step(c, After(c, s, events), e).0
    decreases |events|
  {
    hide Step;
    StepValid(c, s, e);
    if events == [] {
      assert events + [e] == [e] && [e][1..] == [];
      assert After(c, Step(c, s, e).0, []) == Step(c, s, e).0;
    } else {
      StepValid(c, s, events[0]);
      assert (events + [e])[0] == events[0] && (events + [e])[1..] == events[1..] + [e];
      AfterSnoc(c, Step(c, s, events[0]).0, events[1..], e);
    }
  }

  lemma StepValid(c: Config, s: State, e: Event)
    requires s.rx.ring.Valid() && s.tx.ring.Valid()
    ensures Step(c, s, e).0.rx.ring.Valid() && Step(c, s, e).0.tx.ring.Valid()
  {
    hide Step;
    StepStrands(c, s, e);
  }

  /** Descriptors at the front of the receive queue that are done when event `i`
      comes; those of the transmit queue. */
  ghost function RxDone(c: Config, s: State, events: seq<Event>, i: nat): nat
    requires s.rx.ring.Valid() && s.tx.ring.Valid() && i < |events|
  {
    DoneCount(HwBds(After(c, s, events[..i]).rx.ring))
  }

  ghost function TxDone(c: Config, s: State, events: seq<Event>, i: nat): nat
    requires s.rx.ring.Valid() && s.tx.ring.Valid() && i < |events|
  {
    DoneCount(HwBds(After(c, s, events[..i]).tx.ring))
  }

  /** An interrupt came, and it was the expected one. */
  predicate Expected(e: Event) {
    e.ReadWait? && e.intrs >= 0 && e.ioc
  }

  ghost predicate PartialRead(c: Config, s: State, events: seq<Event>, i: nat)
    requires s.rx.ring.Valid() && s.tx.ring.Valid() && i < |events|
  {
    Expected(events[i]) && RxDone(c, s, events, i) < c.readCoalesce
  }

  ghost predicate FullRead(c: Config, s: State, events: seq<Event>, i: nat)
    requires s.rx.ring.Valid() && s.tx.ring.Valid() && i < |events|
  {
    Expected(events[i]) && RxDone(c, s, events, i) >= c.readCoalesce
  }

  ghost predicate PartialWrite(c: Config, s: State, events: seq<Event>, i: nat)
    requires s.rx.ring.Valid() && s.tx.ring.Valid() && i < |events|
  {
    events[i].WriteWait? && TxDone(c, s, events, i) < c.writeCoalesce
  }

  /** Partial read completions among the first `n` events, since the last full one. */
  ghost function PartialReads(c: Config, s: State, events: seq<Event>, n: nat): nat
    requires s.rx.ring.Valid() && s.tx.ring.Valid() && n <= |events|
    decreases n
  {
    if n == 0 || FullRead(c, s, events, n - 1) then 0
    else PartialReads(c, s, events, n - 1) + if PartialRead(c, s, events, n - 1) then 1 else 0
  }

  /** Partial write completions among the first `n` events. */
  ghost function PartialWrites(c: Config, s: State, events: seq<Event>, n: nat): nat
    requires s.rx.ring.Valid() && s.tx.ring.Valid() && n <= |events|
    decreases n
  {
    if n == 0 then 0
    else PartialWrites(c, s, events, n - 1) + if PartialWrite(c, s, events, n - 1) then 1 else 0
  }

  lemma ReadBudgetStep(c: Config, ch: Channel, intrs: int, ioc: bool)
    requires ch.ring.Valid()
    ensures var (ch', res) := CompleteRead(c, ch, intrs, ioc);
      var done := DoneCount(HwBds(ch.ring));
      && (res == Threw(TooManyPartialBatches) <==> intrs >= 0 && ioc && done < c.readCoalesce && ch.errcnt == 0)
      && ch'.errcnt ==
           if intrs < 0 || !ioc then ch.errcnt
           else if done >= c.readCoalesce then ERROR_BUDGET
           else if ch.errcnt == 0 then SIZE_MAX else ch.errcnt - 1
  {
    hide Ring.Valid, Ring.Order, Ring.Free;
    HwInRange(ch.ring);
    ReadyIsDoneCount(ch.ring.bds, ch.ring.hw);
  }

  lemma WriteBudgetStep(c: Config, ch: Channel, intrs: int)
    requires ch.ring.Valid()
    ensures var (ch', res) := CompleteWrite(c, ch, intrs);
      var done := DoneCount(HwBds(ch.ring));
      && (res == Threw(TooManyPartialBatches) <==> done < c.writeCoalesce && ch.errcnt == 0)
      && ch'.errcnt ==
           if done >= c.writeCoalesce then ch.errcnt
           else if ch.errcnt == 0 then SIZE_MAX else ch.errcnt - 1
  {
    hide Ring.Valid, Ring.Order, Ring.Free;
    HwInRange(ch.ring);
    ReadyIsDoneCount(ch.ring.bds, ch.ring.hw);
  }

  /** What is left of the budget after `n` partial batches; it wraps around. */
  ghost function Left(n: nat): nat {
    (32 - n) % (SIZE_MAX + 1)
  }

  lemma LeftNext(n: nat)
    ensures Left(n + 1) == if Left(n) == 0 then SIZE_MAX else Left(n) - 1
    ensures Left(0) == ERROR_BUDGET
    ensures Left(n) == 0 <==> n % 0x1_0000_0000_0000_0000 == 32
  {
  }

  lemma {:induction false} BudgetIsLeft(c: Config, s: State, events: seq<Event>, n: nat)
    requires s.rx.ring.Valid() && s.tx.ring.Valid() && n <= |events|
    requires s.rx.errcnt == s.tx.errcnt == ERROR_BUDGET
    ensures After(c, s, events[..n]).rx.errcnt == Left(PartialReads(c, s, events, n))
    ensures After(c, s, events[..n]).tx.errcnt == Left(PartialWrites(c, s, events, n))
    decreases n
  {
    hide CompleteRead, CompleteWrite, Left, AfterRead, AfterWrite, DoneCount, Ring.Valid;
    LeftNext(0);
    if n > 0 {
      var t, e := After(c, s, events[..n - 1]), events[n - 1];
      BudgetIsLeft(c, s, events, n - 1);
      assert events[..n] == events[..n - 1] + [e];
      AfterSnoc(c, s, events[..n - 1], e);
      LeftNext(PartialReads(c, s, events, n - 1));
      LeftNext(PartialWrites(c, s, events, n - 1));
      if e.ReadWait? {
        ReadBudgetStep(c, t.rx, e.intrs, e.ioc);
      } else if e.WriteWait? {
        WriteBudgetStep(c, t.tx, e.intrs);
      }
    }
  }

  lemma PartialReadThrows(c: Config, s: State, events: seq<Event>, i: nat)
    requires s.rx.ring.Valid() && s.tx.ring.Valid() && s.rx.errcnt == s.tx.errcnt == ERROR_BUDGET
    requires i < |events| && events[i].ReadWait?
    ensures CompleteRead(c, After(c, s, events[..i]).rx, events[i].intrs, events[i].ioc).1 == Threw(TooManyPartialBatches)
      <==> PartialRead(c, s, events, i) && PartialReads(c, s, events, i) % 0x1_0000_0000_0000_0000 == 32
  {
    hide CompleteRead, Left, DoneCount, Ring.Valid, PartialReads, PartialWrites, After, Step;
    BudgetIsLeft(c, s, events, i);
    LeftNext(PartialReads(c, s, events, i));
    ReadBudgetStep(c, After(c, s, events[..i]).rx, events[i].intrs, events[i].ioc);
  }

  lemma PartialWriteThrows(c: Config, s: State, events: seq<Event>, i: nat)
    requires s.rx.ring.Valid() && s.tx.ring.Valid() && s.rx.errcnt == s.tx.errcnt == ERROR_BUDGET
    requires i < |events| && events[i].WriteWait?
    ensures CompleteWrite(c, After(c, s, events[..i]).tx, events[i].intrs).1 == Threw(TooManyPartialBatches)
      <==> PartialWrite(c, s, events, i) && PartialWrites(c, s, events, i) % 0x1_0000_0000_0000_0000 == 32
  {
    hide CompleteWrite, Left, DoneCount, Ring.Valid, PartialReads, PartialWrites, After, Step;
    BudgetIsLeft(c, s, events, i);
    LeftNext(PartialWrites(c, s, events, i));
    WriteBudgetStep(c, After(c, s, events[..i]).tx, events[i].intrs);
  }

  /** From initialisation on, whatever happens: a read completion throws for too
      many partial batches exactly when it is partial and 32 partial ones came
      before it since the last full batch (unless the counter, which wraps around,
      has been through all its values). Time-outs and unexpected interrupts do not
      count. */
  lemma TooManyPartialReads(c: Config, nrx: nat, ntx: nat, events: seq<Event>, i: nat)
    requires i < |events| && events[i].ReadWait?
    ensures var s := Initial(nrx, ntx);
      CompleteRead(c, After(c, s, events[..i]).rx, events[i].intrs, events[i].ioc).1 == Threw(TooManyPartialBatches)
      <==> PartialRead(c, s, events, i) && PartialReads(c, s, events, i) % 0x1_0000_0000_0000_0000 == 32
  {
    hide CompleteRead, PartialRead, PartialReads, After, Ring.Valid;
    PartialReadThrows(c, Initial(nrx, ntx), events, i);
  }

  /** For writes no full batch makes up for the partial ones. */
  lemma TooManyPartialWrites(c: Config, nrx: nat, ntx: nat, events: seq<Event>, i: nat)
    requires i < |events| && events[i].WriteWait?
    ensures var s := Initial(nrx, ntx);
      CompleteWrite(c, After(c, s, events[..i]).tx, events[i].intrs).1 == Threw(TooManyPartialBatches)
      <==> PartialWrite(c, s, events, i) && PartialWrites(c, s, events, i) % 0x1_0000_0000_0000_0000 == 32
  {
    hide CompleteWrite, PartialWrite, PartialWrites, After, Ring.Valid;
    PartialWriteThrows(c, Initial(nrx, ntx), events, i);
  }

  // ------------------------------------------------------------ the driver

  class Dma {
    const c: Config
    var rx: Channel
    var tx: Channel

    ghost predicate Valid()
      reads this
    {
      rx.ring.Valid() && tx.ring.Valid()
    }

    constructor (c: Config)
      ensures this.c == c && Valid()
    {
      this.c := c;
      rx := Channel(Fresh(0), ERROR_BUDGET);
      tx := Channel(Fresh(0), ERROR_BUDGET);
    }

    /** The scatter-gather part of `init`; false stands for the exception. */
    method Init(ringSize: nat) returns (ok: bool)
      modifies this
      ensures ok <==> 2 * c.readCoalesce <= ringSize && 2 * c.writeCoalesce <= ringSize
      ensures ok ==> Conserved(rx.ring, ringSize) && Conserved(tx.ring, ringSize)
      ensures ok ==> HwBds(rx.ring) == [] && HwBds(tx.ring) == []
      ensures ok ==> State(rx, tx) == Initial(ringSize, ringSize) && rx.errcnt == tx.errcnt == 32
      ensures !ok ==> unchanged(this)
    {
      if ringSize < 2 * c.readCoalesce || ringSize < 2 * c.writeCoalesce {
        return false;
      }
      FreshValid(ringSize);
      rx := Channel(Fresh(ringSize), ERROR_BUDGET);
      tx := Channel(Fresh(ringSize), ERROR_BUDGET);
      return true;
    }

    method Read(buf: nat, len: nat) returns (res: Result<bool>)
      requires Valid()
      modifies `rx
      ensures Valid() && rx.errcnt == old(rx.errcnt)
      ensures (rx.ring, res) == AfterRead(c, old(rx.ring), buf, len)
    {
      if len == 0 {
        return Returned(true);
      }
      if len > FPGA_DMA_BOUNDARY {
        return Returned(false);
      }
      if buf == 0 {
        return Threw(Refused);
      }
      res := ReadScatterGather(buf, len);
    }

    method ReadScatterGather(buf: nat, len: nat) returns (res: Result<bool>)
      requires Valid()
      modifies `rx
      ensures Valid() && rx.errcnt == old(rx.errcnt)
      ensures (rx.ring, res) == SubmitRead(c, old(rx.ring), buf, len)
    {
      if len < c.readCoalesce * c.readMsgSize {
        return Threw(Refused);
      }
      hide Ring.Valid, Ring.Order, ProgramBds;
      var n := c.readCoalesce;
      var got := rx.ring.Alloc(n);
      if got.None? {
        return Threw(Refused);
      }
      ghost var before := rx.ring;
      var bd := got.value.1;
      rx := rx.(ring := got.value.0);
      var ok := ProgramBatch(before, bd, buf);
      if !ok {
        return Threw(Refused);
      }
      var handed := rx.ring.ToHw(n, bd);
      if handed.None? {
        return Threw(Refused);
      }
      ToHwKeeps(rx.ring, n, bd);
      rx := rx.(ring := handed.value);
      return Returned(true);
    }

    /** The loop of `readScatterGather` over the allocated descriptors. */
    method ProgramBatch(ghost before: Ring, bd: nat, buf: nat) returns (ok: bool)
      requires before.Valid() && before.Alloc(c.readCoalesce) == Some((rx.ring, bd))
      modifies `rx
      ensures forall k | 0 <= k < c.readCoalesce :: before.free[k] < |before.bds|
      ensures var (bds, programmed) := ProgramBds(c, before.bds, before.free[..c.readCoalesce], 0, buf);
        && ok == programmed && rx == old(rx).(ring := old(rx).ring.(bds := bds))
      ensures rx.ring.Valid()
    {
      FreeInRange(before);
      AllocKeeps(before, c.readCoalesce);
      hide Ring.Valid, Ring.Order;
      ghost var slots := before.free[..c.readCoalesce];
      ghost var reserved := rx.ring;
      var curBd, curBuf := bd, buf;
      for i := 0 to c.readCoalesce
        invariant rx == old(rx).(ring := reserved.(bds := rx.ring.bds)) && |rx.ring.bds| == |before.bds|
        invariant i < c.readCoalesce ==> curBd == slots[i]
        invariant curBuf == buf + i * c.readMsgSize
        invariant ProgramBds(c, rx.ring.bds, slots, i, buf) == ProgramBds(c, before.bds, slots, 0, buf)
      {
        if !c.AddrOk(curBuf) {
          Reprogram(reserved, rx.ring.bds);
          return false;
        }
        rx := rx.(ring := rx.ring.(bds := rx.ring.bds[curBd := rx.ring.bds[curBd].(addr := curBuf)]));
        if !c.LengthOk(c.readMsgSize) {
          Reprogram(reserved, rx.ring.bds);
          return false;
        }
        rx := rx.(ring := rx.ring.(bds := rx.ring.bds[curBd :=
          rx.ring.bds[curBd].(length := c.readMsgSize, ctrl := 0, id := buf)]));
        curBuf := curBuf + c.readMsgSize;
        if i + 1 < c.readCoalesce {
          FreeNext(before, i);
        }
        curBd := rx.ring.Next(curBd);
      }
      Reprogram(reserved, rx.ring.bds);
      return true;
    }

    method Write(buf: nat, len: nat) returns (res: Result<bool>)
      requires Valid()
      modifies `tx
      ensures Valid() && tx.errcnt == old(tx.errcnt)
      ensures (tx.ring, res) == AfterWrite(c, old(tx.ring), buf, len)
    {
      if len == 0 {
        return Returned(true);
      }
      if len > FPGA_DMA_BOUNDARY {
        return Returned(false);
      }
      if buf == 0 {
        return Threw(Refused);
      }
      res := WriteScatterGather(buf, len);
    }

    method WriteScatterGather(buf: nat, len: nat) returns (res: Result<bool>)
      requires Valid()
      modifies `tx
      ensures Valid() && tx.errcnt == old(tx.errcnt)
      ensures (tx.ring, res) == SubmitWrite(c, old(tx.ring), buf, len)
    {
      var got := tx.ring.Alloc(1);
      if got.None? {
        return Threw(Refused);
      }
      FreeInRange(tx.ring);
      AllocKeeps(tx.ring, 1);
      var bd := got.value.1;
      tx := tx.(ring := got.value.0);
      ghost var reserved := tx.ring;
      if !c.AddrOk(buf) {
        return Threw(Refused);
      }
      tx := tx.(ring := tx.ring.(bds := tx.ring.bds[bd := tx.ring.bds[bd].(addr := buf)]));
      Reprogram(reserved, tx.ring.bds);
      if !c.LengthOk(len) {
        return Threw(Refused);
      }
      tx := tx.(ring := tx.ring.(bds := tx.ring.bds[bd :=
        tx.ring.bds[bd].(length := len, ctrl := TX_SINGLE_BD, id := buf)]));
      Reprogram(reserved, tx.ring.bds);
      var handed := tx.ring.ToHw(1, bd);
      if handed.None? {
        return Threw(Refused);
      }
      ToHwKeeps(tx.ring, 1, bd);
      tx := tx.(ring := handed.value);
      return Returned(true);
    }

    method ReadComplete(intrs: int, ioc: bool) returns (res: Result<Completion>)
      requires Valid()
      modifies `rx
      ensures (rx, res) == CompleteRead(c, old(rx), intrs, ioc)
    {
      hide Ring.Valid, Ring.Order, Complete;
      var before := rx.ring;
      if intrs < 0 {
        var (after, n) := before.FromHw(|before.hw|);
        CompleteBound(before.bds, before.hw);
        var freed := if n == 0 then Some(after) else after.Free(n, before.hw[0]);
        rx := rx.(ring := if freed.Some? then freed.value else after);
        return Returned(Completion(0, 0, 0));
      }
      if !ioc {
        return Returned(Completion(0, 0, intrs));
      }
      var (after, n) := before.FromHw(c.readCoalesce);
      rx := rx.(ring := after);
      if n < c.readCoalesce {
        if rx.errcnt == 0 {
          rx := rx.(errcnt := SIZE_MAX);
          return Threw(TooManyPartialBatches);
        }
        rx := rx.(errcnt := rx.errcnt - 1);
      } else {
        rx := rx.(errcnt := ERROR_BUDGET);
      }
      if n == 0 {
        return Returned(Completion(0, 0, intrs));
      }
      CompleteBound(before.bds, before.hw);
      var bytes, failed := SumHead(before, n, before.bds[before.hw[0]].actual);
      if failed {
        return Threw(DescriptorError);
      }
      var freed := after.Free(n, before.hw[0]);
      if freed.None? {
        return Threw(Refused);
      }
      rx := rx.(ring := freed.value);
      return Returned(Completion(bytes, n, intrs));
    }

    method WriteComplete(intrs: int) returns (res: Result<Completion>)
      requires Valid()
      modifies `tx
      ensures (tx, res) == CompleteWrite(c, old(tx), intrs)
    {
      hide Ring.Valid, Ring.Order, Complete;
      var before := tx.ring;
      var (after, n) := before.FromHw(c.writeCoalesce);
      tx := tx.(ring := after);
      if n < c.writeCoalesce {
        if tx.errcnt == 0 {
          tx := tx.(errcnt := SIZE_MAX);
          return Threw(TooManyPartialBatches);
        }
        tx := tx.(errcnt := tx.errcnt - 1);
      }
      if n == 0 {
        return Returned(Completion(0, 0, ToSizeT(intrs)));
      }
      CompleteBound(before.bds, before.hw);
      var bytes, failed := SumHead(before, n, before.bds[before.hw[0]].length);
      if failed {
        return Threw(DescriptorError);
      }
      var freed := after.Free(n, before.hw[0]);
      if freed.None? {
        return Threw(Refused);
      }
      tx := tx.(ring := freed.value);
      return Returned(Completion(bytes, n, ToSizeT(intrs)));
    }

    /** The status loop both completions share: it walks over the batch, checks
        every status word and adds up the length of the head each time. */
    method SumHead(r: Ring, n: nat, ofHead: nat) returns (bytes: nat, failed: bool)
      requires r.Valid() && 0 < n <= |r.hw| && (forall i | 0 <= i < n :: r.hw[i] < |r.bds| && r.bds[r.hw[i]].done)
      ensures failed <==> AnyFailed(r.bds, r.hw[..n])
      ensures !failed ==> bytes == n * ofHead
    {
      bytes := 0;
      var curBd := r.hw[0];
      for i := 0 to n
        invariant i < n ==> curBd == r.hw[i]
        invariant bytes == i * ofHead
        invariant forall k | 0 <= k < i :: !r.bds[r.hw[k]].failed
      {
        var bd := r.bds[curBd];
        if bd.failed || !bd.done {
          assert r.hw[..n][i] in r.hw[..n];
          return bytes, true;
        }
        bytes := bytes + ofHead;
        if i + 1 < n {
          HwNext(r, i);
        }
        curBd := r.Next(curBd);
      }
      failed := false;
    }
  }

  lemma FreeNext(r: Ring, i: nat)
    requires r.Valid() && i + 1 < |r.free|
    ensures r.Next(r.free[i]) == r.free[i + 1]
  {
    var k := |r.post| + |r.hw| + |r.pre|;
    assert r.Order()[k + i] == r.free[i] && r.Order()[k + i + 1] == r.free[i + 1];
    NextInOrder(r, k + i);
  }

  lemma HwNext(r: Ring, i: nat)
    requires r.Valid() && i + 1 < |r.hw|
    ensures r.Next(r.hw[i]) == r.hw[i + 1]
  {
    var k := |r.post|;
    assert r.Order()[k + i] == r.hw[i] && r.Order()[k + i + 1] == r.hw[i + 1];
    NextInOrder(r, k + i);
  }
}
