/** The buffer-descriptor ring of the DMA engine, as the driver sees it:
    descriptors move Free -> Pre -> Hw -> Post -> Free, always from the front of
    one queue to the back of the next. */
module BdRing {
  import opened Text

  /** A buffer descriptor. `done`, `failed` and `actual` are written by hardware. */
  datatype Bd = Bd(addr: nat, length: nat, ctrl: nat, id: nat, done: bool, failed: bool, actual: nat)

  const BLANK := Bd(0, 0, 0, 0, false, false, 0)

  type Slots = seq<nat>

  datatype Ring = Ring(bds: seq<Bd>, free: Slots, pre: Slots, hw: Slots, post: Slots) {

    /** All slots in the order in which they will be reused. */
    function Order(): Slots {
      post + hw + pre + free
    }

    function Size(): nat {
      |bds|
    }

    /** `XAxiDma_BdRingNext` */
    function Next(slot: nat): nat {
      if slot + 1 >= Size() then 0 else slot + 1
    }

    function Around(position: nat): nat {
      if position < Size() then position else position - Size()
    }

    /** Every descriptor is in exactly one queue, and the queues together run
        once around the ring. */
    ghost predicate Valid() {
      var o := Order();
      && |o| == Size()
      && (o != [] ==> o[0] < Size())
      && (forall i | 0 <= i < |o| :: o[i] == Around(o[0] + i))
    }

    /** Nothing is stranded between the driver and the hardware. */
    predicate Settled() {
      pre == [] && post == []
    }

    // ---------------------------------------------------------- driver calls

    /** `XAxiDma_BdRingAlloc`: None when fewer than `n` descriptors are free. */
    function Alloc(n: nat): Option<(Ring, nat)> {
      if n == 0 || n > |free| then None
      else Some((this.(pre := pre + free[..n], free := free[n..]), free[0]))
    }

    /** `XAxiDma_BdRingToHw`: the set must be the oldest allocated one. The
        status words of the submitted descriptors are wiped. */
    function ToHw(n: nat, head: nat): Option<Ring> {
      if n == 0 || n > |pre| || pre[0] != head then None
      else Some(this.(bds := Wiped(bds, pre[..n]), hw := hw + pre[..n], pre := pre[n..]))
    }

    /** How many descriptors at the front of the hardware queue are complete. */
    function Ready(): nat {
      Complete(bds, hw)
    }

    /** `XAxiDma_BdRingFromHw`: at most `limit` completed descriptors. */
    function FromHw(limit: nat): (Ring, nat)
      ensures Complete(bds, hw) <= |hw|
    {
      CompleteBound(bds, hw);
      var n := if Ready() < limit then Ready() else limit;
      (this.(post := post + hw[..n], hw := hw[n..]), n)
    }

    /** `XAxiDma_BdRingFree` */
    function Free(n: nat, head: nat): Option<Ring> {
      if n == 0 then Some(this)
      else if n > |post| || post[0] != head then None
      else Some(this.(free := free + post[..n], post := post[n..]))
    }

    // ---------------------------------------------------------- hardware

    /** The engine finishes the oldest descriptor it still works on. */
    function Finish(failed: bool, actual: nat): Ring {
      CompleteBound(bds, hw);
      if Ready() == |hw| || hw[Ready()] >= |bds| then this
      else
        var slot := hw[Ready()];
        this.(bds := bds[slot := bds[slot].(done := true, failed := failed, actual := actual)])
    }
  }

  function Wiped(bds: seq<Bd>, slots: Slots): (r: seq<Bd>)
    ensures |r| == |bds|
    ensures forall i | 0 <= i < |bds| ::
      r[i] == if i in slots then bds[i].(done := false, failed := false, actual := 0) else bds[i]
  {
    seq(|bds|, i requires 0 <= i < |bds| =>
      if i in slots then bds[i].(done := false, failed := false, actual := 0) else bds[i])
  }

  function Complete(bds: seq<Bd>, hw: Slots): nat {
    if hw == [] || hw[0] >= |bds| || !bds[hw[0]].done then 0 else 1 + Complete(bds, hw[1..])
  }

  lemma {:induction false} CompleteBound(bds: seq<Bd>, hw: Slots)
    ensures Complete(bds, hw) <= |hw|
    ensures forall i | 0 <= i < Complete(bds, hw) :: hw[i] < |bds| && bds[hw[i]].done
    ensures Complete(bds, hw) < |hw| ==>
      var s := hw[Complete(bds, hw)]; s < |bds| ==> !bds[s].done
    decreases |hw|
  {
    if hw != [] && hw[0] < |bds| && bds[hw[0]].done {
      CompleteBound(bds, hw[1..]);
      forall i | 0 <= i < Complete(bds, hw) ensures hw[i] < |bds| && bds[hw[i]].done {
        if i > 0 {
          assert hw[i] == hw[1..][i - 1];
        }
      }
    }
  }

  /** A freshly created ring: everything is free. */
  function Fresh(n: nat): Ring {
    Ring(seq(n, _ => BLANK), seq(n, i => i), [], [], [])
  }

  lemma FreshValid(n: nat)
    ensures Fresh(n).Valid() && Fresh(n).Settled()
  {
  }

  /** The driver's way of walking over a batch follows the order of the ring. */
  lemma NextInOrder(r: Ring, i: nat)
    requires r.Valid() && i + 1 < |r.Order()|
    ensures r.Next(r.Order()[i]) == r.Order()[i + 1]
  {
  }

  /** No slot occurs twice: the queues own disjoint sets of descriptors. */
  lemma SlotsDistinct(r: Ring, i: nat, j: nat)
    requires r.Valid() && i < j < |r.Order()|
    ensures r.Order()[i] != r.Order()[j]
  {
  }
}
