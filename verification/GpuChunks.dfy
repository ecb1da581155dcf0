/** GPU memory: chunks bought from the driver, cut into blocks by bump allocation. */
module GpuChunks {
  import opened Text

  const PAGE: nat := 0x1_0000
  const SIZE_T: nat := 0x1_0000_0000_0000_0000

  /** The rounded-up chunk size, in the arithmetic of `size_t`. */
  function ChunkSize(size: nat): nat {
    (size - size % PAGE + PAGE) % SIZE_T
  }

  /** A new chunk is a multiple of the page and larger than the request, by one
      page at most, exactly unless the rounding wraps around to zero. */
  lemma ChunkSizeMeaning(size: nat)
    requires size < SIZE_T
    ensures size < ChunkSize(size) <= size + PAGE && ChunkSize(size) % PAGE == 0 <==> size < SIZE_T - PAGE
    ensures size >= SIZE_T - PAGE ==> ChunkSize(size) == 0
  {
    var pages := size / PAGE;
    assert size - size % PAGE == PAGE * pages;
    if size < SIZE_T - PAGE {
      assert pages < 0xFFFF_FFFF_FFFF;
      assert ChunkSize(size) == PAGE * (pages + 1);
    } else {
      assert pages == 0xFFFF_FFFF_FFFF;
    }
  }

  /** A linear allocator: everything below `used` has been given out. */
  datatype Chunk = Chunk(base: nat, size: nat, used: nat) {
    function Available(): int {
      size - used
    }
  }

  datatype Block = Block(base: nat, size: nat)

  /** `chunks` newest first, `blocks` in the order they were given out. */
  datatype Pool = Pool(chunks: seq<Chunk>, blocks: seq<Block>)

  /** A block, an exhausted device, or a call that has used up all the answers
      of the driver and asks for another chunk. */
  datatype Outcome = Given(block: Block) | BadAlloc | StillAsking

  function FirstFit(chunks: seq<Chunk>, size: nat): nat {
    if chunks == [] || chunks[0].Available() >= size then 0 else 1 + FirstFit(chunks[1..], size)
  }

  lemma {:induction false} FirstFitMeaning(chunks: seq<Chunk>, size: nat)
    ensures FirstFit(chunks, size) <= |chunks|
    ensures forall i | 0 <= i < FirstFit(chunks, size) :: chunks[i].Available() < size
    ensures FirstFit(chunks, size) < |chunks| ==> chunks[FirstFit(chunks, size)].Available() >= size
  {
    if chunks != [] && chunks[0].Available() < size {
      FirstFitMeaning(chunks[1..], size);
      forall i | 0 <= i < FirstFit(chunks, size) ensures chunks[i].Available() < size {
        if i > 0 {
          assert chunks[i] == chunks[1..][i - 1];
        }
      }
    }
  }

  function Cut(pool: Pool, k: nat, size: nat): (Pool, Outcome)
    requires k < |pool.chunks|
  {
    var c := pool.chunks[k];
    var block := Block(c.base + c.used, size);
    (Pool(pool.chunks[k := c.(used := c.used + size)], pool.blocks + [block]), Given(block))
  }

  function Bought(pool: Pool, size: nat, base: nat): Pool {
    pool.(chunks := [Chunk(base, ChunkSize(size), 0)] + pool.chunks)
  }

  /** `allocateBlock`, which calls itself after buying a chunk. `offers` are the
      answers of the driver, one for each chunk asked for: where it is, or None. */
  function AfterAllocate(pool: Pool, size: nat, offers: seq<Option<nat>>): (Pool, Outcome)
    decreases |offers|
  {
    FirstFitMeaning(pool.chunks, size);
    var k := FirstFit(pool.chunks, size);
    if k < |pool.chunks| then Cut(pool, k, size)
    else if offers == [] then (pool, StillAsking)
    else if offers[0].None? then (pool, BadAlloc)
    else AfterAllocate(Bought(pool, size, offers[0].value), size, offers[1..])
  }

  predicate HasRoom(pool: Pool, size: nat) {
    exists i | 0 <= i < |pool.chunks| :: pool.chunks[i].Available() >= size
  }

  lemma FitsIffRoom(pool: Pool, size: nat)
    ensures FirstFit(pool.chunks, size) <= |pool.chunks|
    ensures FirstFit(pool.chunks, size) < |pool.chunks| <==> HasRoom(pool, size)
  {
    FirstFitMeaning(pool.chunks, size);
  }

  lemma BoughtRoom(pool: Pool, size: nat, base: nat)
    requires size < SIZE_T && !HasRoom(pool, size)
    ensures HasRoom(Bought(pool, size, base), size) <==> size < SIZE_T - PAGE
  {
    ChunkSizeMeaning(size);
    var chunks := Bought(pool, size, base).chunks;
    assert chunks[0].Available() == ChunkSize(size);
    assert forall i | 1 <= i < |chunks| :: chunks[i] == pool.chunks[i - 1];
  }

  /** How many chunks in a row the driver grants. */
  function Granted(offers: seq<Option<nat>>): (n: nat)
    ensures n <= |offers|
  {
    if offers == [] || offers[0].None? then 0 else 1 + Granted(offers[1..])
  }

  /** Without wrap-around the recursion goes one level deep: the first chunk has
      room, and no second answer of the driver is looked at. */
  lemma OneChunkIsEnough(pool: Pool, size: nat, offers: seq<Option<nat>>)
    requires size < SIZE_T - PAGE && offers != []
    ensures AfterAllocate(pool, size, offers) == AfterAllocate(pool, size, offers[..1])
    ensures AfterAllocate(pool, size, offers).1 != StillAsking
  {
    FitsIffRoom(pool, size);
    if !HasRoom(pool, size) && offers[0].Some? {
      BoughtRoom(pool, size, offers[0].value);
      FitsIffRoom(Bought(pool, size, offers[0].value), size);
    }
  }

  /** With wrap-around no number of chunks is: they pile up until the driver
      refuses the next one. */
  lemma {:induction false} NoChunkIsEnough(pool: Pool, size: nat, offers: seq<Option<nat>>)
    requires SIZE_T - PAGE <= size < SIZE_T && !HasRoom(pool, size)
    ensures var (pool', outcome) := AfterAllocate(pool, size, offers);
      && outcome == (if Granted(offers) == |offers| then StillAsking else BadAlloc)
      && pool'.blocks == pool.blocks && |pool'.chunks| == |pool.chunks| + Granted(offers)
    decreases |offers|
  {
    FitsIffRoom(pool, size);
    if offers != [] && offers[0].Some? {
      BoughtRoom(pool, size, offers[0].value);
      NoChunkIsEnough(Bought(pool, size, offers[0].value), size, offers[1..]);
    }
  }

  function FirstOffers(offers: nat -> Option<nat>, n: nat): seq<Option<nat>> {
    seq(n, i requires 0 <= i => offers(i))
  }

  lemma {:induction false} GrantedAll(offers: seq<Option<nat>>)
    ensures Granted(offers) == |offers| <==> forall i | 0 <= i < |offers| :: offers[i].Some?
  {
    if offers != [] {
      GrantedAll(offers[1..]);
      assert forall i | 1 <= i < |offers| :: offers[i] == offers[1..][i - 1];
    }
  }

  /** The recursion has no end exactly when no chunk has room, the rounding wraps
      around, and the driver grants every chunk it is asked for. */
  lemma DivergesIff(pool: Pool, size: nat, offers: nat -> Option<nat>)
    requires size < SIZE_T
    ensures (forall n: nat :: AfterAllocate(pool, size, FirstOffers(offers, n)).1 == StillAsking)
       <==> !HasRoom(pool, size) && size >= SIZE_T - PAGE && forall n: nat :: offers(n).Some?
  {
    hide ChunkSize, HasRoom;
    FitsIffRoom(pool, size);
    if forall n: nat :: AfterAllocate(pool, size, FirstOffers(offers, n)).1 == StillAsking {
      assert AfterAllocate(pool, size, FirstOffers(offers, 0)).1 == StillAsking;
      assert AfterAllocate(pool, size, FirstOffers(offers, 1)).1 == StillAsking;
      if size < SIZE_T - PAGE {
        OneChunkIsEnough(pool, size, FirstOffers(offers, 1));
      }
      forall n: nat ensures offers(n).Some? {
        assert AfterAllocate(pool, size, FirstOffers(offers, n + 1)).1 == StillAsking;
        NoChunkIsEnough(pool, size, FirstOffers(offers, n + 1));
        GrantedAll(FirstOffers(offers, n + 1));
        assert FirstOffers(offers, n + 1)[n] == offers(n);
      }
    }
    if !HasRoom(pool, size) && size >= SIZE_T - PAGE && forall n: nat :: offers(n).Some? {
      forall n: nat ensures AfterAllocate(pool, size, FirstOffers(offers, n)).1 == StillAsking {
        NoChunkIsEnough(pool, size, FirstOffers(offers, n));
        GrantedAll(FirstOffers(offers, n));
      }
    }
  }

  // ------------------------------------------------------------ what is kept

  predicate Apart(a: nat, n: nat, b: nat, m: nat) {
    a + n <= b || b + m <= a
  }

  predicate Inside(b: Block, c: Chunk) {
    c.base <= b.base && b.base + b.size <= c.base + c.used
  }

  ghost predicate Housed(b: Block, chunks: seq<Chunk>) {
    exists k :: 0 <= k < |chunks| && Inside(b, chunks[k])
  }

  ghost predicate Sound(pool: Pool) {
    && (forall i | 0 <= i < |pool.chunks| :: pool.chunks[i].used <= pool.chunks[i].size)
    && (forall i, j | 0 <= i < j < |pool.chunks| ::
          Apart(pool.chunks[i].base, pool.chunks[i].size, pool.chunks[j].base, pool.chunks[j].size))
    && (forall i | 0 <= i < |pool.blocks| :: Housed(pool.blocks[i], pool.chunks))
    && (forall i, j | 0 <= i < j < |pool.blocks| ::
          Apart(pool.blocks[i].base, pool.blocks[i].size, pool.blocks[j].base, pool.blocks[j].size))
  }

  /** The driver never places a chunk over one it has handed out. */
  ghost predicate Offered(pool: Pool, size: nat, offers: seq<Option<nat>>)
    decreases |offers|
  {
    !HasRoom(pool, size) && offers != [] && offers[0].Some? ==>
      && (forall i | 0 <= i < |pool.chunks| ::
            Apart(offers[0].value, ChunkSize(size), pool.chunks[i].base, pool.chunks[i].size))
      && Offered(Bought(pool, size, offers[0].value), size, offers[1..])
  }

  lemma CutSound(pool: Pool, k: nat, size: nat)
    requires Sound(pool) && k < |pool.chunks| && pool.chunks[k].Available() >= size
    ensures Sound(Cut(pool, k, size).0)
  {
    var c, pool' := pool.chunks[k], Cut(pool, k, size).0;
    var block := Block(c.base + c.used, size);
    forall i | 0 <= i < |pool'.blocks| ensures Housed(pool'.blocks[i], pool'.chunks) {
      if i < |pool.blocks| {
        assert Housed(pool.blocks[i], pool.chunks);
        var j :| 0 <= j < |pool.chunks| && Inside(pool.blocks[i], pool.chunks[j]);
        assert Inside(pool'.blocks[i], pool'.chunks[j]);
      } else {
        assert Inside(block, pool'.chunks[k]);
      }
    }
    forall i | 0 <= i < |pool.blocks| ensures Apart(pool.blocks[i].base, pool.blocks[i].size, block.base, size) {
      assert Housed(pool.blocks[i], pool.chunks);
      var j :| 0 <= j < |pool.chunks| && Inside(pool.blocks[i], pool.chunks[j]);
      if j < k {
        assert Apart(pool.chunks[j].base, pool.chunks[j].size, c.base, c.size);
      } else if k < j {
        assert Apart(c.base, c.size, pool.chunks[j].base, pool.chunks[j].size);
      }
    }
  }

  lemma GrowSound(pool: Pool, base: nat, size: nat)
    requires Sound(pool)
    requires forall i | 0 <= i < |pool.chunks| :: Apart(base, size, pool.chunks[i].base, pool.chunks[i].size)
    ensures Sound(pool.(chunks := [Chunk(base, size, 0)] + pool.chunks))
  {
    var chunks := [Chunk(base, size, 0)] + pool.chunks;
    forall i | 0 <= i < |pool.blocks| ensures Housed(pool.blocks[i], chunks) {
      assert Housed(pool.blocks[i], pool.chunks);
      var j :| 0 <= j < |pool.chunks| && Inside(pool.blocks[i], pool.chunks[j]);
      assert Inside(pool.blocks[i], chunks[j + 1]);
    }
  }

  lemma {:induction false} AllocateSound(pool: Pool, size: nat, offers: seq<Option<nat>>)
    requires Sound(pool) && Offered(pool, size, offers)
    ensures Sound(AfterAllocate(pool, size, offers).0)
    decreases |offers|
  {
    FirstFitMeaning(pool.chunks, size);
    FitsIffRoom(pool, size);
    var k := FirstFit(pool.chunks, size);
    if k < |pool.chunks| {
      CutSound(pool, k, size);
    } else if offers != [] && offers[0].Some? {
      GrowSound(pool, offers[0].value, ChunkSize(size));
      AllocateSound(Bought(pool, size, offers[0].value), size, offers[1..]);
    }
  }

  datatype Request = Request(size: nat, offers: seq<Option<nat>>)

  function Run(requests: seq<Request>): Pool {
    if requests == [] then Pool([], [])
    else
      var n := |requests| - 1;
      AfterAllocate(Run(requests[..n]), requests[n].size, requests[n].offers).0
  }

  lemma {:induction false} RunIsSound(requests: seq<Request>)
    requires forall i | 0 <= i < |requests| :: Offered(Run(requests[..i]), requests[i].size, requests[i].offers)
    ensures Sound(Run(requests))
  {
    if requests != [] {
      var n := |requests| - 1;
      forall i | 0 <= i < n
        ensures Offered(Run(requests[..n][..i]), requests[..n][i].size, requests[..n][i].offers) {
        assert requests[..n][..i] == requests[..i];
      }
      RunIsSound(requests[..n]);
      AllocateSound(Run(requests[..n]), requests[n].size, requests[n].offers);
    }
  }

  /** Over any run of allocations, blocks never overlap, and every block that is
      not empty lies in one chunk and overlaps no other. */
  lemma {:induction false} BlocksLieInOneChunk(requests: seq<Request>, b: nat, i: nat, j: nat)
    requires forall i | 0 <= i < |requests| :: Offered(Run(requests[..i]), requests[i].size, requests[i].offers)
    requires var pool := Run(requests);
      b < |pool.blocks| && pool.blocks[b].size > 0 && i < |pool.chunks| && j < |pool.chunks|
    requires Inside(Run(requests).blocks[b], Run(requests).chunks[i])
    ensures Housed(Run(requests).blocks[b], Run(requests).chunks)
    ensures var pool := Run(requests);
      Apart(pool.blocks[b].base, pool.blocks[b].size, pool.chunks[j].base, pool.chunks[j].size) <==> i != j
  {
    RunIsSound(requests);
    var pool := Run(requests);
    if i < j {
      assert Apart(pool.chunks[i].base, pool.chunks[i].size, pool.chunks[j].base, pool.chunks[j].size);
    } else if j < i {
      assert Apart(pool.chunks[j].base, pool.chunks[j].size, pool.chunks[i].base, pool.chunks[i].size);
    }
  }

  /** The caller's view. It gets a block of the size asked for, and only that one
      is new; it is refused exactly when no chunk has room and the driver refuses
      the first chunk, or, with wrap-around, any; and chunks are bought only when
      none has room, one at most unless the size wraps around. */
  lemma AllocateMeaning(pool: Pool, size: nat, offers: seq<Option<nat>>)
    requires size < SIZE_T
    ensures var (pool', outcome) := AfterAllocate(pool, size, offers);
      var room, wraps, granted := HasRoom(pool, size), size >= SIZE_T - PAGE, Granted(offers);
      && (outcome.Given? ==> outcome.block.size == size && pool'.blocks == pool.blocks + [outcome.block])
      && (!outcome.Given? ==> pool'.blocks == pool.blocks)
      && (outcome.BadAlloc? <==> !room && granted < |offers| && (granted == 0 || wraps))
      && |pool'.chunks| == |pool.chunks| + (if room then 0 else if wraps || granted == 0 then granted else 1)
  {
    hide ChunkSize, HasRoom;
    FitsIffRoom(pool, size);
    if !HasRoom(pool, size) && offers != [] && offers[0].Some? {
      if size >= SIZE_T - PAGE {
        NoChunkIsEnough(pool, size, offers);
      } else {
        BoughtRoom(pool, size, offers[0].value);
        FitsIffRoom(Bought(pool, size, offers[0].value), size);
      }
    }
  }

  function Used(chunks: seq<Chunk>): nat {
    if chunks == [] then 0 else chunks[0].used + Used(chunks[1..])
  }

  function Size(blocks: seq<Block>): nat {
    if blocks == [] then 0 else Size(blocks[..|blocks| - 1]) + blocks[|blocks| - 1].size
  }

  lemma {:induction false} UsedMore(chunks: seq<Chunk>, k: nat, c: Chunk)
    requires k < |chunks|
    ensures Used(chunks[k := c]) == Used(chunks) - chunks[k].used + c.used
  {
    if k > 0 {
      UsedMore(chunks[1..], k - 1, c);
      assert chunks[k := c][1..] == chunks[1..][k - 1 := c];
    } else {
      assert chunks[0 := c][1..] == chunks[1..];
    }
  }

  lemma CutUses(pool: Pool, k: nat, size: nat)
    requires k < |pool.chunks|
    ensures var pool' := Cut(pool, k, size).0;
      Used(pool'.chunks) - Size(pool'.blocks) == Used(pool.chunks) - Size(pool.blocks)
  {
    var c := pool.chunks[k];
    UsedMore(pool.chunks, k, c.(used := c.used + size));
    assert (pool.blocks + [Block(c.base + c.used, size)])[..|pool.blocks|] == pool.blocks;
  }

  lemma {:induction false} AllocateUses(pool: Pool, size: nat, offers: seq<Option<nat>>)
    ensures var pool' := AfterAllocate(pool, size, offers).0;
      Used(pool'.chunks) - Size(pool'.blocks) == Used(pool.chunks) - Size(pool.blocks)
    decreases |offers|
  {
    FirstFitMeaning(pool.chunks, size);
    var k := FirstFit(pool.chunks, size);
    if k < |pool.chunks| {
      CutUses(pool, k, size);
    } else if offers != [] && offers[0].Some? {
      var grown := Bought(pool, size, offers[0].value);
      assert grown.chunks[1..] == pool.chunks;
      AllocateUses(grown, size, offers[1..]);
    }
  }

  /** Conservation: what the chunks count as used is what was handed out. */
  lemma {:induction false} UsedIsGiven(requests: seq<Request>)
    ensures Used(Run(requests).chunks) == Size(Run(requests).blocks)
  {
    if requests != [] {
      var n := |requests| - 1;
      UsedIsGiven(requests[..n]);
      AllocateUses(Run(requests[..n]), requests[n].size, requests[n].offers);
    }
  }

  // ------------------------------------------------------------ the allocator

  class GpuAllocator {
    var chunks: seq<Chunk>
    ghost var blocks: seq<Block>

    constructor ()
      ensures chunks == [] && blocks == []
    {
      chunks := [];
      blocks := [];
    }

    method AllocateBlock(size: nat, offers: seq<Option<nat>>) returns (outcome: Outcome)
      modifies this
      ensures (Pool(chunks, blocks), outcome) == AfterAllocate(old(Pool(chunks, blocks)), size, offers)
      decreases |offers|
    {
      var k := 0;
      while k < |chunks| && chunks[k].Available() < size
        invariant 0 <= k <= |chunks|
        invariant FirstFit(chunks, size) == k + FirstFit(chunks[k..], size)
      {
        assert chunks[k..][1..] == chunks[k + 1..];
        k := k + 1;
      }
      if k < |chunks| {
        var c := chunks[k];
        var block := Block(c.base + c.used, size);
        chunks := chunks[k := c.(used := c.used + size)];
        blocks := blocks + [block];
        return Given(block);
      }
      if offers == [] {
        return StillAsking;
      }
      var chunkSize := ChunkSize(size);
      if offers[0].None? {
        return BadAlloc;
      }
      chunks := [Chunk(offers[0].value, chunkSize, 0)] + chunks;
      outcome := AllocateBlock(size, offers[1..]);
    }
  }
}
