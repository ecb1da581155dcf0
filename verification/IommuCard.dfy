/** Memory blocks made visible to the FPGA: the card's own table, the live IOMMU
    mappings behind it, and the translations recorded for both. */
module IommuCard {
  import opened Text

  /** A translation recorded by `createMapping`: block `id` is at `iova`. */
  datatype Translation = Translation(id: nat, iova: nat, size: nat)

  /** `mapped` is `memoryBlocksMapped`; `live` is what the IOMMU really maps;
      `recorded` are the translations, oldest first, which are never removed;
      `unmapped` lists the unmap requests made so far. */
  datatype State = State(mapped: map<nat, nat>, live: map<nat, nat>, recorded: seq<Translation>,
                         unmapped: seq<(nat, nat)>)

  const EMPTY := State(map[], map[], [], [])

  /** `getTranslation`: the path search finds the oldest edge to the block. */
  function Oldest(ts: seq<Translation>, id: nat): Option<Translation> {
    if ts == [] then None else if ts[0].id == id then Some(ts[0]) else Oldest(ts[1..], id)
  }

  function Newest(ts: seq<Translation>, id: nat): Option<Translation> {
    if ts == [] then None
    else if ts[|ts| - 1].id == id then Some(ts[|ts| - 1]) else Newest(ts[..|ts| - 1], id)
  }

  /** `vfioContainer->memoryUnmap` for the translation of a block. */
  function Release(s: State, t: Translation): State {
    s.(live := s.live - {t.iova}, unmapped := s.unmapped + [(t.iova, t.size)])
  }

  /** `mapMemoryBlock`. `offer` is the address the IOMMU chooses, None when it
      refuses. */
  function AfterMap(s: State, iommu: bool, id: nat, size: nat, offer: Option<nat>): (State, bool) {
    if !iommu then (s, false)
    else if id in s.mapped then (s, true)
    else if offer.None? then (s, false)
    else
      (s.(mapped := s.mapped[id := size], live := s.live[offer.value := size],
          recorded := s.recorded + [Translation(id, offer.value, size)]), true)
  }

  /** `unmapMemoryBlock`; false stands for the exception. */
  function AfterUnmap(s: State, id: nat): (State, bool) {
    if id !in s.mapped || Oldest(s.recorded, id).None? then (s, false)
    else
      var s' := Release(s, Oldest(s.recorded, id).value);
      (s'.(mapped := s'.mapped - {id}), true)
  }

  // ------------------------------------------------------------ agreement

  /** Mapped block `id` has its newest translation at address `v`. */
  predicate LivesAt(s: State, id: nat, v: nat) {
    id in s.mapped && Newest(s.recorded, id).Some? && Newest(s.recorded, id).value.iova == v
  }

  ghost predicate SomeLivesAt(s: State, v: nat) {
    exists id :: LivesAt(s, id, v)
  }

  /** Each mapped block is live, with its size, at the address of its newest
      translation, no two share one, and nothing else is live. */
  ghost predicate Agrees(s: State) {
    && (forall id | id in s.mapped :: Newest(s.recorded, id).Some?)
    && (forall id, v | LivesAt(s, id, v) ::
          v in s.live && s.live[v] == s.mapped[id] == Newest(s.recorded, id).value.size)
    && (forall a, b, v | LivesAt(s, a, v) && LivesAt(s, b, v) :: a == b)
    && (forall v | v in s.live :: SomeLivesAt(s, v))
  }

  lemma {:induction false} OldestIffNewest(ts: seq<Translation>, id: nat)
    ensures Oldest(ts, id).Some? <==> exists i | 0 <= i < |ts| :: ts[i].id == id
    ensures Newest(ts, id).Some? <==> exists i | 0 <= i < |ts| :: ts[i].id == id
    ensures Oldest(ts, id).Some? ==> Oldest(ts, id).value.id == id
    ensures Newest(ts, id).Some? ==> Newest(ts, id).value.id == id
    decreases |ts|
  {
    if ts != [] {
      OldestIffNewest(ts[1..], id);
      OldestIffNewest(ts[..|ts| - 1], id);
      if i :| 0 <= i < |ts| && ts[i].id == id {
        if i > 0 {
          assert ts[1..][i - 1].id == id;
        }
        if i < |ts| - 1 {
          assert ts[..|ts| - 1][i].id == id;
        }
      }
    }
  }

  lemma NewestAppend(ts: seq<Translation>, t: Translation, id: nat)
    ensures Newest(ts + [t], id) == if t.id == id then Some(t) else Newest(ts, id)
  {
    assert (ts + [t])[..|ts|] == ts;
  }

  lemma {:induction false} OldestAppend(ts: seq<Translation>, t: Translation, id: nat)
    ensures Oldest(ts + [t], id) ==
      if Oldest(ts, id).Some? then Oldest(ts, id) else if t.id == id then Some(t) else None
  {
    if ts != [] {
      assert (ts + [t])[1..] == ts[1..] + [t];
      OldestAppend(ts[1..], t, id);
    }
  }

  /** Mapping keeps the agreement; the IOMMU only has to choose an unused
      address. The answer is true exactly when the block is visible afterwards: it
      was before, which changes nothing, or it now is at the offered address. */
  lemma MapAgrees(s: State, iommu: bool, id: nat, size: nat, offer: Option<nat>)
    requires Agrees(s) && (offer.Some? ==> offer.value !in s.live)
    ensures Agrees(AfterMap(s, iommu, id, size, offer).0)
    ensures AfterMap(s, iommu, id, size, offer).1 <==> iommu && (id in s.mapped || offer.Some?)
    ensures id in s.mapped || !AfterMap(s, iommu, id, size, offer).1 ==> AfterMap(s, iommu, id, size, offer).0 == s
    ensures id !in s.mapped && AfterMap(s, iommu, id, size, offer).1 ==>
      var s' := AfterMap(s, iommu, id, size, offer).0;
      && s'.mapped == s.mapped[id := size] && s'.live == s.live[offer.value := size]
      && LivesAt(s', id, offer.value) && s'.unmapped == s.unmapped
  {
    if iommu && id !in s.mapped && offer.Some? {
      var t := Translation(id, offer.value, size);
      var s' := AfterMap(s, iommu, id, size, offer).0;
      forall x ensures Newest(s'.recorded, x) == if x == id then Some(t) else Newest(s.recorded, x) {
        NewestAppend(s.recorded, t, x);
      }
      assert LivesAt(s', id, offer.value);
      forall v | v in s'.live ensures SomeLivesAt(s', v) {
        if v != offer.value {
          assert SomeLivesAt(s, v);
          var x :| LivesAt(s, x, v);
          assert LivesAt(s', x, v);
        }
      }
      forall x, v | LivesAt(s', x, v) ensures v in s'.live && s'.live[v] == s'.mapped[x] == Newest(s'.recorded, x).value.size {
        assert x == id || LivesAt(s, x, v);
      }
      forall a, b, v | LivesAt(s', a, v) && LivesAt(s', b, v) ensures a == b {
        assert a == id || LivesAt(s, a, v);
        assert b == id || LivesAt(s, b, v);
      }
    }
  }

  /** Unmapping succeeds exactly for a mapped block, which is mapped no longer; it
      keeps the agreement exactly when the translation it finds has
      the address that is in force. */
  lemma UnmapAgreesIff(s: State, id: nat)
    requires Agrees(s)
    ensures AfterUnmap(s, id).1 <==> id in s.mapped
    ensures id !in s.mapped ==> AfterUnmap(s, id).0 == s
    ensures id in s.mapped ==>
      && AfterUnmap(s, id).0.mapped == s.mapped - {id}
      && Oldest(s.recorded, id).Some? && Newest(s.recorded, id).Some?
      && AfterUnmap(s, id).0.live == s.live - {Oldest(s.recorded, id).value.iova}
      && (Agrees(AfterUnmap(s, id).0)
          <==> Oldest(s.recorded, id).value.iova == Newest(s.recorded, id).value.iova)
  {
    if id !in s.mapped {
      return;
    }
    OldestIffNewest(s.recorded, id);
    var s' := AfterUnmap(s, id).0;
    var found, now := Oldest(s.recorded, id).value.iova, Newest(s.recorded, id).value.iova;
    assert LivesAt(s, id, now);
    if found == now {
      UnmapOwn(s, id);
    } else {
      assert now in s'.live;
      if SomeLivesAt(s', now) {
        var x :| LivesAt(s', x, now);
        assert LivesAt(s, x, now);
        assert false;
      }
    }
  }

  lemma UnmapOwn(s: State, id: nat)
    requires Agrees(s) && id in s.mapped && Oldest(s.recorded, id).Some?
    requires LivesAt(s, id, Oldest(s.recorded, id).value.iova)
    ensures Agrees(AfterUnmap(s, id).0)
  {
    var s', gone := AfterUnmap(s, id).0, Oldest(s.recorded, id).value.iova;
    assert forall x, v :: LivesAt(s', x, v) <==> x != id && LivesAt(s, x, v);
    forall v | v in s'.live ensures SomeLivesAt(s', v) {
      assert SomeLivesAt(s, v);
      var x :| LivesAt(s, x, v);
      assert LivesAt(s', x, v);
    }
    forall x, v | LivesAt(s', x, v) ensures v in s'.live && s'.live[v] == s'.mapped[x] == Newest(s'.recorded, x).value.size {
      assert LivesAt(s, x, v) && v != gone;
    }
  }

  /** Map, unmap, map again elsewhere, unmap again: the second mapping stays. */
  lemma RemapLeaks()
    ensures var s1 := AfterMap(EMPTY, true, 1, 16, Some(0x1000)).0;
      var s2 := AfterUnmap(s1, 1).0;
      var s3 := AfterMap(s2, true, 1, 16, Some(0x2000)).0;
      var s4 := AfterUnmap(s3, 1).0;
      s4.mapped == map[] && 0x2000 in s4.live
  {
    var t1, t2 := Translation(1, 0x1000, 16), Translation(1, 0x2000, 16);
    assert AfterMap(EMPTY, true, 1, 16, Some(0x1000)).0.recorded == [t1];
    assert AfterUnmap(AfterMap(EMPTY, true, 1, 16, Some(0x1000)).0, 1).0.mapped == map[];
    OldestAppend([t1], t2, 1);
  }

  // ------------------------------------------------------------ whole runs

  datatype Op = Map(id: nat, size: nat, offer: Option<nat>) | Unmap(id: nat)

  function Apply(s: State, op: Op): State {
    match op
    case Map(id, size, offer) => AfterMap(s, true, id, size, offer).0
    case Unmap(id) => AfterUnmap(s, id).0
  }

  function Run(ops: seq<Op>): State {
    if ops == [] then EMPTY else Apply(Run(ops[..|ops| - 1]), ops[|ops| - 1])
  }

  /** The IOMMU never offers an address that is in use. */
  ghost predicate Offered(ops: seq<Op>) {
    forall i | 0 <= i < |ops| && ops[i].Map? && ops[i].offer.Some? :: ops[i].offer.value !in Run(ops[..i]).live
  }

  ghost predicate NeverRemapped(ops: seq<Op>) {
    forall i, j | 0 <= i < j < |ops| && ops[i].Unmap? && ops[j].Map? :: ops[i].id != ops[j].id
  }

  /** Every block was given one address at most. */
  ghost predicate Once(s: State) {
    forall id :: Oldest(s.recorded, id) == Newest(s.recorded, id)
  }

  function Pairs(ts: seq<Translation>): seq<(nat, nat)> {
    seq(|ts|, i requires 0 <= i < |ts| => (ts[i].iova, ts[i].size))
  }

  /** Each mapping ever made is either live or has been unmapped once. */
  ghost predicate Accounted(s: State) {
    multiset(Pairs(s.recorded)) == multiset(s.unmapped) + multiset(s.live.Items)
  }

  ghost predicate Sound(s: State) {
    Agrees(s) && Once(s) && Accounted(s)
  }

  lemma ItemsInsert(m: map<nat, nat>, k: nat, v: nat, m': map<nat, nat>)
    requires k !in m && m' == m[k := v]
    ensures m'.Items == m.Items + {(k, v)}
  {
    var more := m.Items + {(k, v)};
    forall p: (nat, nat) ensures p in m'.Items <==> p in more {
      assert p in m'.Items <==> p.0 in m' && m'[p.0] == p.1;
      assert p in m.Items <==> p.0 in m && m[p.0] == p.1;
    }
    assert m'.Items == more;
  }

  lemma ItemsRemove(m: map<nat, nat>, k: nat, m': map<nat, nat>)
    requires k in m && m' == m - {k}
    ensures (k, m[k]) in m.Items && m'.Items == m.Items - {(k, m[k])}
  {
    var rest := m.Items - {(k, m[k])};
    assert (k, m[k]) in m.Items;
    forall p: (nat, nat) ensures p in m'.Items <==> p in rest {
      assert p in m'.Items <==> p.0 in m' && m'[p.0] == p.1;
      assert p in m.Items <==> p.0 in m && m[p.0] == p.1;
    }
    assert m'.Items == rest;
  }

  lemma MapSound(s: State, id: nat, size: nat, offer: Option<nat>)
    requires Sound(s) && (offer.Some? ==> offer.value !in s.live)
    requires id in s.mapped || Newest(s.recorded, id).None?
    ensures Sound(AfterMap(s, true, id, size, offer).0)
  {
    MapAgrees(s, true, id, size, offer);
    if id !in s.mapped && offer.Some? {
      var s', t := AfterMap(s, true, id, size, offer).0, Translation(id, offer.value, size);
      forall x ensures Oldest(s'.recorded, x) == Newest(s'.recorded, x) {
        NewestAppend(s.recorded, t, x);
        OldestAppend(s.recorded, t, x);
      }
      MapAccounted(s, id, size, offer.value);
    }
  }

  lemma MapAccounted(s: State, id: nat, size: nat, iova: nat)
    requires Accounted(s) && id !in s.mapped && iova !in s.live
    ensures Accounted(AfterMap(s, true, id, size, Some(iova)).0)
  {
    var s', pair := AfterMap(s, true, id, size, Some(iova)).0, (iova, size);
    assert Pairs(s'.recorded) == Pairs(s.recorded) + [pair];
    ItemsInsert(s.live, iova, size, s'.live);
    assert pair !in s.live.Items;
    assert multiset(s'.live.Items) == multiset(s.live.Items) + multiset{pair};
  }

  lemma UnmapSound(s: State, id: nat)
    requires Sound(s)
    ensures Sound(AfterUnmap(s, id).0)
    ensures AfterUnmap(s, id).1 <==> id in s.mapped
  {
    if id in s.mapped {
      UnmapAgreesIff(s, id);
      var t := Oldest(s.recorded, id).value;
      assert LivesAt(s, id, t.iova);
      var s', pair := AfterUnmap(s, id).0, (t.iova, t.size);
      ItemsRemove(s.live, pair.0, s'.live);
      assert multiset(s'.live.Items) + multiset{pair} == multiset(s.live.Items);
      assert multiset(s'.unmapped) == multiset(s.unmapped) + multiset{pair};
    }
  }

  /** A block with a translation is mapped, or has been unmapped. */
  lemma {:induction false} RecordedInRun(ops: seq<Op>, id: nat)
    ensures Newest(Run(ops).recorded, id).Some? && id !in Run(ops).mapped ==>
      exists i | 0 <= i < |ops| :: ops[i] == Unmap(id)
  {
    if ops != [] {
      var n := |ops| - 1;
      var s, op := Run(ops[..n]), ops[n];
      RecordedInRun(ops[..n], id);
      if Newest(s.recorded, id).Some? && id !in s.mapped {
        var i :| 0 <= i < n && ops[..n][i] == Unmap(id);
        assert ops[i] == Unmap(id);
      }
      if op.Map? && op.offer.Some? {
        NewestAppend(s.recorded, Translation(op.id, op.offer.value, op.size), id);
      }
    }
  }

  lemma {:induction false} MappedRecorded(ops: seq<Op>, id: nat)
    ensures id in Run(ops).mapped ==> Newest(Run(ops).recorded, id).Some?
  {
    if ops != [] {
      var n := |ops| - 1;
      MappedRecorded(ops[..n], id);
      if ops[n].Map? && ops[n].offer.Some? {
        NewestAppend(Run(ops[..n]).recorded, Translation(ops[n].id, ops[n].offer.value, ops[n].size), id);
      }
    }
  }

  ghost predicate GrantedAt(ops: seq<Op>, id: nat, i: nat) {
    && i < |ops| && ops[i].Map? && ops[i].id == id && ops[i].offer.Some?
    && forall j | i < j < |ops| :: ops[j] != Unmap(id)
  }

  /** Over any run: a block is mapped exactly when some request for it was granted an
      address and it has not been unmapped since. */
  lemma {:induction false} MappedIff(ops: seq<Op>, id: nat)
    ensures id in Run(ops).mapped <==> exists i :: GrantedAt(ops, id, i)
  {
    if ops != [] {
      var n := |ops| - 1;
      var s, op := Run(ops[..n]), ops[n];
      MappedIff(ops[..n], id);
      MappedRecorded(ops[..n], id);
      OldestIffNewest(s.recorded, id);
      assert id in Run(ops).mapped <==>
        (op.Map? && op.id == id && op.offer.Some?) || (id in s.mapped && op != Unmap(id));
      hide Run, Oldest, Newest;
      forall i: nat | i < n ensures GrantedAt(ops, id, i) <==> GrantedAt(ops[..n], id, i) && op != Unmap(id) {
        assert forall j | i < j < n :: ops[..n][j] == ops[j];
      }
      if i: nat :| GrantedAt(ops, id, i) && i < n {
        assert GrantedAt(ops[..n], id, i);
      }
      if i: nat :| GrantedAt(ops[..n], id, i) {
        assert op != Unmap(id) ==> GrantedAt(ops, id, i);
      }
      assert GrantedAt(ops, id, n) <==> op.Map? && op.id == id && op.offer.Some?;
    }
  }

  /** Over every run that maps no block again after unmapping it, table and
      IOMMU stay in bijection and every mapping is accounted for. */
  lemma {:induction false} RunSound(ops: seq<Op>)
    requires Offered(ops) && NeverRemapped(ops)
    ensures Sound(Run(ops))
  {
    if ops != [] {
      var n := |ops| - 1;
      var s, op := Run(ops[..n]), ops[n];
      forall i | 0 <= i < n && ops[..n][i].Map? && ops[..n][i].offer.Some?
        ensures ops[..n][i].offer.value !in Run(ops[..n][..i]).live {
        assert ops[..n][..i] == ops[..i];
      }
      RunSound(ops[..n]);
      if op.Map? {
        RecordedInRun(ops[..n], op.id);
        MapSound(s, op.id, op.size, op.offer);
      } else {
        UnmapSound(s, op.id);
      }
    }
  }

  // ------------------------------------------------------------ the card

  class Card {
    const iommu: bool
    var mapped: map<nat, nat>
    var live: map<nat, nat>
    var recorded: seq<Translation>
    var unmapped: seq<(nat, nat)>

    function Now(): State
      reads this
    {
      State(mapped, live, recorded, unmapped)
    }

    constructor (iommu: bool)
      ensures this.iommu == iommu && Now() == EMPTY
    {
      this.iommu := iommu;
      mapped, live, recorded, unmapped := map[], map[], [], [];
    }

    method MapMemoryBlock(id: nat, size: nat, offer: Option<nat>) returns (ok: bool)
      modifies this
      ensures (Now(), ok) == AfterMap(old(Now()), iommu, id, size, offer)
    {
      if !iommu {
        return false;
      }
      if id in mapped {
        return true;
      }
      if offer.None? {
        return false;
      }
      live := live[offer.value := size];
      recorded := recorded + [Translation(id, offer.value, size)];
      mapped := mapped[id := size];
      return true;
    }

    method UnmapMemoryBlock(id: nat) returns (ok: bool)
      modifies this
      ensures (Now(), ok) == AfterUnmap(old(Now()), id)
    {
      if id !in mapped {
        return false;
      }
      var translation := Oldest(recorded, id);
      if translation.None? {
        return false;
      }
      live := live - {translation.value.iova};
      unmapped := unmapped + [(translation.value.iova, translation.value.size)];
      mapped := mapped - {id};
      return true;
    }

    /** `~Card`: first `~Dma` returns the rings it owns, if any, then the loop
        returns whatever the table still lists; `mapped` is what that loop has
        not visited yet. */
    method Destroy(ringTx: Option<nat>, ringRx: Option<nat>)
      requires Sound(Now())
      requires ringTx.Some? ==> ringTx.value in mapped
      requires ringRx.Some? ==> ringRx.value in mapped && ringRx != ringTx
      modifies this
      ensures live == map[] && recorded == old(recorded)
      ensures multiset(unmapped) == multiset(Pairs(recorded))
    {
      hide Agrees, Once, Accounted, Oldest;
      if ringTx.Some? {
        UnmapSound(Now(), ringTx.value);
        var tx := UnmapMemoryBlock(ringTx.value);
      }
      if ringRx.Some? {
        UnmapSound(Now(), ringRx.value);
        var rx := UnmapMemoryBlock(ringRx.value);
      }
      while mapped != map[]
        invariant Sound(Now()) && recorded == old(recorded)
        decreases |mapped|
      {
        var id :| id in mapped;
        UnmapSound(Now(), id);
        var smaller := UnmapMemoryBlock(id);
      }
      NothingLeft(Now());
    }
  }

  lemma NothingLeft(s: State)
    requires Sound(s) && s.mapped == map[]
    ensures s.live == map[] && multiset(s.unmapped) == multiset(Pairs(s.recorded))
  {
    assert forall v :: !SomeLivesAt(s, v);
    assert s.live.Keys == {};
  }
}
