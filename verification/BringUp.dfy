/** `CoreFactory::make`: the order in which IPs are configured, and how their
    interrupts find a controller in the single pass over that order. */
module BringUp {
  import opened Text
  import opened VlnvTag

  datatype Ip = Ip(vlnv: Vlnv, name: string)

  // ------------------------------------------------------------ one class

  function Filter(cls: Vlnv, ips: seq<Ip>, keep: bool): seq<Ip> {
    if ips == [] then []
    else (if Matches(cls, ips[0].vlnv) == keep then [ips[0]] else []) + Filter(cls, ips[1..], keep)
  }

  /** The scan for one class as it is written: after erasing an element the
      iterator already stands on the successor, and is advanced once more.
      Erasing the last element advances past the end; None stands for that
      undefined behaviour. Otherwise: the IPs picked, and the IPs kept. */
  function Scan(cls: Vlnv, ips: seq<Ip>): Option<(seq<Ip>, seq<Ip>)>
    decreases |ips|
  {
    if ips == [] then Some(([], []))
    else if !Matches(cls, ips[0].vlnv) then
      match Scan(cls, ips[1..])
      case None => None
      case Some(r) => Some((r.0, [ips[0]] + r.1))
    else if |ips| == 1 then None
    else
      match Scan(cls, ips[2..])
      case None => None
      case Some(r) => Some(([ips[0]] + r.0, [ips[1]] + r.1))
  }

  /** Every IP of the class is followed by one that is not. */
  ghost predicate Spaced(cls: Vlnv, ips: seq<Ip>) {
    forall i | 0 <= i < |ips| && Matches(cls, ips[i].vlnv) ::
      i + 1 < |ips| && !Matches(cls, ips[i + 1].vlnv)
  }

  lemma {:induction false} FilterKeeps(cls: Vlnv, ips: seq<Ip>, keep: bool)
    ensures forall ip | ip in Filter(cls, ips, keep) :: Matches(cls, ip.vlnv) == keep && ip in ips
    decreases |ips|
  {
    if ips != [] {
      FilterKeeps(cls, ips[1..], keep);
    }
  }

  lemma SpacedTail(cls: Vlnv, ips: seq<Ip>, n: nat)
    requires n <= |ips|
    ensures Spaced(cls, ips) ==> Spaced(cls, ips[n..])
  {
    if Spaced(cls, ips) {
      forall i | 0 <= i < |ips[n..]| && Matches(cls, ips[n..][i].vlnv)
        ensures i + 1 < |ips[n..]| && !Matches(cls, ips[n..][i + 1].vlnv) {
        assert ips[n..][i] == ips[n + i];
      }
    }
  }

  lemma SpacedHead(cls: Vlnv, ips: seq<Ip>)
    requires ips != []
    ensures !Matches(cls, ips[0].vlnv) ==> (Spaced(cls, ips) <==> Spaced(cls, ips[1..]))
    ensures Matches(cls, ips[0].vlnv) && |ips| > 1 && !Matches(cls, ips[1].vlnv) ==>
      (Spaced(cls, ips) <==> Spaced(cls, ips[2..]))
  {
    SpacedTail(cls, ips, 1);
    if |ips| > 1 {
      SpacedTail(cls, ips, 2);
    }
    if !Matches(cls, ips[0].vlnv) && Spaced(cls, ips[1..]) {
      forall i | 0 <= i < |ips| && Matches(cls, ips[i].vlnv) ensures i + 1 < |ips| && !Matches(cls, ips[i + 1].vlnv) {
        assert ips[i] == ips[1..][i - 1];
      }
    }
    if Matches(cls, ips[0].vlnv) && |ips| > 1 && !Matches(cls, ips[1].vlnv) && Spaced(cls, ips[2..]) {
      forall i | 0 <= i < |ips| && Matches(cls, ips[i].vlnv) ensures i + 1 < |ips| && !Matches(cls, ips[i + 1].vlnv) {
        if i > 0 {
          assert ips[i] == ips[2..][i - 2];
        }
      }
    }
  }

  /** The scan is well defined and picks all IPs of the class exactly when no
      two of them are neighbours and the last IP is none of them. */
  lemma {:induction false} ScanIsFullIff(cls: Vlnv, ips: seq<Ip>)
    ensures Scan(cls, ips) == Some((Filter(cls, ips, true), Filter(cls, ips, false))) <==> Spaced(cls, ips)
    decreases |ips|
  {
    if ips != [] {
      SpacedHead(cls, ips);
      if !Matches(cls, ips[0].vlnv) {
        ScanIsFullIff(cls, ips[1..]);
        assert Filter(cls, ips, true) == Filter(cls, ips[1..], true);
        var kept := Filter(cls, ips[1..], false);
        assert ([ips[0]] + kept)[1..] == kept;
        if Scan(cls, ips[1..]).Some? {
          var r := Scan(cls, ips[1..]).value;
          assert ([ips[0]] + r.1)[1..] == r.1;
        }
      } else if |ips| > 1 && !Matches(cls, ips[1].vlnv) {
        ScanIsFullIff(cls, ips[2..]);
        FilterTwo(cls, ips);
        if Scan(cls, ips[2..]).Some? {
          var r := Scan(cls, ips[2..]).value;
          assert ([ips[0]] + r.0)[1..] == r.0 && ([ips[1]] + r.1)[1..] == r.1;
        }
      } else if |ips| > 1 {
        FilterKeeps(cls, ips, false);
        assert !Spaced(cls, ips);
        if Scan(cls, ips).Some? {
          assert ips[1] in Scan(cls, ips).value.1;
        }
      }
    }
  }

  lemma FilterTwo(cls: Vlnv, ips: seq<Ip>)
    requires |ips| > 1 && Matches(cls, ips[0].vlnv) && !Matches(cls, ips[1].vlnv)
    ensures Filter(cls, ips, true) == [ips[0]] + Filter(cls, ips[2..], true)
    ensures Filter(cls, ips, false) == [ips[1]] + Filter(cls, ips[2..], false)
    ensures Filter(cls, ips, true)[1..] == Filter(cls, ips[2..], true)
    ensures Filter(cls, ips, false)[1..] == Filter(cls, ips[2..], false)
  {
    assert ips[1..][1..] == ips[2..];
  }

  lemma {:induction false} ScanPermutes(cls: Vlnv, ips: seq<Ip>)
    ensures Scan(cls, ips).Some? ==>
      multiset(Scan(cls, ips).value.0) + multiset(Scan(cls, ips).value.1) == multiset(ips)
    decreases |ips|
  {
    if ips != [] {
      assert ips == [ips[0]] + ips[1..];
      if !Matches(cls, ips[0].vlnv) {
        ScanPermutes(cls, ips[1..]);
      } else if |ips| > 1 {
        ScanPermutes(cls, ips[2..]);
        assert ips == [ips[0]] + [ips[1]] + ips[2..];
      }
    }
  }

  // ------------------------------------------------------------ all classes

  function Reverse(ips: seq<Ip>): seq<Ip> {
    if ips == [] then [] else Reverse(ips[1..]) + [ips[0]]
  }

  /** The classes from the last to the first; each puts its IPs in front. */
  function PickClasses(order: seq<Vlnv>, all: seq<Ip>, ordered: seq<Ip>): Option<(seq<Ip>, seq<Ip>)>
    decreases |order|
  {
    if order == [] then Some((ordered, all))
    else
      var n := |order| - 1;
      match Scan(order[n], all)
      case None => None
      case Some(r) => PickClasses(order[..n], r.1, Reverse(r.0) + ordered)
  }

  /** The initialization order. */
  function Ordered(order: seq<Vlnv>, all: seq<Ip>): Option<seq<Ip>> {
    match PickClasses(order, all, [])
    case None => None
    case Some(r) => Some(r.0 + r.1)
  }

  lemma {:induction false} ReversePermutes(ips: seq<Ip>)
    ensures multiset(Reverse(ips)) == multiset(ips) && |Reverse(ips)| == |ips|
    ensures forall ip :: ip in Reverse(ips) <==> ip in ips
  {
    if ips != [] {
      ReversePermutes(ips[1..]);
      assert ips == [ips[0]] + ips[1..];
    }
  }

  lemma {:induction false} PickPermutes(order: seq<Vlnv>, all: seq<Ip>, ordered: seq<Ip>)
    ensures PickClasses(order, all, ordered).Some? ==>
      var (first, rest) := PickClasses(order, all, ordered).value;
      multiset(first) + multiset(rest) == multiset(all) + multiset(ordered)
    decreases |order|
  {
    if order != [] {
      var n := |order| - 1;
      ScanPermutes(order[n], all);
      if Scan(order[n], all).Some? {
        var r := Scan(order[n], all).value;
        ReversePermutes(r.0);
        PickPermutes(order[..n], r.1, Reverse(r.0) + ordered);
      }
    }
  }

  /** No IP is lost or doubled, skipped or not. */
  lemma OrderIsPermutation(order: seq<Vlnv>, all: seq<Ip>)
    ensures Ordered(order, all).Some? ==> multiset(Ordered(order, all).value) == multiset(all)
  {
    PickPermutes(order, all, []);
    assert multiset(all) + multiset([]) == multiset(all);
  }

  /** The last listed class an IP belongs to; the number of classes if none. */
  function Rank(order: seq<Vlnv>, ip: Ip): nat {
    RankFrom(order, |order|, ip)
  }

  function RankFrom(order: seq<Vlnv>, n: nat, ip: Ip): nat
    requires n <= |order|
  {
    if n == 0 then |order| else if Matches(order[n - 1], ip.vlnv) then n - 1 else RankFrom(order, n - 1, ip)
  }

  lemma {:induction false} RankFromMeaning(order: seq<Vlnv>, n: nat, ip: Ip)
    requires n <= |order|
    ensures forall k | RankFrom(order, n, ip) < k < n :: !Matches(order[k], ip.vlnv)
    ensures RankFrom(order, n, ip) < n || RankFrom(order, n, ip) == |order|
    ensures RankFrom(order, n, ip) < |order| ==> Matches(order[RankFrom(order, n, ip)], ip.vlnv)
    ensures RankFrom(order, n, ip) == |order| ==> forall k | 0 <= k < n :: !Matches(order[k], ip.vlnv)
  {
    if n > 0 && !Matches(order[n - 1], ip.vlnv) {
      RankFromMeaning(order, n - 1, ip);
    }
  }

  lemma RankMeaning(order: seq<Vlnv>, ip: Ip)
    ensures forall k | Rank(order, ip) < k < |order| :: !Matches(order[k], ip.vlnv)
    ensures Rank(order, ip) <= |order|
    ensures Rank(order, ip) < |order| ==> Matches(order[Rank(order, ip)], ip.vlnv)
    ensures Rank(order, ip) == |order| ==> forall k | 0 <= k < |order| :: !Matches(order[k], ip.vlnv)
  {
    RankFromMeaning(order, |order|, ip);
  }

  /** Every scan finds its class spaced out in the list it works on. */
  ghost predicate AllSpaced(order: seq<Vlnv>, all: seq<Ip>) {
    order != [] ==>
      var n := |order| - 1;
      Spaced(order[n], all) && AllSpaced(order[..n], Filter(order[n], all, false))
  }

  ghost predicate SortedByRank(order: seq<Vlnv>, ips: seq<Ip>) {
    forall i, j | 0 <= i < j < |ips| :: Rank(order, ips[i]) <= Rank(order, ips[j])
  }

  /** State between two scans, when classes `n` and up are done. */
  ghost predicate Partial(order: seq<Vlnv>, n: nat, all: seq<Ip>, ordered: seq<Ip>)
    requires n <= |order|
  {
    && (forall ip | ip in all :: forall k | n <= k < |order| :: !Matches(order[k], ip.vlnv))
    && (forall ip | ip in ordered :: n <= Rank(order, ip))
    && SortedByRank(order, ordered)
  }

  lemma PickedAndKept(order: seq<Vlnv>, n: nat, all: seq<Ip>)
    requires 0 < n <= |order|
    requires forall ip | ip in all :: forall k | n <= k < |order| :: !Matches(order[k], ip.vlnv)
    ensures forall ip | ip in Filter(order[n - 1], all, true) :: Rank(order, ip) == n - 1
    ensures forall ip | ip in Filter(order[n - 1], all, false) ::
      forall k | n - 1 <= k < |order| :: !Matches(order[k], ip.vlnv)
  {
    hide Rank;
    FilterKeeps(order[n - 1], all, true);
    FilterKeeps(order[n - 1], all, false);
    forall ip | ip in Filter(order[n - 1], all, true) ensures Rank(order, ip) == n - 1 {
      RankMeaning(order, ip);
    }
  }

  lemma {:induction false} PickSorts(order: seq<Vlnv>, n: nat, all: seq<Ip>, ordered: seq<Ip>)
    requires n <= |order| && Partial(order, n, all, ordered) && AllSpaced(order[..n], all)
    ensures PickClasses(order[..n], all, ordered).Some?
    ensures var (first, rest) := PickClasses(order[..n], all, ordered).value;
      Partial(order, 0, rest, first)
    decreases n
  {
    if n > 0 {
      var cls := order[..n][n - 1];
      assert cls == order[n - 1] && order[..n][..n - 1] == order[..n - 1];
      ScanIsFullIff(cls, all);
      var picked, kept := Filter(cls, all, true), Filter(cls, all, false);
      PickedAndKept(order, n, all);
      ReversePermutes(picked);
      hide Rank, Spaced, Scan;
      SortedJoin(order, Reverse(picked), ordered, n - 1);
      PickSorts(order, n - 1, kept, Reverse(picked) + ordered);
    }
  }

  lemma SortedJoin(order: seq<Vlnv>, a: seq<Ip>, b: seq<Ip>, r: nat)
    requires forall ip | ip in a :: Rank(order, ip) == r
    requires forall ip | ip in b :: r <= Rank(order, ip)
    requires SortedByRank(order, b)
    ensures SortedByRank(order, a + b)
  {
    var ips := a + b;
    forall i, j | 0 <= i < j < |ips| ensures Rank(order, ips[i]) <= Rank(order, ips[j]) {
      assert i < |a| ==> ips[i] == a[i] && ips[i] in a;
      assert i >= |a| ==> ips[i] == b[i - |a|];
      assert j < |a| ==> ips[j] == a[j] && ips[j] in a;
      assert j >= |a| ==> ips[j] == b[j - |a|] && ips[j] in b;
    }
  }

  /** When every scan is full, listed classes come first, in the order of the
      list, and all other IPs after them. */
  lemma OrderIsSorted(order: seq<Vlnv>, all: seq<Ip>)
    requires AllSpaced(order, all)
    ensures Ordered(order, all).Some? && SortedByRank(order, Ordered(order, all).value)
  {
    assert order[..|order|] == order;
    PickSorts(order, |order|, all, []);
    var (first, rest) := PickClasses(order, all, []).value;
    forall ip | ip in first + rest ensures Rank(order, ip) <= |order| {
      RankMeaning(order, ip);
    }
    forall ip | ip in rest ensures Rank(order, ip) == |order| {
      RankMeaning(order, ip);
    }
    SortedAppend(order, first, rest);
  }

  // ------------------------------------------------------------ the order within a class

  lemma {:induction false} ReverseAt(ips: seq<Ip>, k: nat)
    requires k < |ips|
    ensures |Reverse(ips)| == |ips| && Reverse(ips)[k] == ips[|ips| - 1 - k]
  {
    ReversePermutes(ips);
    ReversePermutes(ips[1..]);
    if k < |ips| - 1 {
      ReverseAt(ips[1..], k);
    }
  }

  /** The IPs of this rank, as they stand. */
  ghost function OfRank(order: seq<Vlnv>, r: nat, ips: seq<Ip>): seq<Ip> {
    if ips == [] then [] else (if Rank(order, ips[0]) == r then [ips[0]] else []) + OfRank(order, r, ips[1..])
  }

  /** The first `n` classes in the order of the list, each the other way round. */
  ghost function Classes(order: seq<Vlnv>, n: nat, ips: seq<Ip>): seq<Ip>
    decreases n
  {
    if n == 0 then [] else Classes(order, n - 1, ips) + Reverse(OfRank(order, n - 1, ips))
  }

  lemma {:induction false} FilterIsRank(order: seq<Vlnv>, n: nat, ips: seq<Ip>)
    requires 0 < n <= |order|
    requires forall ip | ip in ips :: forall k | n <= k < |order| :: !Matches(order[k], ip.vlnv)
    ensures Filter(order[n - 1], ips, true) == OfRank(order, n - 1, ips)
    decreases |ips|
  {
    if ips != [] {
      RankMeaning(order, ips[0]);
      assert ips[0] in ips;
      assert Matches(order[n - 1], ips[0].vlnv) <==> Rank(order, ips[0]) == n - 1;
      hide Rank, Matches;
      FilterIsRank(order, n, ips[1..]);
    }
  }

  lemma {:induction false} OtherRanksStay(order: seq<Vlnv>, n: nat, ips: seq<Ip>, r: nat)
    requires 0 < n <= |order| && r != n - 1
    requires forall ip | ip in ips :: forall k | n <= k < |order| :: !Matches(order[k], ip.vlnv)
    ensures OfRank(order, r, Filter(order[n - 1], ips, false)) == OfRank(order, r, ips)
    decreases |ips|
  {
    if ips != [] {
      RankMeaning(order, ips[0]);
      assert ips[0] in ips;
      assert Matches(order[n - 1], ips[0].vlnv) ==> Rank(order, ips[0]) == n - 1;
      hide Rank, Matches;
      OtherRanksStay(order, n, ips[1..], r);
      var rest := Filter(order[n - 1], ips[1..], false);
      if Matches(order[n - 1], ips[0].vlnv) {
        assert Filter(order[n - 1], ips, false) == rest;
        assert OfRank(order, r, ips) == OfRank(order, r, ips[1..]);
      } else {
        assert Filter(order[n - 1], ips, false) == [ips[0]] + rest;
        assert ([ips[0]] + rest)[0] == ips[0] && ([ips[0]] + rest)[1..] == rest;
      }
    }
  }

  lemma {:induction false} OtherClassesStay(order: seq<Vlnv>, n: nat, ips: seq<Ip>, m: nat)
    requires 0 < n <= |order| && m < n
    requires forall ip | ip in ips :: forall k | n <= k < |order| :: !Matches(order[k], ip.vlnv)
    ensures Classes(order, m, Filter(order[n - 1], ips, false)) == Classes(order, m, ips)
    decreases m
  {
    hide Filter, OfRank, Matches, Reverse;
    if m > 0 {
      OtherClassesStay(order, n, ips, m - 1);
      OtherRanksStay(order, n, ips, m - 1);
    }
  }

  lemma {:induction false} AllOfRank(order: seq<Vlnv>, ips: seq<Ip>)
    requires forall ip | ip in ips :: forall k | 0 <= k < |order| :: !Matches(order[k], ip.vlnv)
    ensures OfRank(order, |order|, ips) == ips
  {
    if ips != [] {
      RankMeaning(order, ips[0]);
      assert ips[0] in ips;
      hide Rank;
      AllOfRank(order, ips[1..]);
    }
  }

  lemma {:induction false} PickExact(order: seq<Vlnv>, n: nat, all: seq<Ip>, ordered: seq<Ip>)
    requires n <= |order| && AllSpaced(order[..n], all)
    requires forall ip | ip in all :: forall k | n <= k < |order| :: !Matches(order[k], ip.vlnv)
    ensures PickClasses(order[..n], all, ordered) == Some((Classes(order, n, all) + ordered, OfRank(order, |order|, all)))
    decreases n
  {
    hide Rank, Spaced, Scan, Filter, OfRank, Reverse, Matches, PickClasses;
    if n == 0 {
      AllOfRank(order, all);
      PickNone(order, all, ordered);
    } else {
      var cls := order[n - 1];
      var picked, kept := Filter(cls, all, true), Filter(cls, all, false);
      PickFull(order, n, all, ordered);
      PickedAndKept(order, n, all);
      FilterIsRank(order, n, all);
      OtherRanksStay(order, n, all, |order|);
      OtherClassesStay(order, n, all, n - 1);
      PickExact(order, n - 1, kept, Reverse(picked) + ordered);
      var first := Classes(order, n - 1, all);
      assert first + (Reverse(picked) + ordered) == first + Reverse(picked) + ordered;
    }
  }

  lemma PickNone(order: seq<Vlnv>, all: seq<Ip>, ordered: seq<Ip>)
    ensures PickClasses(order[..0], all, ordered) == Some((ordered, all)) && Classes(order, 0, all) + ordered == ordered
  {
  }

  lemma PickFull(order: seq<Vlnv>, n: nat, all: seq<Ip>, ordered: seq<Ip>)
    requires 0 < n <= |order| && AllSpaced(order[..n], all)
    ensures var picked, kept := Filter(order[n - 1], all, true), Filter(order[n - 1], all, false);
      && AllSpaced(order[..n - 1], kept)
      && PickClasses(order[..n], all, ordered) == PickClasses(order[..n - 1], kept, Reverse(picked) + ordered)
  {
    assert order[..n][n - 1] == order[n - 1] && order[..n][..n - 1] == order[..n - 1];
    ScanIsFullIff(order[n - 1], all);
    hide Scan, Spaced, Filter, Reverse, Matches;
  }

  /** When every scan is full the order is exactly this: class by class, the IPs of
      each class the other way round, and then all others as they stand. */
  lemma OrderIsExact(order: seq<Vlnv>, all: seq<Ip>)
    requires AllSpaced(order, all)
    ensures Ordered(order, all) == Some(Classes(order, |order|, all) + OfRank(order, |order|, all))
  {
    assert order[..|order|] == order;
    PickExact(order, |order|, all, []);
    assert Classes(order, |order|, all) + [] == Classes(order, |order|, all);
  }

  lemma SortedAppend(order: seq<Vlnv>, a: seq<Ip>, b: seq<Ip>)
    requires SortedByRank(order, a)
    requires forall ip | ip in a :: Rank(order, ip) <= |order|
    requires forall ip | ip in b :: Rank(order, ip) == |order|
    ensures SortedByRank(order, a + b)
  {
    var ips := a + b;
    forall i, j | 0 <= i < j < |ips| ensures Rank(order, ips[i]) <= Rank(order, ips[j]) {
      assert i < |a| ==> ips[i] == a[i] && ips[i] in a;
      assert i >= |a| ==> ips[i] == b[i - |a|] && ips[i] in b;
      assert j < |a| ==> ips[j] == a[j];
      assert j >= |a| ==> ips[j] == b[j - |a|] && ips[j] in b;
    }
  }

  // ------------------------------------------------------------ the exact condition

  /** The tag of the IP fits no two classes of the list. */
  ghost predicate FitsOne(order: seq<Vlnv>, ip: Ip) {
    forall j, k | 0 <= j < k < |order| :: !(Matches(order[j], ip.vlnv) && Matches(order[k], ip.vlnv))
  }

  ghost predicate OneClass(order: seq<Vlnv>, all: seq<Ip>) {
    forall ip | ip in all :: FitsOne(order, ip)
  }

  predicate Absent(cls: Vlnv, all: seq<Ip>) {
    forall i | 0 <= i < |all| :: !Matches(cls, all[i].vlnv)
  }

  /** The IP belongs to one of the first `n` classes. */
  predicate Below(order: seq<Vlnv>, n: nat, ip: Ip)
    requires n <= |order|
  {
    exists k | 0 <= k < n :: Matches(order[k], ip.vlnv)
  }

  /** Whatever is left of this class comes before every IP that is not listed. */
  ghost predicate SkippedFirst(order: seq<Vlnv>, cls: Vlnv, kept: seq<Ip>) {
    forall i, j | 0 <= i < j < |kept| && Matches(cls, kept[j].vlnv) :: Below(order, |order|, kept[i])
  }

  /** How many IPs of the class stand directly before position `i`. */
  function Offset(cls: Vlnv, ips: seq<Ip>, i: nat): nat
    requires i <= |ips|
    decreases i
  {
    if i == 0 || !Matches(cls, ips[i - 1].vlnv) then 0 else 1 + Offset(cls, ips, i - 1)
  }

  /** The scan picks the first, third, fifth, ... of each run of neighbours ... */
  predicate Picked(cls: Vlnv, ips: seq<Ip>, i: nat)
    requires i < |ips|
  {
    Matches(cls, ips[i].vlnv) && Offset(cls, ips, i) % 2 == 0
  }

  /** ... and steps over the second, fourth, ... */
  predicate Skipped(cls: Vlnv, ips: seq<Ip>, i: nat)
    requires i < |ips|
  {
    Matches(cls, ips[i].vlnv) && Offset(cls, ips, i) % 2 == 1
  }

  /** The IPs at the first `n` positions that are not picked. */
  function Kept(cls: Vlnv, ips: seq<Ip>, n: nat): seq<Ip>
    requires n <= |ips|
    decreases n
  {
    if n == 0 then [] else Kept(cls, ips, n - 1) + if Picked(cls, ips, n - 1) then [] else [ips[n - 1]]
  }

  /** No IP that is not listed comes before one that is skipped. */
  ghost predicate ListedFirst(order: seq<Vlnv>, cls: Vlnv, ips: seq<Ip>, n: nat)
    requires n <= |ips|
  {
    forall i, j | 0 <= i < j < n && Skipped(cls, ips, j) :: Below(order, |order|, ips[i])
  }

  /** For the first `n` classes, on the configuration as it is: of the last class
      that is present an even number of IPs ends the list, no IP that is not listed
      comes before one that is skipped, and without the picked ones every earlier
      class is spaced out in what its scan finds. */
  ghost predicate WellPlaced(order: seq<Vlnv>, n: nat, all: seq<Ip>)
    requires n <= |order|
    decreases n
  {
    n == 0 ||
    if Absent(order[n - 1], all) then WellPlaced(order, n - 1, all)
    else
      var cls := order[n - 1];
      && Offset(cls, all, |all|) % 2 == 0
      && ListedFirst(order, cls, all, |all|)
      && AllSpaced(order[..n - 1], Kept(cls, all, |all|))
  }

  lemma {:induction false} OffsetTail(cls: Vlnv, ips: seq<Ip>, i: nat)
    requires ips != [] && i < |ips| && !Matches(cls, ips[0].vlnv)
    ensures Offset(cls, ips, i + 1) == Offset(cls, ips[1..], i)
    decreases i
  {
    if i > 0 {
      OffsetTail(cls, ips, i - 1);
    }
  }

  lemma {:induction false} OffsetTail2(cls: Vlnv, ips: seq<Ip>, i: nat)
    requires |ips| > 1 && i + 2 <= |ips| && Matches(cls, ips[0].vlnv)
    ensures Offset(cls, ips, i + 2) % 2 == Offset(cls, ips[2..], i) % 2
    decreases i
  {
    if i > 0 {
      OffsetTail2(cls, ips, i - 1);
    } else {
      assert Offset(cls, ips, 1) == 1;
    }
  }

  lemma {:induction false} KeptTail(cls: Vlnv, ips: seq<Ip>, n: nat)
    requires ips != [] && n < |ips| && !Matches(cls, ips[0].vlnv)
    ensures Kept(cls, ips, n + 1) == [ips[0]] + Kept(cls, ips[1..], n)
    decreases n
  {
    if n > 0 {
      KeptTail(cls, ips, n - 1);
      OffsetTail(cls, ips, n - 1);
    }
  }

  lemma {:induction false} KeptTail2(cls: Vlnv, ips: seq<Ip>, n: nat)
    requires |ips| > 1 && n + 2 <= |ips| && Matches(cls, ips[0].vlnv)
    ensures Kept(cls, ips, n + 2) == [ips[1]] + Kept(cls, ips[2..], n)
    decreases n
  {
    if n > 0 {
      KeptTail2(cls, ips, n - 1);
      OffsetTail2(cls, ips, n - 1);
      hide Offset, Matches;
      assert Picked(cls, ips, n + 1) == Picked(cls, ips[2..], n - 1);
    } else {
      KeptTwo(cls, ips);
    }
  }

  lemma KeptTwo(cls: Vlnv, ips: seq<Ip>)
    requires |ips| > 1 && Matches(cls, ips[0].vlnv)
    ensures Kept(cls, ips, 2) == [ips[1]] && Kept(cls, ips[2..], 0) == []
  {
    assert Offset(cls, ips, 0) == 0 && Offset(cls, ips, 1) == 1;
    hide Offset, Matches;
    assert Kept(cls, ips, 0) == [] && Kept(cls, ips, 1) == [];
  }

  /** The scan, by positions: it is defined exactly when the run of IPs of the
      class at the end of the list has even length. */
  lemma {:induction false} ScanIsPositional(cls: Vlnv, ips: seq<Ip>)
    ensures Scan(cls, ips).Some? <==> Offset(cls, ips, |ips|) % 2 == 0
    ensures Scan(cls, ips).Some? ==> Scan(cls, ips).value.1 == Kept(cls, ips, |ips|)
    decreases |ips|
  {
    if ips != [] {
      if !Matches(cls, ips[0].vlnv) {
        ScanIsPositional(cls, ips[1..]);
        OffsetTail(cls, ips, |ips| - 1);
        KeptTail(cls, ips, |ips| - 1);
      } else if |ips| == 1 {
        assert Offset(cls, ips, 0) == 0;
      } else {
        ScanIsPositional(cls, ips[2..]);
        OffsetTail2(cls, ips, |ips| - 2);
        KeptTail2(cls, ips, |ips| - 2);
      }
    }
  }

  lemma SkippedSnoc(order: seq<Vlnv>, cls: Vlnv, kept: seq<Ip>, x: Ip)
    ensures SkippedFirst(order, cls, kept + [x]) <==>
      SkippedFirst(order, cls, kept) && (Matches(cls, x.vlnv) ==> forall y | y in kept :: Below(order, |order|, y))
  {
    hide Below;
    var s := kept + [x];
    if SkippedFirst(order, cls, s) {
      forall i, j | 0 <= i < j < |kept| && Matches(cls, kept[j].vlnv) ensures Below(order, |order|, kept[i]) {
        assert s[i] == kept[i] && s[j] == kept[j];
      }
      if Matches(cls, x.vlnv) {
        forall y | y in kept ensures Below(order, |order|, y) {
          var i :| 0 <= i < |kept| && kept[i] == y;
          assert s[i] == y && s[|kept|] == x;
        }
      }
    }
  }

  lemma {:induction false} KeptListed(order: seq<Vlnv>, m: nat, all: seq<Ip>, n: nat)
    requires m < |order| && n <= |all|
    ensures (forall y | y in Kept(order[m], all, n) :: Below(order, |order|, y))
       <==> (forall i | 0 <= i < n :: Below(order, |order|, all[i]))
    decreases n
  {
    if n > 0 {
      KeptListed(order, m, all, n - 1);
      if Picked(order[m], all, n - 1) {
        assert Kept(order[m], all, n) == Kept(order[m], all, n - 1);
        assert Below(order, |order|, all[n - 1]);
      }
      hide Below;
    }
  }

  lemma ListedSnoc(order: seq<Vlnv>, cls: Vlnv, ips: seq<Ip>, n: nat)
    requires 0 < n <= |ips|
    ensures ListedFirst(order, cls, ips, n) <==>
      ListedFirst(order, cls, ips, n - 1) &&
      (Skipped(cls, ips, n - 1) ==> forall i | 0 <= i < n - 1 :: Below(order, |order|, ips[i]))
  {
    hide Below, Skipped;
  }

  /** What is left of a class comes first in what is kept exactly when no IP that
      is not listed comes before one that is skipped. */
  lemma {:induction false} SkippedFirstIff(order: seq<Vlnv>, m: nat, all: seq<Ip>, n: nat)
    requires m < |order| && n <= |all|
    ensures SkippedFirst(order, order[m], Kept(order[m], all, n)) <==> ListedFirst(order, order[m], all, n)
    decreases n
  {
    hide Below, SkippedFirst, ListedFirst, Offset;
    if n == 0 {
      SkippedNone(order, order[m], all);
    } else {
      SkippedFirstIff(order, m, all, n - 1);
      KeptListed(order, m, all, n - 1);
      ListedSnoc(order, order[m], all, n);
      var kept := Kept(order[m], all, n - 1);
      if Picked(order[m], all, n - 1) {
        assert Kept(order[m], all, n) == kept;
      } else {
        assert Kept(order[m], all, n) == kept + [all[n - 1]];
        SkippedSnoc(order, order[m], kept, all[n - 1]);
      }
    }
  }

  lemma SkippedNone(order: seq<Vlnv>, cls: Vlnv, ips: seq<Ip>)
    ensures SkippedFirst(order, cls, []) && ListedFirst(order, cls, ips, 0)
  {
  }


  lemma RankIs(order: seq<Vlnv>, ip: Ip, k: nat)
    requires FitsOne(order, ip) && k < |order| && Matches(order[k], ip.vlnv)
    ensures Rank(order, ip) == k
  {
    RankMeaning(order, ip);
  }

  lemma RankUnlisted(order: seq<Vlnv>, ip: Ip)
    ensures Rank(order, ip) == |order| <==> !Below(order, |order|, ip)
    ensures Rank(order, ip) <= |order|
  {
    RankMeaning(order, ip);
  }

  lemma {:induction false} ScanParts(cls: Vlnv, ips: seq<Ip>)
    requires Scan(cls, ips).Some?
    ensures var (picked, kept) := Scan(cls, ips).value;
      && (forall ip | ip in picked :: Matches(cls, ip.vlnv) && ip in ips)
      && (forall ip | ip in kept :: ip in ips)
      && (Absent(cls, ips) ==> picked == [] && kept == ips)
      && (!Absent(cls, ips) ==> picked != [])
    decreases |ips|
  {
    if ips != [] {
      if !Matches(cls, ips[0].vlnv) {
        ScanParts(cls, ips[1..]);
        assert Absent(cls, ips) <==> Absent(cls, ips[1..]) by {
          assert forall i | 1 <= i < |ips| :: ips[i] == ips[1..][i - 1];
        }
      } else {
        ScanParts(cls, ips[2..]);
      }
    }
  }

  lemma {:induction false} AbsentIsDefined(cls: Vlnv, ips: seq<Ip>)
    requires Absent(cls, ips)
    ensures Scan(cls, ips) == Some(([], ips))
    decreases |ips|
  {
    if ips != [] {
      assert forall i | 0 <= i < |ips[1..]| :: ips[1..][i] == ips[i + 1];
      AbsentIsDefined(cls, ips[1..]);
      assert [ips[0]] + ips[1..] == ips;
    }
  }

  /** A scan that leaves none of its class is full. */
  lemma {:induction false} NoneLeftIsFull(cls: Vlnv, ips: seq<Ip>)
    requires Scan(cls, ips).Some? && forall ip | ip in Scan(cls, ips).value.1 :: !Matches(cls, ip.vlnv)
    ensures Scan(cls, ips).value == (Filter(cls, ips, true), Filter(cls, ips, false))
    decreases |ips|
  {
    if ips != [] {
      var kept := Scan(cls, ips).value.1;
      if !Matches(cls, ips[0].vlnv) {
        assert forall ip | ip in Scan(cls, ips[1..]).value.1 :: ip in kept;
        NoneLeftIsFull(cls, ips[1..]);
        assert Filter(cls, ips, true) == Filter(cls, ips[1..], true);
      } else {
        assert ips[1] in kept;
        assert forall ip | ip in Scan(cls, ips[2..]).value.1 :: ip in kept;
        NoneLeftIsFull(cls, ips[2..]);
        FilterTwo(cls, ips);
      }
    }
  }

  /** The IPs of none of the first `n` classes. */
  function Leave(order: seq<Vlnv>, n: nat, ips: seq<Ip>): seq<Ip>
    requires n <= |order|
  {
    if ips == [] then []
    else (if Below(order, n, ips[0]) then [] else [ips[0]]) + Leave(order, n, ips[1..])
  }

  lemma {:induction false} LeaveMembers(order: seq<Vlnv>, n: nat, ips: seq<Ip>)
    requires n <= |order|
    ensures forall ip :: ip in Leave(order, n, ips) <==> ip in ips && !Below(order, n, ip)
    decreases |ips|
  {
    if ips != [] {
      LeaveMembers(order, n, ips[1..]);
    }
  }

  lemma {:induction false} LeaveAll(order: seq<Vlnv>, ips: seq<Ip>)
    ensures Leave(order, 0, ips) == ips
    decreases |ips|
  {
    if ips != [] {
      LeaveAll(order, ips[1..]);
    }
  }

  lemma {:induction false} LeaveStep(order: seq<Vlnv>, n: nat, ips: seq<Ip>)
    requires 0 < n <= |order|
    ensures Leave(order, n - 1, Filter(order[n - 1], ips, false)) == Leave(order, n, ips)
    decreases |ips|
  {
    if ips != [] {
      LeaveStep(order, n, ips[1..]);
      assert Below(order, n, ips[0]) <==> Below(order, n - 1, ips[0]) || Matches(order[n - 1], ips[0].vlnv);
      var rest := Filter(order[n - 1], ips[1..], false);
      if Matches(order[n - 1], ips[0].vlnv) {
        assert Filter(order[n - 1], ips, false) == rest;
        assert Leave(order, n, ips) == Leave(order, n, ips[1..]);
      } else {
        assert Filter(order[n - 1], ips, false) == [ips[0]] + rest;
        assert ([ips[0]] + rest)[1..] == rest;
      }
    }
  }

  lemma OneOrBelow(order: seq<Vlnv>, n: nat, ip: Ip)
    requires 0 < n <= |order| && FitsOne(order, ip)
    ensures Matches(order[n - 1], ip.vlnv) ==> Below(order, n, ip) && !Below(order, n - 1, ip)
  {
  }

  /** If nothing of the first `n` classes is left over, all their scans were full. */
  lemma {:induction false} NothingLeftOver(order: seq<Vlnv>, n: nat, all: seq<Ip>, ordered: seq<Ip>)
    requires n <= |order| && OneClass(order, all) && PickClasses(order[..n], all, ordered).Some?
    requires forall ip | ip in PickClasses(order[..n], all, ordered).value.1 :: !Below(order, n, ip)
    ensures AllSpaced(order[..n], all)
    ensures PickClasses(order[..n], all, ordered).value.1 == Leave(order, n, all)
    decreases n
  {
    if n == 0 {
      LeaveAll(order, all);
    } else {
      var cls := order[n - 1];
      assert order[..n][n - 1] == cls && order[..n][..n - 1] == order[..n - 1];
      var (picked, kept) := Scan(cls, all).value;
      ScanParts(cls, all);
      var rest := PickClasses(order[..n - 1], kept, Reverse(picked) + ordered).value.1;
      NothingLeftOver(order, n - 1, kept, Reverse(picked) + ordered);
      LeaveMembers(order, n - 1, kept);
      forall ip | ip in kept ensures !Matches(cls, ip.vlnv) {
        OneOrBelow(order, n, ip);
      }
      NoneLeftIsFull(cls, all);
      ScanIsFullIff(cls, all);
      LeaveStep(order, n, all);
    }
  }

  lemma {:induction false} OrderedStays(order: seq<Vlnv>, all: seq<Ip>, ordered: seq<Ip>)
    requires PickClasses(order, all, ordered).Some?
    ensures forall ip | ip in ordered :: ip in PickClasses(order, all, ordered).value.0
    ensures |PickClasses(order, all, ordered).value.0| >= |ordered|
    decreases |order|
  {
    if order != [] {
      var n := |order| - 1;
      var r := Scan(order[n], all).value;
      OrderedStays(order[..n], r.1, Reverse(r.0) + ordered);
    }
  }

  /** Full scans put the IPs of their classes in front, sorted. */
  lemma {:induction false} FullScansSort(order: seq<Vlnv>, n: nat, all: seq<Ip>, ordered: seq<Ip>)
    requires n <= |order| && OneClass(order, all) && AllSpaced(order[..n], all)
    requires SortedByRank(order, ordered) && forall ip | ip in ordered :: n <= Rank(order, ip)
    ensures PickClasses(order[..n], all, ordered).Some?
    ensures var (first, rest) := PickClasses(order[..n], all, ordered).value;
      && rest == Leave(order, n, all) && SortedByRank(order, first)
      && forall ip | ip in first :: ip in ordered || Rank(order, ip) < n
    decreases n
  {
    if n == 0 {
      LeaveAll(order, all);
    } else {
      var cls := order[n - 1];
      assert order[..n][n - 1] == cls && order[..n][..n - 1] == order[..n - 1];
      ScanIsFullIff(cls, all);
      ScanParts(cls, all);
      var (picked, kept) := Scan(cls, all).value;
      ReversePermutes(picked);
      forall ip | ip in Reverse(picked) ensures Rank(order, ip) == n - 1 {
        assert FitsOne(order, ip);
        RankIs(order, ip, n - 1);
      }
      hide Rank, Spaced, Scan;
      SortedJoin(order, Reverse(picked), ordered, n - 1);
      FullScansSort(order, n - 1, kept, Reverse(picked) + ordered);
      LeaveStep(order, n, all);
    }
  }

  lemma SortedCons(order: seq<Vlnv>, ip: Ip, ips: seq<Ip>)
    ensures SortedByRank(order, [ip] + ips)
       <==> SortedByRank(order, ips) && forall x | x in ips :: Rank(order, ip) <= Rank(order, x)
  {
    hide Rank;
    var s := [ip] + ips;
    if SortedByRank(order, s) {
      forall i, j | 0 <= i < j < |ips| ensures Rank(order, ips[i]) <= Rank(order, ips[j]) {
        assert s[i + 1] == ips[i] && s[j + 1] == ips[j];
      }
      forall x | x in ips ensures Rank(order, ip) <= Rank(order, x) {
        var j :| 0 <= j < |ips| && ips[j] == x;
        assert s[0] == ip && s[j + 1] == x;
      }
    }
    if SortedByRank(order, ips) && forall x | x in ips :: Rank(order, ip) <= Rank(order, x) {
      forall i, j | 0 <= i < j < |s| ensures Rank(order, s[i]) <= Rank(order, s[j]) {
        assert s[j] == ips[j - 1] && s[j] in ips;
        assert i > 0 ==> s[i] == ips[i - 1];
      }
    }
  }

  /** IPs of one class and unlisted ones are sorted exactly when the former come first. */
  lemma {:induction false} LeaveSortedIff(order: seq<Vlnv>, n: nat, ips: seq<Ip>)
    requires n < |order| && OneClass(order, ips)
    requires forall ip | ip in ips :: forall k | n < k < |order| :: !Matches(order[k], ip.vlnv)
    ensures SortedByRank(order, Leave(order, n, ips)) <==> SkippedFirst(order, order[n], ips)
    decreases |ips|
  {
    if ips != [] {
      hide Rank, Below, SkippedFirst, SortedByRank;
      var head, rest := ips[0], Leave(order, n, ips[1..]);
      LeaveSortedIff(order, n, ips[1..]);
      SkippedCons(order, order[n], ips);
      if Below(order, n, head) {
        BelowAll(order, n, head);
        assert [] + rest == rest;
      } else {
        SortedCons(order, head, rest);
        LeaveHead(order, n, ips);
      }
    }
  }

  lemma BelowAll(order: seq<Vlnv>, n: nat, ip: Ip)
    requires n <= |order| && Below(order, n, ip)
    ensures Below(order, |order|, ip)
  {
  }

  /** The first of what remains is in its place as far as ranks go. */
  lemma LeaveHead(order: seq<Vlnv>, n: nat, ips: seq<Ip>)
    requires n < |order| && OneClass(order, ips) && ips != [] && !Below(order, n, ips[0])
    requires forall ip | ip in ips :: forall k | n < k < |order| :: !Matches(order[k], ip.vlnv)
    ensures (forall x | x in Leave(order, n, ips[1..]) :: Rank(order, ips[0]) <= Rank(order, x))
       <==> (Below(order, |order|, ips[0]) || forall x | x in ips[1..] :: !Matches(order[n], x.vlnv))
  {
    hide Rank;
    LeaveMembers(order, n, ips[1..]);
    RankIsNOrUnlisted(order, n, ips[0]);
    forall x | x in ips[1..] ensures !Below(order, n, x) ==>
      Rank(order, x) == if Matches(order[n], x.vlnv) then n else |order|
    {
      if !Below(order, n, x) {
        RankIsNOrUnlisted(order, n, x);
      }
    }
    forall x | x in ips[1..] && Matches(order[n], x.vlnv) ensures !Below(order, n, x) {
      assert FitsOne(order, x);
    }
  }

  lemma RankIsNOrUnlisted(order: seq<Vlnv>, n: nat, ip: Ip)
    requires n < |order| && FitsOne(order, ip) && !Below(order, n, ip)
    requires forall k | n < k < |order| :: !Matches(order[k], ip.vlnv)
    ensures Rank(order, ip) == if Matches(order[n], ip.vlnv) then n else |order|
    ensures Below(order, |order|, ip) <==> Matches(order[n], ip.vlnv)
  {
    hide Rank;
    if Matches(order[n], ip.vlnv) {
      RankIs(order, ip, n);
    } else {
      RankUnlisted(order, ip);
    }
  }

  lemma SkippedCons(order: seq<Vlnv>, cls: Vlnv, ips: seq<Ip>)
    requires ips != []
    ensures SkippedFirst(order, cls, ips) <==>
      SkippedFirst(order, cls, ips[1..]) &&
      (Below(order, |order|, ips[0]) || forall x | x in ips[1..] :: !Matches(cls, x.vlnv))
  {
    var t := ips[1..];
    if SkippedFirst(order, cls, ips) {
      forall i, j | 0 <= i < j < |t| && Matches(cls, t[j].vlnv) ensures Below(order, |order|, t[i]) {
        assert t[i] == ips[i + 1] && t[j] == ips[j + 1];
      }
      if x :| x in t && Matches(cls, x.vlnv) {
        var j :| 0 <= j < |t| && t[j] == x;
        assert ips[j + 1] == x;
      }
    }
    if SkippedFirst(order, cls, t) && (Below(order, |order|, ips[0]) || forall x | x in t :: !Matches(cls, x.vlnv)) {
      forall i, j | 0 <= i < j < |ips| && Matches(cls, ips[j].vlnv) ensures Below(order, |order|, ips[i]) {
        assert ips[j] == t[j - 1];
        assert i > 0 ==> ips[i] == t[i - 1];
      }
    }
  }

  /** Listed IPs in front, all of one rank or below, and behind them the rest. */
  lemma SortedHalves(order: seq<Vlnv>, first: seq<Ip>, rest: seq<Ip>, r: nat)
    requires SortedByRank(order, first) && SortedByRank(order, rest)
    requires forall ip | ip in first :: Rank(order, ip) <= r
    requires forall ip | ip in rest :: r <= Rank(order, ip)
    ensures SortedByRank(order, first + rest)
  {
    hide Rank;
    var ips := first + rest;
    forall i, j | 0 <= i < j < |ips| ensures Rank(order, ips[i]) <= Rank(order, ips[j]) {
      assert i < |first| ==> ips[i] == first[i] && ips[i] in first;
      assert i >= |first| ==> ips[i] == rest[i - |first|];
      assert j < |first| ==> ips[j] == first[j];
      assert j >= |first| ==> ips[j] == rest[j - |first|] && ips[j] in rest;
    }
  }

  lemma HalvesSorted(order: seq<Vlnv>, first: seq<Ip>, rest: seq<Ip>)
    requires SortedByRank(order, first + rest)
    ensures SortedByRank(order, rest)
    ensures forall x, y | x in first && y in rest :: Rank(order, x) <= Rank(order, y)
  {
    hide Rank;
    var ips := first + rest;
    forall i, j | 0 <= i < j < |rest| ensures Rank(order, rest[i]) <= Rank(order, rest[j]) {
      assert ips[|first| + i] == rest[i] && ips[|first| + j] == rest[j];
    }
    forall x, y | x in first && y in rest ensures Rank(order, x) <= Rank(order, y) {
      var i :| 0 <= i < |first| && first[i] == x;
      var j :| 0 <= j < |rest| && rest[j] == y;
      assert ips[i] == x && ips[|first| + j] == y;
    }
  }

  lemma {:induction false} PrefixSortedIff(order: seq<Vlnv>, n: nat, all: seq<Ip>)
    requires n <= |order| && OneClass(order, all)
    requires forall ip | ip in all :: forall k | n <= k < |order| :: !Matches(order[k], ip.vlnv)
    ensures (PickClasses(order[..n], all, []).Some? &&
             var r := PickClasses(order[..n], all, []).value; SortedByRank(order, r.0 + r.1))
       <==> WellPlaced(order, n, all)
    decreases n
  {
    hide Rank, AllSpaced, SkippedFirst, ListedFirst, Below, Scan, Offset, Kept, Absent, SortedByRank, PickClasses, OneClass, Matches;
    if n == 0 {
      AllUnlisted(order, all);
    } else {
      PickStep(order, n, all);
      if Absent(order[n - 1], all) {
        AbsentIsDefined(order[n - 1], all);
        NonePresent(order, n, all);
        PrefixSortedIff(order, n - 1, all);
      } else {
        ScanIsPositional(order[n - 1], all);
        SkippedFirstIff(order, n - 1, all, |all|);
        if Scan(order[n - 1], all).Some? {
          LastPresent(order, n, all);
        }
      }
    }
  }

  lemma NonePresent(order: seq<Vlnv>, n: nat, all: seq<Ip>)
    requires 0 < n <= |order| && Absent(order[n - 1], all)
    ensures forall ip | ip in all :: !Matches(order[n - 1], ip.vlnv)
  {
  }

  lemma PickStep(order: seq<Vlnv>, n: nat, all: seq<Ip>)
    requires 0 < n <= |order|
    ensures PickClasses(order[..n], all, []) ==
      match Scan(order[n - 1], all)
      case None => None
      case Some(r) => PickClasses(order[..n - 1], r.1, Reverse(r.0) + [])
    ensures Reverse([]) + [] == []
  {
    assert order[..n][n - 1] == order[n - 1] && order[..n][..n - 1] == order[..n - 1];
  }

  lemma AllUnlisted(order: seq<Vlnv>, all: seq<Ip>)
    requires forall ip | ip in all :: forall k | 0 <= k < |order| :: !Matches(order[k], ip.vlnv)
    ensures PickClasses(order[..0], all, []) == Some(([], all)) && SortedByRank(order, [] + all)
  {
    assert [] + all == all;
    forall i | 0 <= i < |all| ensures Rank(order, all[i]) == |order| {
      RankUnlisted(order, all[i]);
      assert all[i] in all;
    }
  }

  lemma LastPresent(order: seq<Vlnv>, n: nat, all: seq<Ip>)
    requires 0 < n <= |order| && OneClass(order, all)
    requires forall ip | ip in all :: forall k | n <= k < |order| :: !Matches(order[k], ip.vlnv)
    requires !Absent(order[n - 1], all) && Scan(order[n - 1], all).Some?
    ensures var (picked, kept) := Scan(order[n - 1], all).value;
      (PickClasses(order[..n - 1], kept, Reverse(picked) + []).Some? &&
       var r := PickClasses(order[..n - 1], kept, Reverse(picked) + []).value; SortedByRank(order, r.0 + r.1))
      <==> SkippedFirst(order, order[n - 1], kept) && AllSpaced(order[..n - 1], kept)
  {
    var cls, m := order[n - 1], n - 1;
    var (picked, kept) := Scan(cls, all).value;
    ScanParts(cls, all);
    ReversePermutes(picked);
    var ordered := Reverse(picked) + [];
    forall ip | ip in ordered ensures Rank(order, ip) == m {
      assert ip in picked && FitsOne(order, ip);
      RankIs(order, ip, m);
    }
    hide Scan, Rank, Reverse, AllSpaced, SkippedFirst, Absent, PickClasses, SortedByRank, Matches;
    assert picked[0] in ordered;
    if AllSpaced(order[..m], kept) {
      SpacedSorts(order, m, kept, ordered);
    }
    if PickClasses(order[..m], kept, ordered).Some? {
      var (first, rest) := PickClasses(order[..m], kept, ordered).value;
      if SortedByRank(order, first + rest) {
        SortedIsSpaced(order, m, kept, ordered, picked[0]);
      }
    }
  }

  /** Full scans sort exactly when what is left of the class above comes first. */
  lemma SpacedSorts(order: seq<Vlnv>, m: nat, kept: seq<Ip>, ordered: seq<Ip>)
    requires m < |order| && OneClass(order, kept) && AllSpaced(order[..m], kept)
    requires forall ip | ip in kept :: forall k | m < k < |order| :: !Matches(order[k], ip.vlnv)
    requires forall ip | ip in ordered :: Rank(order, ip) == m
    ensures PickClasses(order[..m], kept, ordered).Some?
    ensures var (first, rest) := PickClasses(order[..m], kept, ordered).value;
      SortedByRank(order, first + rest) <==> SkippedFirst(order, order[m], kept)
  {
    LeaveSortedIff(order, m, kept);
    hide Rank, AllSpaced, SkippedFirst, PickClasses, SortedByRank, Matches, OneClass;
    FullScansSort(order, m, kept, ordered);
    var (first, rest) := PickClasses(order[..m], kept, ordered).value;
    LeaveRanks(order, m, kept);
    if SkippedFirst(order, order[m], kept) {
      SortedHalves(order, first, rest, m);
    }
    if SortedByRank(order, first + rest) {
      HalvesSorted(order, first, rest);
    }
  }

  /** A sorted outcome leaves nothing of the earlier classes behind. */
  lemma SortedIsSpaced(order: seq<Vlnv>, m: nat, kept: seq<Ip>, ordered: seq<Ip>, ip: Ip)
    requires m < |order| && OneClass(order, kept) && ip in ordered && Rank(order, ip) == m
    requires PickClasses(order[..m], kept, ordered).Some?
    requires var (first, rest) := PickClasses(order[..m], kept, ordered).value; SortedByRank(order, first + rest)
    ensures AllSpaced(order[..m], kept)
  {
    var (first, rest) := PickClasses(order[..m], kept, ordered).value;
    hide Rank, AllSpaced, PickClasses, SortedByRank;
    HalvesSorted(order, first, rest);
    OrderedStays(order[..m], kept, ordered);
    RestMembers(order[..m], kept, ordered);
    forall x | x in rest ensures !Below(order, m, x) {
      assert Rank(order, ip) <= Rank(order, x);
      assert FitsOne(order, x);
      if k :| 0 <= k < m && Matches(order[k], x.vlnv) {
        RankIs(order, x, k);
      }
    }
    NothingLeftOver(order, m, kept, ordered);
  }

  lemma {:induction false} RestMembers(order: seq<Vlnv>, all: seq<Ip>, ordered: seq<Ip>)
    requires PickClasses(order, all, ordered).Some?
    ensures forall ip | ip in PickClasses(order, all, ordered).value.1 :: ip in all
    decreases |order|
  {
    if order != [] {
      var n := |order| - 1;
      ScanParts(order[n], all);
      var r := Scan(order[n], all).value;
      RestMembers(order[..n], r.1, Reverse(r.0) + ordered);
    }
  }

  lemma LeaveRanks(order: seq<Vlnv>, n: nat, ips: seq<Ip>)
    requires n < |order| && OneClass(order, ips)
    ensures forall ip | ip in Leave(order, n, ips) :: n <= Rank(order, ip)
  {
    LeaveMembers(order, n, ips);
    forall ip | ip in Leave(order, n, ips) ensures n <= Rank(order, ip) {
      RankMeaning(order, ip);
    }
  }

  /** Exactly when the listed classes come first, in the order of the list: for
      IPs whose tags fit one class at most, a condition on the configuration. */
  lemma OrderIsSortedIff(order: seq<Vlnv>, all: seq<Ip>)
    requires OneClass(order, all)
    ensures (Ordered(order, all).Some? && SortedByRank(order, Ordered(order, all).value))
       <==> WellPlaced(order, |order|, all)
  {
    assert order[..|order|] == order;
    PrefixSortedIff(order, |order|, all);
  }

  /** `vlnvInitializationOrder` */
  const INITIALIZATION_ORDER := [
    Vlnv("xilinx.com", "ip", "axi_pcie", ""),
    Vlnv("xilinx.com", "module_ref", "axi_pcie_intc", ""),
    Vlnv("xilinx.com", "ip", "axis_switch", ""),
    Vlnv("xilinx.com", "ip", "axi_iic", "")]

  /** IPs with a name in their tag fit one class of the source's list at most. */
  lemma NamedFitsOne(ip: Ip)
    requires ip.vlnv.name != ""
    ensures FitsOne(INITIALIZATION_ORDER, ip)
  {
    var order := INITIALIZATION_ORDER;
    assert |order[0].name| == 8 && |order[1].name| == 13 && |order[2].name| == 11 && |order[3].name| == 7;
    forall j, k | 0 <= j < k < |order| ensures !(Matches(order[j], ip.vlnv) && Matches(order[k], ip.vlnv)) {
      assert |order[j].name| != |order[k].name| && order[j].name != "" && order[k].name != "";
    }
  }

  /** Two neighbours of a listed class between two other IPs: the second one is
      skipped and ends up behind an IP that is not listed. */
  lemma NeighboursAreSkipped(a: Vlnv, x: Ip, a1: Ip, a2: Ip, y: Ip)
    requires Matches(a, a1.vlnv) && Matches(a, a2.vlnv) && !Matches(a, x.vlnv) && !Matches(a, y.vlnv)
    ensures Ordered([a], [x, a1, a2, y]) == Some([a1, x, a2, y])
    ensures !SortedByRank([a], [a1, x, a2, y])
  {
    AbsentIsDefined(a, [y]);
    ScanPair(a, a1, a2, [y]);
    assert [x, a1, a2, y][1..] == [a1] + [a2] + [y];
    assert [x] + ([a2] + [y]) == [x, a2, y];
    assert Scan(a, [x, a1, a2, y]) == Some(([a1], [x, a2, y]));
    assert Reverse([a1]) + [] == [a1] && [a][..0] == [];
    assert PickClasses([a], [x, a1, a2, y], []) == Some(([a1], [x, a2, y]));
    assert [a1] + [x, a2, y] == [a1, x, a2, y];
    RankUnlisted([a], x);
    assert Rank([a], a2) == 0;
    assert Rank([a], [a1, x, a2, y][1]) > Rank([a], [a1, x, a2, y][2]);
  }

  lemma ScanPair(cls: Vlnv, first: Ip, second: Ip, rest: seq<Ip>)
    requires Matches(cls, first.vlnv) && Absent(cls, rest)
    ensures Scan(cls, [first] + [second] + rest) == Some(([first], [second] + rest))
  {
    AbsentIsDefined(cls, rest);
    assert ([first] + [second] + rest)[2..] == rest;
    assert [first] + [] == [first];
  }

  // ------------------------------------------------------------ the loops

  /** The two lists of `make`, and whether the iterator ran past the end. */
  class Sorter {
    var allIps: seq<Ip>
    var orderedIps: seq<Ip>

    constructor (all: seq<Ip>)
      ensures allIps == all && orderedIps == []
    {
      allIps := all;
      orderedIps := [];
    }

    /** The inner loop, for one class. */
    method PickClass(cls: Vlnv) returns (defined: bool)
      modifies this
      ensures defined <==> Scan(cls, old(allIps)).Some?
      ensures defined ==>
        && allIps == Scan(cls, old(allIps)).value.1
        && orderedIps == Reverse(Scan(cls, old(allIps)).value.0) + old(orderedIps)
    {
      hide Scan, Resume, Reverse;
      var it := 0;
      ghost var picked: seq<Ip> := [];
      assert allIps[0..] == allIps && allIps[..0] == [];
      ResumeStart(Scan(cls, allIps));
      ReverseNone();
      while it < |allIps|
        invariant 0 <= it <= |allIps|
        invariant orderedIps == Reverse(picked) + old(orderedIps)
        invariant Scan(cls, old(allIps)) == Resume(picked, allIps[..it], Scan(cls, allIps[it..]))
        decreases |allIps| - it
      {
        ghost var kept, left := allIps[..it], allIps[it..];
        if Matches(cls, allIps[it].vlnv) {
          ResumePick(cls, picked, kept, left);
          var ip := allIps[it];
          orderedIps := [ip] + orderedIps;
          allIps := allIps[..it] + allIps[it + 1..];
          if it == |allIps| {
            return false;
          }
          ReverseSnoc(picked, ip);
          picked := picked + [ip];
          it := it + 1;
          assert allIps[..it] == kept + [left[1]] && allIps[it..] == left[2..];
        } else {
          ResumeKeep(cls, picked, kept, left);
          it := it + 1;
          assert allIps[..it] == kept + [left[0]] && allIps[it..] == left[1..];
        }
      }
      ResumeEnd(cls, picked, allIps);
      assert allIps[..it] == allIps && allIps[it..] == [];
      return true;
    }

    /** The outer loop, and the splice at the end. */
    method Sort(order: seq<Vlnv>) returns (defined: bool)
      requires orderedIps == []
      modifies this
      ensures defined <==> Ordered(order, old(allIps)).Some?
      ensures defined ==> orderedIps == Ordered(order, old(allIps)).value && allIps == []
    {
      var n := |order|;
      assert order[..n] == order;
      while n > 0
        invariant 0 <= n <= |order|
        invariant PickClasses(order, old(allIps), []) == PickClasses(order[..n], allIps, orderedIps)
      {
        assert order[..n][..n - 1] == order[..n - 1];
        defined := PickClass(order[n - 1]);
        if !defined {
          return;
        }
        n := n - 1;
      }
      orderedIps, allIps := orderedIps + allIps, [];
      return true;
    }
  }

  /** The rest of a scan, behind what it has picked and kept so far. */
  ghost function Resume(picked: seq<Ip>, kept: seq<Ip>, rest: Option<(seq<Ip>, seq<Ip>)>): Option<(seq<Ip>, seq<Ip>)> {
    match rest case None => None case Some(r) => Some((picked + r.0, kept + r.1))
  }

  lemma ResumeStart(rest: Option<(seq<Ip>, seq<Ip>)>)
    ensures Resume([], [], rest) == rest
  {
    if rest.Some? {
      assert [] + rest.value.0 == rest.value.0 && [] + rest.value.1 == rest.value.1;
    }
  }

  lemma ResumeEnd(cls: Vlnv, picked: seq<Ip>, kept: seq<Ip>)
    ensures Resume(picked, kept, Scan(cls, [])) == Some((picked, kept))
  {
    assert picked + [] == picked && kept + [] == kept;
  }

  lemma ResumeKeep(cls: Vlnv, picked: seq<Ip>, kept: seq<Ip>, left: seq<Ip>)
    requires left != [] && !Matches(cls, left[0].vlnv)
    ensures Resume(picked, kept, Scan(cls, left)) == Resume(picked, kept + [left[0]], Scan(cls, left[1..]))
  {
    if Scan(cls, left[1..]).Some? {
      var r := Scan(cls, left[1..]).value;
      assert kept + ([left[0]] + r.1) == kept + [left[0]] + r.1;
    }
  }

  lemma ResumePick(cls: Vlnv, picked: seq<Ip>, kept: seq<Ip>, left: seq<Ip>)
    requires left != [] && Matches(cls, left[0].vlnv)
    ensures |left| == 1 ==> Resume(picked, kept, Scan(cls, left)) == None
    ensures |left| > 1 ==>
      Resume(picked, kept, Scan(cls, left)) == Resume(picked + [left[0]], kept + [left[1]], Scan(cls, left[2..]))
  {
    if |left| > 1 && Scan(cls, left[2..]).Some? {
      var r := Scan(cls, left[2..]).value;
      assert picked + ([left[0]] + r.0) == picked + [left[0]] + r.0;
      assert kept + ([left[1]] + r.1) == kept + [left[1]] + r.1;
    }
  }

  lemma ReverseNone()
    ensures Reverse([]) == []
  {
  }

  lemma {:induction false} ReverseSnoc(ips: seq<Ip>, ip: Ip)
    ensures Reverse(ips + [ip]) == [ip] + Reverse(ips)
  {
    if ips == [] {
      assert ips + [ip] == [ip];
    } else {
      ReverseSnoc(ips[1..], ip);
      assert (ips + [ip])[1..] == ips[1..] + [ip];
    }
  }

  // ------------------------------------------------------------ interrupts

  /** `"name": "controller:number"`, already tokenized. */
  datatype IrqEntry = IrqEntry(irq: string, tokens: seq<string>)

  /** A plugin: the tags it handles, whether it is an interrupt controller, and
      whether it can make an instance. */
  datatype Factory = Factory(compatible: Vlnv, isIntc: bool, makes: bool)

  datatype Configured = Configured(ip: Ip, isIntc: bool, irqs: map<string, (int, string)>)

  function LookupFactory(factories: seq<Factory>, v: Vlnv): Option<Factory> {
    if factories == [] then None
    else if Matches(factories[0].compatible, v) then Some(factories[0])
    else LookupFactory(factories[1..], v)
  }

  /** The first configured IP of that name. */
  function LookupByName(done: seq<Configured>, name: string): Option<Configured> {
    if done == [] then None
    else if done[0].ip.name == name then Some(done[0])
    else LookupByName(done[1..], name)
  }

  /** The entry leads to an interrupt: well formed, and its controller is there. */
  predicate Resolves(done: seq<Configured>, e: IrqEntry) {
    && |e.tokens| == 2 && Stoi(e.tokens[1]).Some?
    && LookupByName(done, e.tokens[0]).Some? && LookupByName(done, e.tokens[0]).value.isIntc
  }

  /** An entry on whose number `std::stoi` throws `std::out_of_range`, which
      nobody catches. */
  predicate Overflows(done: seq<Configured>, e: IrqEntry) {
    Resolves(done, e) && !FitsInt(Stoi(e.tokens[1]).value)
  }

  /** None when an exception escapes. */
  function ResolveAll(done: seq<Configured>, entries: seq<IrqEntry>): Option<map<string, (int, string)>> {
    if entries == [] then Some(map[])
    else
      var n := |entries| - 1;
      var irqs, e := ResolveAll(done, entries[..n]), entries[n];
      if irqs.None? || Overflows(done, e) then None
      else if Resolves(done, e) then Some(irqs.value[e.irq := (Stoi(e.tokens[1]).value, e.tokens[0])])
      else irqs
  }

  /** The configure pass over the ordered list; None when an exception escapes. */
  function ConfigureAll(factories: seq<Factory>, irqsOf: string -> seq<IrqEntry>, ips: seq<Ip>): Option<seq<Configured>> {
    if ips == [] then Some([])
    else
      var n := |ips| - 1;
      match ConfigureAll(factories, irqsOf, ips[..n])
      case None => None
      case Some(done) =>
        match LookupFactory(factories, ips[n].vlnv)
        case None => Some(done)
        case Some(f) =>
          if !f.makes then Some(done)
          else
            match ResolveAll(done, irqsOf(ips[n].name))
            case None => None
            case Some(irqs) => Some(done + [Configured(ips[n], f.isIntc, irqs)])
  }

  method Configure(factories: seq<Factory>, irqsOf: string -> seq<IrqEntry>, ips: seq<Ip>)
    returns (done: Option<seq<Configured>>)
    ensures done == ConfigureAll(factories, irqsOf, ips)
  {
    var configured := [];
    for i := 0 to |ips|
      invariant Some(configured) == ConfigureAll(factories, irqsOf, ips[..i])
    {
      assert ips[..i + 1][..i] == ips[..i];
      var f := LookupFactory(factories, ips[i].vlnv);
      if f.Some? && f.value.makes {
        var irqs := ResolveIrqs(configured, irqsOf(ips[i].name));
        if irqs.None? {
          StaysNone(factories, irqsOf, ips, i + 1);
          return None;
        }
        configured := configured + [Configured(ips[i], f.value.isIntc, irqs.value)];
      }
    }
    assert ips[..|ips|] == ips;
    return Some(configured);
  }

  lemma {:induction false} StaysNone(factories: seq<Factory>, irqsOf: string -> seq<IrqEntry>, ips: seq<Ip>, n: nat)
    requires n <= |ips| && ConfigureAll(factories, irqsOf, ips[..n]).None?
    ensures ConfigureAll(factories, irqsOf, ips).None?
    decreases |ips|
  {
    if n == |ips| {
      assert ips[..n] == ips;
    } else {
      var m := |ips| - 1;
      assert ips[..m][..n] == ips[..n];
      StaysNone(factories, irqsOf, ips[..m], n);
    }
  }

  method ResolveIrqs(done: seq<Configured>, entries: seq<IrqEntry>) returns (irqs: Option<map<string, (int, string)>>)
    ensures irqs == ResolveAll(done, entries)
  {
    var table: map<string, (int, string)> := map[];
    for i := 0 to |entries|
      invariant Some(table) == ResolveAll(done, entries[..i])
    {
      assert entries[..i + 1][..i] == entries[..i];
      var tokens := entries[i].tokens;
      if |tokens| == 2 {
        var intc := LookupByName(done, tokens[0]);
        if intc.Some? && intc.value.isIntc {
          var num := Stoi(tokens[1]);
          if num.Some? {
            if !FitsInt(num.value) {
              ResolveFails(done, entries, i);
              return None;
            }
            table := table[entries[i].irq := (num.value, tokens[0])];
          }
        }
      }
    }
    assert entries[..|entries|] == entries;
    return Some(table);
  }

  lemma {:induction false} ResolveFails(done: seq<Configured>, entries: seq<IrqEntry>, k: nat)
    requires k < |entries| && Overflows(done, entries[k])
    ensures ResolveAll(done, entries) == None
  {
    var n := |entries| - 1;
    if k < n {
      ResolveFails(done, entries[..n], k);
    }
  }

  /** The exception escapes exactly when some resolvable entry has a number that
      does not fit. */
  lemma {:induction false} ResolveFailsIff(done: seq<Configured>, entries: seq<IrqEntry>)
    ensures ResolveAll(done, entries) == None <==> exists k | 0 <= k < |entries| :: Overflows(done, entries[k])
  {
    if entries != [] {
      var n := |entries| - 1;
      ResolveFailsIff(done, entries[..n]);
      if k :| 0 <= k < |entries| && Overflows(done, entries[k]) {
        ResolveFails(done, entries, k);
      }
      if ResolveAll(done, entries[..n]) == None {
        var k :| 0 <= k < n && Overflows(done, entries[..n][k]);
        assert Overflows(done, entries[k]);
      }
    }
  }

  /** All numbers in the configuration fit an `int`. */
  ghost predicate NumbersFit(irqsOf: string -> seq<IrqEntry>) {
    forall name, k | 0 <= k < |irqsOf(name)| :: NumberFits(irqsOf(name)[k])
  }

  ghost predicate NumberFits(e: IrqEntry) {
    forall n | |e.tokens| == 2 && Spells(e.tokens[1], n) :: -0x8000_0000 <= n <= 0x7FFF_FFFF
  }

  lemma FittingResolves(done: seq<Configured>, e: IrqEntry)
    requires NumberFits(e)
    ensures !Overflows(done, e)
  {
    if Resolves(done, e) {
      StoiIff(e.tokens[1], Stoi(e.tokens[1]).value);
    }
  }

  lemma {:induction false} FittingConfigures(factories: seq<Factory>, irqsOf: string -> seq<IrqEntry>, ips: seq<Ip>)
    requires NumbersFit(irqsOf)
    ensures ConfigureAll(factories, irqsOf, ips).Some?
    ensures forall done, name :: ResolveAll(done, irqsOf(name)).Some?
    decreases |ips|
  {
    forall done, name ensures ResolveAll(done, irqsOf(name)).Some? {
      ResolveFailsIff(done, irqsOf(name));
      forall k | 0 <= k < |irqsOf(name)| ensures !Overflows(done, irqsOf(name)[k]) {
        FittingResolves(done, irqsOf(name)[k]);
      }
    }
    if ips != [] {
      FittingConfigures(factories, irqsOf, ips[..|ips| - 1]);
    }
  }

  ghost predicate DistinctIrqs(entries: seq<IrqEntry>) {
    forall i, j | 0 <= i < j < |entries| :: entries[i].irq != entries[j].irq
  }

  lemma {:induction false} ResolveAllMeaning(done: seq<Configured>, entries: seq<IrqEntry>, k: nat)
    requires DistinctIrqs(entries) && k < |entries| && ResolveAll(done, entries).Some?
    ensures entries[k].irq in ResolveAll(done, entries).value <==> Resolves(done, entries[k])
    ensures Resolves(done, entries[k]) ==>
      ResolveAll(done, entries).value[entries[k].irq] == (Stoi(entries[k].tokens[1]).value, entries[k].tokens[0])
  {
    var n := |entries| - 1;
    if k < n {
      ResolveAllMeaning(done, entries[..n], k);
    } else {
      ResolvedNames(done, entries[..n]);
    }
  }

  lemma {:induction false} ResolvedNames(done: seq<Configured>, entries: seq<IrqEntry>)
    requires ResolveAll(done, entries).Some?
    ensures forall x | x in ResolveAll(done, entries).value :: Declares(entries, x)
  {
    if entries != [] {
      var n := |entries| - 1;
      ResolvedNames(done, entries[..n]);
      forall x | x in ResolveAll(done, entries).value ensures Declares(entries, x) {
        if x != entries[n].irq {
          assert Declares(entries[..n], x);
          var k :| 0 <= k < n && entries[..n][k].irq == x;
          assert entries[k].irq == x;
        }
      }
    }
  }

  ghost predicate Declares(entries: seq<IrqEntry>, irq: string) {
    exists k | 0 <= k < |entries| :: entries[k].irq == irq
  }

  ghost predicate DistinctNames(ips: seq<Ip>) {
    forall i, j | 0 <= i < j < |ips| :: ips[i].name != ips[j].name
  }

  /** An interrupt controller of that name comes somewhere in the list. */
  ghost predicate HasIntc(factories: seq<Factory>, ips: seq<Ip>, name: string) {
    exists i | 0 <= i < |ips| :: ips[i].name == name && IsIntc(factories, ips[i])
  }

  /** The first plugin that handles the IP's tag, if it makes an instance. */
  ghost predicate MadeBy(factories: seq<Factory>, ip: Ip, i: nat) {
    && i < |factories| && Matches(factories[i].compatible, ip.vlnv) && factories[i].makes
    && forall j | 0 <= j < i :: !Matches(factories[j].compatible, ip.vlnv)
  }

  ghost predicate Makes(factories: seq<Factory>, ip: Ip) {
    exists i: nat :: MadeBy(factories, ip, i)
  }

  ghost predicate IsIntc(factories: seq<Factory>, ip: Ip) {
    exists i: nat :: MadeBy(factories, ip, i) && factories[i].isIntc
  }

  lemma {:induction false} LookupIsFirst(factories: seq<Factory>, ip: Ip) returns (i: nat)
    ensures var f := LookupFactory(factories, ip.vlnv);
      && (f.None? ==> forall j | 0 <= j < |factories| :: !Matches(factories[j].compatible, ip.vlnv))
      && (f.Some? ==>
            && i < |factories| && f.value == factories[i] && Matches(factories[i].compatible, ip.vlnv)
            && forall j | 0 <= j < i :: !Matches(factories[j].compatible, ip.vlnv))
    decreases |factories|
  {
    i := 0;
    if factories != [] && !Matches(factories[0].compatible, ip.vlnv) {
      i := LookupIsFirst(factories[1..], ip);
      i := i + 1;
    }
  }

  lemma FactoryMakes(factories: seq<Factory>, ip: Ip)
    ensures var f := LookupFactory(factories, ip.vlnv);
      && (Makes(factories, ip) <==> f.Some? && f.value.makes)
      && (IsIntc(factories, ip) <==> f.Some? && f.value.makes && f.value.isIntc)
  {
    var i := LookupIsFirst(factories, ip);
    hide LookupFactory, Matches;
    if LookupFactory(factories, ip.vlnv).Some? && factories[i].makes {
      assert MadeBy(factories, ip, i);
    }
    forall j: nat | MadeBy(factories, ip, j) ensures LookupFactory(factories, ip.vlnv) == Some(factories[j]) {
      assert i == j;
    }
  }

  lemma {:induction false} LookupAppend(done: seq<Configured>, c: Configured, name: string)
    ensures LookupByName(done + [c], name) ==
      if LookupByName(done, name).Some? then LookupByName(done, name)
      else if c.ip.name == name then Some(c) else None
  {
    if done != [] {
      assert (done + [c])[1..] == done[1..] + [c];
      LookupAppend(done[1..], c, name);
    }
  }

  /** What the pass knows about controllers is what the list says about them. */
  lemma {:induction false} LookupConfigured(factories: seq<Factory>, irqsOf: string -> seq<IrqEntry>,
                                            ips: seq<Ip>, name: string)
    requires DistinctNames(ips) && ConfigureAll(factories, irqsOf, ips).Some?
    ensures var found := LookupByName(ConfigureAll(factories, irqsOf, ips).value, name);
      && (found.Some? && found.value.isIntc <==> HasIntc(factories, ips, name))
      && (found.Some? ==> exists i | 0 <= i < |ips| :: ips[i].name == name)
    decreases |ips|
  {
    if ips != [] {
      var n := |ips| - 1;
      LookupConfigured(factories, irqsOf, ips[..n], name);
      var done := ConfigureAll(factories, irqsOf, ips[..n]).value;
      var f := LookupFactory(factories, ips[n].vlnv);
      FactoryMakes(factories, ips[n]);
      if f.Some? && f.value.makes {
        LookupAppend(done, Configured(ips[n], f.value.isIntc, ResolveAll(done, irqsOf(ips[n].name)).value), name);
      }
      HasIntcSnoc(factories, ips, name);
      if LookupByName(done, name).Some? {
        var i :| 0 <= i < n && ips[..n][i].name == name;
        assert ips[i].name == name;
      }
    }
  }

  lemma HasIntcSnoc(factories: seq<Factory>, ips: seq<Ip>, name: string)
    requires ips != []
    ensures HasIntc(factories, ips, name) <==>
      HasIntc(factories, ips[..|ips| - 1], name) || (ips[|ips| - 1].name == name && IsIntc(factories, ips[|ips| - 1]))
  {
    var n := |ips| - 1;
    if HasIntc(factories, ips[..n], name) {
      var i :| 0 <= i < n && ips[..n][i].name == name && IsIntc(factories, ips[..n][i]);
      assert ips[i].name == name && IsIntc(factories, ips[i]);
    }
    if HasIntc(factories, ips, name) {
      var i :| 0 <= i < |ips| && ips[i].name == name && IsIntc(factories, ips[i]);
      if i < n {
        assert ips[..n][i].name == name && IsIntc(factories, ips[..n][i]);
      }
    }
  }

  // ------------------------------------------------------------ what the pass leaves

  /** The IPs that a plugin makes an instance of, in order. */
  ghost function MadeIps(factories: seq<Factory>, ips: seq<Ip>): seq<Ip>
    decreases |ips|
  {
    if ips == [] then []
    else
      var n := |ips| - 1;
      MadeIps(factories, ips[..n]) + if Makes(factories, ips[n]) then [ips[n]] else []
  }

  ghost predicate WellFormed(e: IrqEntry) {
    |e.tokens| == 2 && exists n :: Spells(e.tokens[1], n)
  }

  /** An entry is in the table exactly when it is well formed and its controller is
      among the IPs before; then with the number it spells and that controller. */
  ghost predicate EntryIs(factories: seq<Factory>, before: seq<Ip>, e: IrqEntry, irqs: map<string, (int, string)>) {
    && (e.irq in irqs <==> WellFormed(e) && HasIntc(factories, before, e.tokens[0]))
    && (e.irq in irqs ==>
          && Spells(e.tokens[1], irqs[e.irq].0) && irqs[e.irq].1 == e.tokens[0]
          && -0x8000_0000 <= irqs[e.irq].0 <= 0x7FFF_FFFF)
  }

  /** The record of an IP that was configured behind the IPs in `before`. */
  ghost predicate RecordIs(factories: seq<Factory>, before: seq<Ip>, entries: seq<IrqEntry>, c: Configured) {
    && (c.isIntc <==> IsIntc(factories, c.ip))
    && (forall x | x in c.irqs :: Declares(entries, x))
    && (forall k | 0 <= k < |entries| :: EntryIs(factories, before, entries[k], c.irqs))
  }

  lemma TableEntry(factories: seq<Factory>, irqsOf: string -> seq<IrqEntry>, before: seq<Ip>, entries: seq<IrqEntry>, k: nat)
    requires DistinctNames(before) && ConfigureAll(factories, irqsOf, before).Some?
    requires DistinctIrqs(entries) && k < |entries|
    requires ResolveAll(ConfigureAll(factories, irqsOf, before).value, entries).Some?
    ensures EntryIs(factories, before, entries[k], ResolveAll(ConfigureAll(factories, irqsOf, before).value, entries).value)
  {
    hide ConfigureAll, ResolveAll, LookupByName, HasIntc, Spells, Stoi, DistinctNames, DistinctIrqs;
    var done, e := ConfigureAll(factories, irqsOf, before).value, entries[k];
    ResolveAllMeaning(done, entries, k);
    ResolveFailsIff(done, entries);
    if |e.tokens| == 2 {
      LookupConfigured(factories, irqsOf, before, e.tokens[0]);
      forall n ensures Stoi(e.tokens[1]) == Some(n) <==> Spells(e.tokens[1], n) {
        StoiIff(e.tokens[1], n);
      }
    }
  }

  /** The pass leaves a record for exactly the IPs that a plugin makes an instance
      of, in order, ... */
  lemma {:induction false} ConfiguresMade(factories: seq<Factory>, irqsOf: string -> seq<IrqEntry>, ips: seq<Ip>)
    requires ConfigureAll(factories, irqsOf, ips).Some?
    ensures var done := ConfigureAll(factories, irqsOf, ips).value;
      |done| == |MadeIps(factories, ips)| && forall p | 0 <= p < |done| :: done[p].ip == MadeIps(factories, ips)[p]
    decreases |ips|
  {
    hide ResolveAll, LookupFactory, Makes;
    if ips != [] {
      ConfiguresMade(factories, irqsOf, ips[..|ips| - 1]);
      FactoryMakes(factories, ips[|ips| - 1]);
    }
  }

  /** ... and each record says of the IP what the list and its entries say. */
  lemma {:induction false} RecordAt(factories: seq<Factory>, irqsOf: string -> seq<IrqEntry>, ips: seq<Ip>, j: nat)
    requires DistinctNames(ips) && ConfigureAll(factories, irqsOf, ips).Some?
    requires j < |ips| && Makes(factories, ips[j]) && DistinctIrqs(irqsOf(ips[j].name))
    ensures var done, p := ConfigureAll(factories, irqsOf, ips).value, |MadeIps(factories, ips[..j])|;
      p < |done| && done[p].ip == ips[j] && RecordIs(factories, ips[..j], irqsOf(ips[j].name), done[p])
    decreases |ips|
  {
    var n := |ips| - 1;
    if j < n {
      assert ips[..n][..j] == ips[..j];
      RecordAt(factories, irqsOf, ips[..n], j);
    } else {
      LastRecord(factories, irqsOf, ips);
    }
  }

  lemma LastRecord(factories: seq<Factory>, irqsOf: string -> seq<IrqEntry>, ips: seq<Ip>)
    requires DistinctNames(ips) && ConfigureAll(factories, irqsOf, ips).Some?
    requires ips != [] && Makes(factories, ips[|ips| - 1]) && DistinctIrqs(irqsOf(ips[|ips| - 1].name))
    ensures var done, n := ConfigureAll(factories, irqsOf, ips).value, |ips| - 1;
      var p := |MadeIps(factories, ips[..n])|;
      p < |done| && done[p].ip == ips[n] && RecordIs(factories, ips[..n], irqsOf(ips[n].name), done[p])
  {
    hide ResolveAll, LookupFactory, Makes, IsIntc, EntryIs;
    var n := |ips| - 1;
    var before, entries := ips[..n], irqsOf(ips[n].name);
    ConfiguresMade(factories, irqsOf, before);
    FactoryMakes(factories, ips[n]);
    var done := ConfigureAll(factories, irqsOf, before).value;
    ResolvedNames(done, entries);
    forall k | 0 <= k < |entries| ensures EntryIs(factories, before, entries[k], ResolveAll(done, entries).value) {
      TableEntry(factories, irqsOf, before, entries, k);
    }
  }

  /** The pass fails exactly when an entry of an IP that is made is well formed,
      its controller stands before, and its number does not fit. */
  lemma {:induction false} ConfigureFailsIff(factories: seq<Factory>, irqsOf: string -> seq<IrqEntry>, ips: seq<Ip>)
    requires DistinctNames(ips)
    ensures ConfigureAll(factories, irqsOf, ips).None? <==>
      exists j | 0 <= j < |ips| :: Makes(factories, ips[j]) && Throws(factories, ips[..j], irqsOf(ips[j].name))
    decreases |ips|
  {
    hide ResolveAll, LookupFactory, Makes, Throws;
    if ips != [] {
      var n := |ips| - 1;
      ConfigureFailsIff(factories, irqsOf, ips[..n]);
      forall j | 0 <= j < n ensures ips[..n][..j] == ips[..j] && ips[..n][j] == ips[j] {
      }
      FactoryMakes(factories, ips[n]);
      if ConfigureAll(factories, irqsOf, ips[..n]).Some? {
        ThrowsIff(factories, irqsOf, ips[..n], irqsOf(ips[n].name));
      } else {
        var j :| 0 <= j < n && Makes(factories, ips[..n][j]) && Throws(factories, ips[..n][..j], irqsOf(ips[..n][j].name));
        assert Makes(factories, ips[j]) && Throws(factories, ips[..j], irqsOf(ips[j].name));
      }
    }
  }

  ghost predicate Throws(factories: seq<Factory>, before: seq<Ip>, entries: seq<IrqEntry>) {
    exists k | 0 <= k < |entries| :: WellFormed(entries[k]) && HasIntc(factories, before, entries[k].tokens[0]) && !NumberFits(entries[k])
  }

  lemma ThrowsIff(factories: seq<Factory>, irqsOf: string -> seq<IrqEntry>, before: seq<Ip>, entries: seq<IrqEntry>)
    requires DistinctNames(before) && ConfigureAll(factories, irqsOf, before).Some?
    ensures ResolveAll(ConfigureAll(factories, irqsOf, before).value, entries).None? <==> Throws(factories, before, entries)
  {
    hide ConfigureAll, ResolveAll, LookupByName, HasIntc, Spells, Stoi, DistinctNames;
    var done := ConfigureAll(factories, irqsOf, before).value;
    ResolveFailsIff(done, entries);
    forall k | 0 <= k < |entries| ensures Overflows(done, entries[k]) <==>
      WellFormed(entries[k]) && HasIntc(factories, before, entries[k].tokens[0]) && !NumberFits(entries[k])
    {
      var e := entries[k];
      if |e.tokens| == 2 {
        LookupConfigured(factories, irqsOf, before, e.tokens[0]);
        forall n ensures Stoi(e.tokens[1]) == Some(n) <==> Spells(e.tokens[1], n) {
          StoiIff(e.tokens[1], n);
        }
      }
    }
  }

  /** In the single pass, a well-formed interrupt entry of the j-th IP gets into its
      record exactly when the controller it names stands before that IP. */
  lemma IrqResolvesIff(factories: seq<Factory>, irqsOf: string -> seq<IrqEntry>, ips: seq<Ip>, j: nat, k: nat)
    requires DistinctNames(ips) && j < |ips| && NumbersFit(irqsOf) && Makes(factories, ips[j])
    requires DistinctIrqs(irqsOf(ips[j].name)) && k < |irqsOf(ips[j].name)| && WellFormed(irqsOf(ips[j].name)[k])
    ensures ConfigureAll(factories, irqsOf, ips).Some?
    ensures var e := irqsOf(ips[j].name)[k];
      exists c | c in ConfigureAll(factories, irqsOf, ips).value ::
        c.ip == ips[j] && (e.irq in c.irqs <==> HasIntc(factories, ips[..j], e.tokens[0]))
        && EntryIs(factories, ips[..j], e, c.irqs)
  {
    hide ConfigureAll, MadeIps, Makes, HasIntc, WellFormed, DistinctNames;
    FittingConfigures(factories, irqsOf, ips);
    RecordAt(factories, irqsOf, ips, j);
    var c := ConfigureAll(factories, irqsOf, ips).value[|MadeIps(factories, ips[..j])|];
    assert c in ConfigureAll(factories, irqsOf, ips).value && EntryIs(factories, ips[..j], irqsOf(ips[j].name)[k], c.irqs);
  }

  /** The record of the IP has this entry, with its number and controller. */
  ghost predicate Found(configured: seq<Configured>, ip: Ip, e: IrqEntry) {
    exists c | c in configured ::
      && c.ip == ip && |e.tokens| == 2 && e.irq in c.irqs
      && Spells(e.tokens[1], c.irqs[e.irq].0) && c.irqs[e.irq].1 == e.tokens[0]
  }

  /** Hence, in a sorted order, interrupts of an IP ranked behind its controller
      always resolve, whatever the order of the configuration file. */
  lemma LaterClassResolves(factories: seq<Factory>, irqsOf: string -> seq<IrqEntry>, order: seq<Vlnv>,
                           ips: seq<Ip>, i: nat, j: nat, k: nat)
    requires DistinctNames(ips) && SortedByRank(order, ips) && i < |ips| && j < |ips| && NumbersFit(irqsOf)
    requires IsIntc(factories, ips[i]) && Makes(factories, ips[j]) && Rank(order, ips[i]) < Rank(order, ips[j])
    requires var entries := irqsOf(ips[j].name);
      DistinctIrqs(entries) && k < |entries| && WellFormed(entries[k]) && entries[k].tokens[0] == ips[i].name
    ensures ConfigureAll(factories, irqsOf, ips).Some?
    ensures Found(ConfigureAll(factories, irqsOf, ips).value, ips[j], irqsOf(ips[j].name)[k])
  {
    hide ConfigureAll, Makes, IsIntc, Rank, NumbersFit, DistinctIrqs, Spells;
    assert i < j;
    assert ips[..j][i] == ips[i];
    hide SortedByRank;
    IrqResolvesIff(factories, irqsOf, ips, j, k);
    assert HasIntc(factories, ips[..j], ips[i].name);
  }

  lemma TwiceCounts(s: seq<Ip>, i: nat, j: nat)
    requires i < j < |s| && s[i] == s[j]
    ensures multiset(s)[s[i]] >= 2
  {
    assert s == s[..j] + s[j..];
    assert s[i] in s[..j] && s[j] in s[j..];
    assert multiset(s) == multiset(s[..j]) + multiset(s[j..]);
    assert s[..j][i] == s[i] && s[j..][0] == s[j];
  }

  lemma {:induction false} OnceCounts(s: seq<Ip>, ip: Ip)
    requires DistinctNames(s)
    ensures multiset(s)[ip] <= 1
  {
    if s != [] {
      var n := |s| - 1;
      OnceCounts(s[..n], ip);
      assert s == s[..n] + [s[n]];
      assert s[n] !in s[..n];
    }
  }

  lemma PermutationKeepsNames(s: seq<Ip>, t: seq<Ip>)
    requires DistinctNames(s) && multiset(t) == multiset(s)
    ensures DistinctNames(t)
  {
    forall i, j | 0 <= i < j < |t| ensures t[i].name != t[j].name {
      assert t[i] in multiset(s) && t[j] in multiset(s);
      var a :| 0 <= a < |s| && s[a] == t[i];
      var b :| 0 <= b < |s| && s[b] == t[j];
      if t[i].name == t[j].name {
        assert a == b;
        TwiceCounts(t, i, j);
        OnceCounts(s, t[i]);
      }
    }
  }

  /** From the configuration file to resolved interrupts: distinct names, IPs
      placed well, and a controller of a class listed before the IP's own class. */
  lemma MakeResolves(factories: seq<Factory>, irqsOf: string -> seq<IrqEntry>, order: seq<Vlnv>, all: seq<Ip>,
                     intc: Ip, ip: Ip, k: nat)
    requires DistinctNames(all) && intc in all && ip in all && NumbersFit(irqsOf)
    requires OneClass(order, all) && WellPlaced(order, |order|, all)
    requires IsIntc(factories, intc) && Makes(factories, ip) && Rank(order, intc) < Rank(order, ip)
    requires var entries := irqsOf(ip.name);
      DistinctIrqs(entries) && k < |entries| && WellFormed(entries[k]) && entries[k].tokens[0] == intc.name
    ensures Ordered(order, all).Some? && ConfigureAll(factories, irqsOf, Ordered(order, all).value).Some?
    ensures Found(ConfigureAll(factories, irqsOf, Ordered(order, all).value).value, ip, irqsOf(ip.name)[k])
  {
    hide WellPlaced, Rank, ConfigureAll, Found;
    OrderIsSortedIff(order, all);
    OrderIsPermutation(order, all);
    var ips := Ordered(order, all).value;
    PermutationKeepsNames(all, ips);
    assert intc in multiset(ips) && ip in multiset(ips);
    var i :| 0 <= i < |ips| && ips[i] == intc;
    var j :| 0 <= j < |ips| && ips[j] == ip;
    LaterClassResolves(factories, irqsOf, order, ips, i, j, k);
  }
}
