/** What ensuring, inserting and trimming promise about the block map and about ownership. */
module ExtentSpec {
  import opened Wrappers
  import opened Intervals
  import opened Radix
  import opened ExtentTree

  // --- ownership ---------------------------------------------------------------------------

  /** The units blocks are handed out in, as the allocator's tables tell them. */
  type Unit = g: nat | g == 1 || g == 16 || g == 256 witness 1

  type Units = map<nat, Unit>

  /** What the allocator has left to give, the units of what it gave, and what went besides what was asked for. */
  datatype Stock = Stock(pool: set<nat>, units: Units, slack: multiset<nat>) {
    function Unowned(): multiset<nat> {
      multiset(pool) + slack
    }
  }

  /** Every block that leaves the pool is owned from then on, or went as slack; none is lost, none is owned twice. */
  ghost predicate Kept(b0: multiset<nat>, k0: Stock, b1: multiset<nat>, k1: Stock) {
    k1.pool <= k0.pool && k0.slack <= k1.slack && b1 + k1.Unowned() == b0 + k0.Unowned()
  }

  lemma KeptTrans(b0: multiset<nat>, k0: Stock, b1: multiset<nat>, k1: Stock, b2: multiset<nat>, k2: Stock)
    requires Kept(b0, k0, b1, k1) && Kept(b1, k1, b2, k2)
    ensures Kept(b0, k0, b2, k2)
  {
  }

  /** A step on one part of a larger whole. */
  lemma KeptPart(b0: multiset<nat>, k0: Stock, b1: multiset<nat>, k1: Stock, w0: multiset<nat>, w1: multiset<nat>)
    requires Kept(b0, k0, b1, k1) && w1 + b0 == w0 + b1
    ensures Kept(w0, k0, w1, k1)
  {
    forall x: nat ensures (w1 + k1.Unowned())[x] == (w0 + k0.Unowned())[x] {
      assert (w1 + b0)[x] == (w0 + b1)[x];
      assert (b1 + k1.Unowned())[x] == (b0 + k0.Unowned())[x];
    }
  }

  lemma KidKept(kids: seq<Child>, level: nat, i: nat, ch: Child, k0: Stock, k1: Stock)
    requires i < |kids| && Kept(Bag(kids[i], level), k0, Bag(ch, level), k1)
    ensures Kept(BagKids(kids, level), k0, BagKids(kids[i := ch], level), k1)
  {
    hide Kept;
    BagUpdate(kids, level, i, ch);
    KeptPart(Bag(kids[i], level), k0, Bag(ch, level), k1, BagKids(kids, level), BagKids(kids[i := ch], level));
  }

  /** A run taken out of the pool; what else left it is slack. */
  ghost predicate Took(k0: Stock, lo: nat, n: nat, k1: Stock) {
    && Interval(lo, n) <= k0.pool && k1.pool <= k0.pool - Interval(lo, n)
    && k1.slack == k0.slack + multiset(k0.pool - k1.pool - Interval(lo, n))
  }

  lemma TakenKept(b: multiset<nat>, k0: Stock, lo: nat, n: nat, k1: Stock)
    requires Took(k0, lo, n, k1)
    ensures Kept(b, k0, b + RunBag(lo, n), k1)
  {
    var run := Interval(lo, n);
    var rest := k0.pool - k1.pool - run;
    assert k0.pool == k1.pool + run + rest;
    assert multiset(k0.pool) == multiset(k1.pool) + multiset(run) + multiset(rest);
    assert RunBag(lo, n) == multiset(run);
  }

  // --- ensuring -----------------------------------------------------------------------------

  /** One block's answer before and after: kept if there was one, made if asked for, from the pool. */
  ghost predicate Ens(a: Option<nat>, b: Option<nat>, asked: bool, pool: set<nat>) {
    && (a.Some? ==> b == a)
    && (asked ==> b.Some?)
    && (a.None? && !asked ==> b.None?)
    && (a.None? && b.Some? ==> b.value in pool)
  }

  ghost predicate Ensured(ch: Child, now: Child, level: nat, lo: nat, hi: nat, pool: set<nat>) {
    forall x: nat :: Ens(Look(ch, level, x), Look(now, level, x), lo <= x < hi, pool)
  }

  ghost predicate KidsEnsured(kids: seq<Child>, now: seq<Child>, level: nat, lo: nat, hi: nat, pool: set<nat>) {
    forall x: nat :: Ens(LookKids(kids, level, x), LookKids(now, level, x), lo <= x < hi, pool)
  }

  /** The newly mapped blocks are exactly the former holes of the range; all else is as before. */
  ghost predicate MapEnsured(m: FileMap, now: FileMap, lo: nat, hi: nat, pool: set<nat>) {
    forall f: nat :: Ens(BlockOf(m, f), BlockOf(now, f), lo <= f < hi, pool)
  }

  lemma KidEnsured(kids: seq<Child>, i: nat, ch: Child, level: nat, lo: nat, hi: nat, pool: set<nat>)
    requires i < |kids| && Start(i, Cov(level)) <= lo <= hi <= Start(i, Cov(level)) + Cov(level)
    requires Ensured(kids[i], ch, level, lo - Start(i, Cov(level)), hi - Start(i, Cov(level)), pool)
    ensures KidsEnsured(kids, kids[i := ch], level, lo, hi, pool)
  {
    hide Start, Slot, Sub;
    var c := Cov(level);
    forall x: nat
      ensures Ens(LookKids(kids, level, x), LookKids(kids[i := ch], level, x), lo <= x < hi, pool)
    {
      SlotIff(x, i, c);
    }
  }

  lemma EnsuredTrans(kids: seq<Child>, mid: seq<Child>, now: seq<Child>, level: nat, lo: nat, at: nat, hi: nat, pool: set<nat>, less: set<nat>)
    requires KidsEnsured(kids, mid, level, lo, at, pool) && KidsEnsured(mid, now, level, at, hi, less)
    requires lo <= at <= hi && less <= pool
    ensures KidsEnsured(kids, now, level, lo, hi, pool)
  {
    hide LookKids;
  }

  // --- inserting --------------------------------------------------------------------------------

  /** One block's answer before and after an insertion that gives it the address v if asked for. */
  ghost predicate Ins(a: Option<nat>, b: Option<nat>, asked: bool, v: int) {
    if asked then b.Some? && b.value == v else b == a
  }

  ghost predicate Inserted(ch: Child, now: Child, level: nat, f: nat, blk: nat, len: nat) {
    forall x: nat :: Ins(Look(ch, level, x), Look(now, level, x), f <= x < f + len, blk + x - f)
  }

  ghost predicate KidsInserted(kids: seq<Child>, now: seq<Child>, level: nat, f: nat, blk: nat, len: nat) {
    forall x: nat :: Ins(LookKids(kids, level, x), LookKids(now, level, x), f <= x < f + len, blk + x - f)
  }

  ghost predicate HoleIn(ch: Child, level: nat, lo: nat, hi: nat) {
    forall x: nat :: lo <= x < hi ==> Look(ch, level, x).None?
  }

  ghost predicate HoleInKids(kids: seq<Child>, level: nat, lo: nat, hi: nat) {
    forall x: nat :: lo <= x < hi ==> LookKids(kids, level, x).None?
  }

  lemma KidHole(kids: seq<Child>, i: nat, level: nat, lo: nat, hi: nat)
    requires i < |kids| && Start(i, Cov(level)) <= lo <= hi <= Start(i, Cov(level)) + Cov(level)
    requires HoleInKids(kids, level, lo, hi)
    ensures HoleIn(kids[i], level, lo - Start(i, Cov(level)), hi - Start(i, Cov(level)))
  {
    hide Start, Slot, Sub;
    var c := Cov(level);
    forall s: nat | lo - Start(i, c) <= s < hi - Start(i, c) ensures Look(kids[i], level, s).None? {
      KidLook(kids, level, i, s);
      assert LookKids(kids, level, Start(i, c) + s).None?;
    }
  }

  lemma KidInserted(kids: seq<Child>, i: nat, ch: Child, level: nat, f: nat, blk: nat, len: nat)
    requires i < |kids| && Start(i, Cov(level)) <= f && f + len <= Start(i, Cov(level)) + Cov(level)
    requires Inserted(kids[i], ch, level, f - Start(i, Cov(level)), blk, len)
    ensures KidsInserted(kids, kids[i := ch], level, f, blk, len)
  {
    hide Start, Slot, Sub;
    var c := Cov(level);
    forall x: nat
      ensures Ins(LookKids(kids, level, x), LookKids(kids[i := ch], level, x), f <= x < f + len, blk + x - f)
    {
      SlotIff(x, i, c);
    }
  }

  lemma InsertedTrans(kids: seq<Child>, mid: seq<Child>, now: seq<Child>, level: nat, f: nat, blk: nat, n: nat, m: nat)
    requires KidsInserted(kids, mid, level, f, blk, n) && KidsInserted(mid, now, level, f + n, blk + n, m)
    ensures KidsInserted(kids, now, level, f, blk, n + m)
  {
    hide LookKids;
  }

  /** A child one level up and the children it consists of give the same answers. */
  ghost predicate SameLook(ch: Child, level: nat, kids: seq<Child>, below: nat) {
    level == below + 1 && forall x: nat :: Look(ch, level, x) == LookKids(kids, below, x)
  }

  lemma NodeLook(at: nat, kids: seq<Child>, below: nat)
    ensures SameLook(Refined(at, below, kids), below + 1, kids, below)
  {
  }

  lemma RefineInserted(ch: Child, kids: seq<Child>, now: seq<Child>, level: nat, below: nat, at: nat, f: nat, blk: nat, len: nat)
    requires SameLook(ch, level, kids, below) && KidsInserted(kids, now, below, f, blk, len)
    ensures Inserted(ch, Refined(at, below, now), level, f, blk, len)
  {
    hide Look, LookKids;
    NodeLook(at, now, below);
  }

  lemma RefinedHole(ch: Child, kids: seq<Child>, level: nat, below: nat, lo: nat, hi: nat)
    requires SameLook(ch, level, kids, below) && HoleIn(ch, level, lo, hi)
    ensures HoleInKids(kids, below, lo, hi)
  {
    hide Look, LookKids;
  }

  lemma RefineEnsured(ch: Child, kids: seq<Child>, now: seq<Child>, level: nat, below: nat, at: nat, lo: nat, hi: nat, pool: set<nat>)
    requires SameLook(ch, level, kids, below) && KidsEnsured(kids, now, below, lo, hi, pool)
    ensures Ensured(ch, Refined(at, below, now), level, lo, hi, pool)
  {
    hide Look, LookKids;
    NodeLook(at, now, below);
  }

  // --- inline extents -----------------------------------------------------------------------------

  lemma {:induction false} InlineFound(extents: seq<Extent>, f: nat) returns (i: nat)
    requires LookInline(extents, f).Some?
    ensures i < |extents| && InExtent(extents[i], f) && LookInline(extents, f) == Some(extents[i].blk + (f - extents[i].first))
  {
    if InExtent(extents[0], f) {
      i := 0;
    } else {
      i := InlineFound(extents[1..], f);
      i := i + 1;
    }
  }

  lemma {:induction false} InlineNone(extents: seq<Extent>, f: nat)
    requires forall i :: 0 <= i < |extents| ==> !InExtent(extents[i], f)
    ensures LookInline(extents, f).None?
  {
    if extents != [] {
      InlineNone(extents[1..], f);
    }
  }

  /** The answer depends on which extents there are, not on their order. */
  lemma InlineSame(a: seq<Extent>, b: seq<Extent>, f: nat)
    requires ExtentsOk(b) && (forall e :: e in a <==> e in b)
    requires ExtentsOk(a)
    ensures LookInline(a, f) == LookInline(b, f)
  {
    if LookInline(a, f).Some? {
      var i := InlineFound(a, f);
      assert a[i] in b;
      var j :| 0 <= j < |b| && b[j] == a[i];
      InlineAt(b, j, f);
    } else if LookInline(b, f).Some? {
      var i := InlineFound(b, f);
      assert b[i] in a;
      var j :| 0 <= j < |a| && a[j] == b[i];
      InlineAt(a, j, f);
    }
  }

  lemma {:induction false} BagExtentUpdate(extents: seq<Extent>, i: nat, e: Extent)
    requires i < |extents|
    ensures BagExtents(extents[i := e]) + RunBag(extents[i].blk, extents[i].blocks)
         == BagExtents(extents) + RunBag(e.blk, e.blocks)
  {
    hide RunBag;
    var n := |extents| - 1;
    var rest, now := extents[..n], extents[i := e];
    assert BagExtents(now) == BagExtents(now[..n]) + RunBag(now[n].blk, now[n].blocks);
    var old1, new1 := RunBag(extents[i].blk, extents[i].blocks), RunBag(e.blk, e.blocks);
    if i < n {
      assert now[..n] == rest[i := e];
      BagExtentUpdate(rest, i, e);
      Swap(BagExtents(rest[i := e]), old1, BagExtents(rest), new1, RunBag(extents[n].blk, extents[n].blocks));
    } else {
      assert now[..n] == rest;
      Swap(BagExtents(rest), old1, BagExtents(rest), old1, new1);
    }
  }

  lemma BagExtentAppend(extents: seq<Extent>, e: Extent)
    ensures BagExtents(extents + [e]) == BagExtents(extents) + RunBag(e.blk, e.blocks)
  {
    assert (extents + [e])[..|extents|] == extents;
  }

  /** A new extent in a hole. */
  lemma AppendExtent(extents: seq<Extent>, e: Extent)
    requires ExtentsOk(extents) && e.blocks >= 1
    requires forall i :: 0 <= i < |extents| ==> Disjoint(extents[i], e)
    ensures ExtentsOk(extents + [e])
    ensures forall f: nat :: LookInline(extents + [e], f) ==
              if InExtent(e, f) then Some(e.blk + (f - e.first)) else LookInline(extents, f)
  {
    var all := extents + [e];
    forall f: nat ensures LookInline(all, f) == if InExtent(e, f) then Some(e.blk + (f - e.first)) else LookInline(extents, f) {
      if InExtent(e, f) {
        InlineAt(all, |extents|, f);
      } else if LookInline(extents, f).Some? {
        var i := InlineFound(extents, f);
        InlineAt(all, i, f);
      } else {
        NoneCovers(extents, f);
        InlineNone(all, f);
      }
    }
  }

  lemma NoneCovers(extents: seq<Extent>, f: nat)
    requires ExtentsOk(extents) && LookInline(extents, f).None?
    ensures forall i :: 0 <= i < |extents| ==> !InExtent(extents[i], f)
  {
    forall i | 0 <= i < |extents| ensures !InExtent(extents[i], f) {
      if InExtent(extents[i], f) {
        InlineAt(extents, i, f);
      }
    }
  }

  /** An extent grown by n physically contiguous blocks into the hole behind it. */
  lemma GrowExtent(extents: seq<Extent>, i: nat, n: nat)
    requires ExtentsOk(extents) && i < |extents|
    requires var end := extents[i].first + extents[i].blocks;
      forall j :: 0 <= j < |extents| ==> Disjoint(extents[j], Extent(end, 0, n))
    ensures var e := extents[i]; var all := extents[i := Extent(e.first, e.blk, e.blocks + n)];
      && ExtentsOk(all)
      && forall f: nat :: LookInline(all, f) ==
           if e.first + e.blocks <= f < e.first + e.blocks + n then Some(e.blk + (f - e.first)) else LookInline(extents, f)
  {
    var e := extents[i];
    var all := extents[i := Extent(e.first, e.blk, e.blocks + n)];
    forall j, k | 0 <= j < |all| && 0 <= k < |all| && j != k ensures Disjoint(all[j], all[k]) {
      assert Disjoint(extents[j], extents[k]);
      assert Disjoint(extents[k], Extent(e.first + e.blocks, 0, n)) && Disjoint(extents[j], Extent(e.first + e.blocks, 0, n));
    }
    forall f: nat ensures LookInline(all, f) ==
      if e.first + e.blocks <= f < e.first + e.blocks + n then Some(e.blk + (f - e.first)) else LookInline(extents, f)
    {
      if InExtent(all[i], f) {
        InlineAt(all, i, f);
        if InExtent(e, f) {
          InlineAt(extents, i, f);
        }
      } else if LookInline(extents, f).Some? {
        var j := InlineFound(extents, f);
        InlineAt(all, j, f);
      } else {
        NoneCovers(extents, f);
        InlineNone(all, f);
      }
    }
  }

  // --- sorting --------------------------------------------------------------------------------------

  function SortIn(e: Extent, extents: seq<Extent>): seq<Extent> {
    if extents == [] || e.first < extents[0].first then [e] + extents
    else [extents[0]] + SortIn(e, extents[1..])
  }

  /** The extents ordered by file block. */
  function Sorted(extents: seq<Extent>): seq<Extent> {
    if extents == [] then [] else SortIn(extents[|extents| - 1], Sorted(extents[..|extents| - 1]))
  }

  ghost predicate InOrder(extents: seq<Extent>) {
    forall i, j :: 0 <= i < j < |extents| ==> extents[i].first <= extents[j].first
  }

  lemma {:induction false} SortInMembers(e: Extent, extents: seq<Extent>)
    ensures |SortIn(e, extents)| == |extents| + 1
    ensures forall x :: x in SortIn(e, extents) <==> x == e || x in extents
  {
    if extents != [] && e.first >= extents[0].first {
      SortInMembers(e, extents[1..]);
      assert extents == [extents[0]] + extents[1..];
    }
  }

  /** All of a row lie behind a point, and apart from an extent. */
  ghost predicate AllFrom(extents: seq<Extent>, f: nat) {
    forall x :: x in extents ==> f <= x.first
  }

  ghost predicate AllApart(extents: seq<Extent>, e: Extent) {
    forall x :: x in extents ==> Disjoint(x, e)
  }

  lemma InOrderFront(e: Extent, extents: seq<Extent>)
    ensures InOrder([e] + extents) <==> InOrder(extents) && AllFrom(extents, e.first)
  {
    var all := [e] + extents;
    if InOrder(all) {
      forall i, j | 0 <= i < j < |extents| ensures extents[i].first <= extents[j].first {
        assert all[i + 1].first <= all[j + 1].first;
      }
      forall x | x in extents ensures e.first <= x.first {
        var i :| 0 <= i < |extents| && extents[i] == x;
        assert all[0].first <= all[i + 1].first;
      }
    }
  }

  lemma {:induction false} SortInOrder(e: Extent, extents: seq<Extent>)
    requires InOrder(extents)
    ensures InOrder(SortIn(e, extents))
  {
    if extents != [] {
      assert extents == [extents[0]] + extents[1..];
      InOrderFront(extents[0], extents[1..]);
      InOrderFront(e, extents);
      if e.first >= extents[0].first {
        SortInOrder(e, extents[1..]);
        SortInMembers(e, extents[1..]);
        InOrderFront(extents[0], SortIn(e, extents[1..]));
      }
    }
  }

  lemma OkFront(e: Extent, extents: seq<Extent>)
    ensures ExtentsOk([e] + extents) <==> ExtentsOk(extents) && e.blocks >= 1 && AllApart(extents, e)
  {
    var all := [e] + extents;
    if ExtentsOk(all) {
      assert all[0] == e;
      forall i, j | 0 <= i < |extents| && 0 <= j < |extents| && i != j ensures Disjoint(extents[i], extents[j]) {
        assert Disjoint(all[i + 1], all[j + 1]);
      }
      forall i | 0 <= i < |extents| ensures extents[i].blocks >= 1 {
        assert all[i + 1].blocks >= 1;
      }
      forall x | x in extents ensures Disjoint(x, e) {
        var i :| 0 <= i < |extents| && extents[i] == x;
        assert Disjoint(all[i + 1], all[0]);
      }
    }
    if ExtentsOk(extents) && AllApart(extents, e) {
      forall i, j | 0 <= i < |all| && 0 <= j < |all| && i != j ensures Disjoint(all[i], all[j]) {
        assert i > 0 ==> all[i] in extents;
        assert j > 0 ==> all[j] in extents;
      }
    }
  }

  lemma {:induction false} SortInOk(e: Extent, extents: seq<Extent>)
    requires ExtentsOk(extents) && e.blocks >= 1 && AllApart(extents, e)
    ensures ExtentsOk(SortIn(e, extents))
  {
    hide ExtentsOk;
    OkFront(e, extents);
    if extents == [] {
      assert SortIn(e, extents) == [e] + extents;
    } else {
      assert extents == [extents[0]] + extents[1..];
      OkFront(extents[0], extents[1..]);
      if e.first >= extents[0].first {
        SortInOk(e, extents[1..]);
        SortInMembers(e, extents[1..]);
        assert AllApart(SortIn(e, extents[1..]), extents[0]) by {
          assert extents[0] in extents;
        }
        OkFront(extents[0], SortIn(e, extents[1..]));
      }
    }
  }

  lemma {:induction false} SortInBag(e: Extent, extents: seq<Extent>)
    ensures BagExtents(SortIn(e, extents)) == BagExtents(extents) + RunBag(e.blk, e.blocks)
  {
    hide RunBag;
    BagExtentFront(e, extents);
    if extents != [] && e.first >= extents[0].first {
      var rest := extents[1..];
      SortInBag(e, rest);
      assert extents == [extents[0]] + rest;
      BagExtentFront(extents[0], rest);
      BagExtentFront(extents[0], SortIn(e, rest));
    }
  }

  lemma {:induction false} BagExtentFront(e: Extent, extents: seq<Extent>)
    ensures BagExtents([e] + extents) == RunBag(e.blk, e.blocks) + BagExtents(extents)
  {
    if extents == [] {
      assert [e] + extents == [e];
    } else {
      var n := |extents| - 1;
      assert ([e] + extents)[..n + 1] == [e] + extents[..n];
      BagExtentFront(e, extents[..n]);
    }
  }

  /** Sorting keeps what is owned, the disjointness, and the map. */
  lemma {:induction false} SortedFacts(extents: seq<Extent>)
    requires ExtentsOk(extents)
    ensures InOrder(Sorted(extents)) && ExtentsOk(Sorted(extents)) && |Sorted(extents)| == |extents|
    ensures forall x :: x in Sorted(extents) <==> x in extents
    ensures BagExtents(Sorted(extents)) == BagExtents(extents)
  {
    hide InOrder;
    if extents == [] {
      assert InOrder([]) by { NoOrder(); }
    } else {
      var n := |extents| - 1;
      var s := Sorted(extents[..n]);
      SortedFacts(extents[..n]);
      forall x | x in s ensures Disjoint(x, extents[n]) {
        var i :| 0 <= i < n && extents[..n][i] == x;
        assert Disjoint(extents[i], extents[n]);
      }
      SortInOrder(extents[n], s);
      SortInOk(extents[n], s);
      SortInMembers(extents[n], s);
      SortInBag(extents[n], s);
      assert extents == extents[..n] + [extents[n]];
    }
  }

  lemma NoOrder()
    ensures InOrder([])
  {
  }

  lemma SortedSame(extents: seq<Extent>)
    requires ExtentsOk(extents)
    ensures forall f: nat :: LookInline(Sorted(extents), f) == LookInline(extents, f)
  {
    SortedFacts(extents);
    forall f: nat ensures LookInline(Sorted(extents), f) == LookInline(extents, f) {
      InlineSame(Sorted(extents), extents, f);
    }
  }
}
