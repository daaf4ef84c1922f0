/** What growing a mapping may take from the allocator, and how few blocks it may need to have left to fail. */
module ExtentCost {
  import opened Wrappers
  import opened Intervals
  import opened Radix
  import opened ExtentTree
  import opened ExtentSpec
  import opened ExtentTrim

  // --- holes ---------------------------------------------------------------------------------

  /** The blocks from lo to hi of a child's range that are not mapped. */
  ghost function HolesIn(ch: Child, level: nat, lo: nat, hi: nat): nat {
    if lo >= hi then 0 else HolesIn(ch, level, lo, hi - 1) + if Look(ch, level, hi - 1).None? then 1 else 0
  }

  ghost function HolesKids(kids: seq<Child>, level: nat, lo: nat, hi: nat): nat {
    if lo >= hi then 0 else HolesKids(kids, level, lo, hi - 1) + if LookKids(kids, level, hi - 1).None? then 1 else 0
  }

  ghost function Holes(m: FileMap, lo: nat, hi: nat): nat {
    if lo >= hi then 0 else Holes(m, lo, hi - 1) + if BlockOf(m, hi - 1).None? then 1 else 0
  }

  lemma {:induction false} HolesMost(m: FileMap, lo: nat, hi: nat)
    requires lo <= hi
    ensures Holes(m, lo, hi) <= hi - lo
    decreases hi
  {
    if lo < hi {
      HolesMost(m, lo, hi - 1);
    }
  }

  lemma {:induction false} HolesJoin(kids: seq<Child>, level: nat, lo: nat, mid: nat, hi: nat)
    requires lo <= mid <= hi
    ensures HolesKids(kids, level, lo, hi) == HolesKids(kids, level, lo, mid) + HolesKids(kids, level, mid, hi)
    decreases hi
  {
    hide LookKids;
    if mid < hi {
      HolesJoin(kids, level, lo, mid, hi - 1);
    }
  }

  lemma {:induction false} KidHoles(kids: seq<Child>, level: nat, i: nat, lo: nat, hi: nat)
    requires i < |kids| && lo <= hi <= Cov(level)
    ensures HolesKids(kids, level, Start(i, Cov(level)) + lo, Start(i, Cov(level)) + hi) == HolesIn(kids[i], level, lo, hi)
    decreases hi
  {
    hide LookKids, Look, Start;
    if lo < hi {
      KidHoles(kids, level, i, lo, hi - 1);
      KidLook(kids, level, i, hi - 1);
      assert Start(i, Cov(level)) + hi - 1 == Start(i, Cov(level)) + (hi - 1);
    }
  }

  lemma {:induction false} SameHoles(ch: Child, level: nat, kids: seq<Child>, below: nat, lo: nat, hi: nat)
    requires SameLook(ch, level, kids, below)
    ensures HolesIn(ch, level, lo, hi) == HolesKids(kids, below, lo, hi)
    decreases hi
  {
    hide LookKids, Look;
    if lo < hi {
      SameHoles(ch, level, kids, below, lo, hi - 1);
    }
  }

  /** Outside what was asked for nothing has changed. */
  lemma {:induction false} StillHoles(kids: seq<Child>, now: seq<Child>, level: nat, from: nat, pos: nat, hi: nat, pool: set<nat>)
    requires KidsEnsured(kids, now, level, from, pos, pool) && pos <= hi
    ensures HolesKids(now, level, pos, hi) == HolesKids(kids, level, pos, hi)
    decreases hi
  {
    hide LookKids;
    if pos < hi {
      StillHoles(kids, now, level, from, pos, hi - 1, pool);
      assert Ens(LookKids(kids, level, hi - 1), LookKids(now, level, hi - 1), false, pool);
    }
  }

  lemma {:induction false} TreeHoles(level: nat, kids: seq<Child>, lo: nat, hi: nat)
    ensures Holes(Tree(level, kids), lo, hi) == HolesKids(kids, level, lo, hi)
    decreases hi
  {
    hide LookKids;
    if lo < hi {
      TreeHoles(level, kids, lo, hi - 1);
    }
  }

  lemma {:induction false} AllHole(level: nat, n: nat)
    ensures HolesIn(Free, level, 0, n) == n
    decreases n
  {
    if n > 0 {
      AllHole(level, n - 1);
    }
  }

  lemma {:induction false} SameMapHoles(m: FileMap, now: FileMap, lo: nat, hi: nat)
    requires forall f: nat :: lo <= f < hi ==> BlockOf(now, f) == BlockOf(m, f)
    ensures Holes(now, lo, hi) == Holes(m, lo, hi)
    decreases hi
  {
    hide BlockOf;
    if lo < hi {
      SameMapHoles(m, now, lo, hi - 1);
    }
  }

  /** What was ensured has no holes left; what lies behind has those it had. */
  lemma {:induction false} EnsuredHoles(m: FileMap, now: FileMap, lo: nat, at: nat, hi: nat, pool: set<nat>)
    requires MapEnsured(m, now, lo, at, pool) && lo <= at
    ensures at <= hi ==> Holes(now, lo, hi) + Holes(m, lo, at) == Holes(m, lo, hi)
    ensures hi <= at ==> Holes(now, lo, hi) == 0
    decreases hi
  {
    hide BlockOf;
    if lo < hi {
      EnsuredHoles(m, now, lo, at, hi - 1, pool);
      assert Ens(BlockOf(m, hi - 1), BlockOf(now, hi - 1), lo <= hi - 1 < at, pool);
    }
  }

  lemma {:induction false} HolesMore(m: FileMap, lo: nat, a: nat, b: nat)
    requires a <= b
    ensures Holes(m, lo, a) <= Holes(m, lo, b)
    decreases b
  {
    if a < b {
      HolesMore(m, lo, a, b - 1);
    }
  }

  lemma {:induction false} HolesThrough(m: FileMap, lo: nat, a: nat, b: nat)
    requires lo <= a <= b && forall f: nat :: a <= f < b ==> BlockOf(m, f).None?
    ensures Holes(m, lo, b) == Holes(m, lo, a) + (b - a)
    decreases b
  {
    hide BlockOf;
    if a < b {
      HolesThrough(m, lo, a, b - 1);
    }
  }

  // --- data blocks ------------------------------------------------------------------------------------

  lemma {:induction false} RunHoles(blocks: nat, addr: nat, level: nat, n: nat)
    ensures HolesIn(Full(blocks, addr), level, 0, n) == if n < blocks then 0 else n - blocks
    decreases n
  {
    if n > 0 {
      RunHoles(blocks, addr, level, n - 1);
    }
  }

  /** Counting a child's data blocks by its structure counts the blocks of its range that are mapped. */
  lemma {:induction false} ChildData(ch: Child, level: nat)
    requires WF(ch, level)
    ensures Data(ch, level) + HolesIn(ch, level, 0, Cov(level)) == Cov(level)
    decreases level, 0
  {
    hide HolesIn, HolesKids, LookKids, Look, DataKids, Start;
    match ch
    case Free => AllHole(level, Cov(level));
    case Full(blocks, addr) => RunHoles(blocks, addr, level, Cov(level));
    case Refined(at, _, kids) =>
      NodeLook(at, kids, level - 1);
      SameHoles(ch, level, kids, level - 1, 0, Cov(level));
      KidsData(kids, level - 1);
      StartTop(Cov(level - 1));
      CovUp(level - 1);
  }

  lemma {:induction false} KidsData(kids: seq<Child>, level: nat)
    requires AllWF(kids, level)
    ensures DataKids(kids, level) + HolesKids(kids, level, 0, Start(|kids|, Cov(level))) == Start(|kids|, Cov(level))
    decreases level, 1, |kids|
  {
    hide HolesIn, LookKids, Look, Data, Start, WF;
    var c := Cov(level);
    if kids == [] {
      StartNext(0, c);
    } else {
      var i := |kids| - 1;
      var start := Start(i, c);
      KidsData(kids[..i], level);
      SameFirstKids(kids, level, i, start);
      ChildData(kids[i], level);
      KidHoles(kids, level, i, 0, c);
      StartNext(i, c);
      HolesJoin(kids, level, 0, start, start + c);
    }
  }

  lemma {:induction false} SameFirstKids(kids: seq<Child>, level: nat, i: nat, n: nat)
    requires i <= |kids| && n <= Start(i, Cov(level))
    ensures HolesKids(kids, level, 0, n) == HolesKids(kids[..i], level, 0, n)
    decreases n
  {
    hide Look, Slot, Start;
    if n > 0 {
      SameFirstKids(kids, level, i, n - 1);
      SlotBelow(n - 1, i, Cov(level));
    }
  }

  lemma {:induction false} ExtentHoles(extents: seq<Extent>, e: Extent, n: nat)
    requires ExtentsOk(extents) && e.blocks >= 1 && forall i :: 0 <= i < |extents| ==> Disjoint(extents[i], e)
    ensures Holes(Inline(extents), 0, n) == Holes(Inline(extents + [e]), 0, n) +
      if n <= e.first then 0 else if n - e.first < e.blocks then n - e.first else e.blocks
    decreases n
  {
    hide LookInline;
    if n > 0 {
      ExtentHoles(extents, e, n - 1);
      AppendExtent(extents, e);
      assert BlockOf(Inline(extents + [e]), n - 1) ==
        if InExtent(e, n - 1) then Some(e.blk + (n - 1 - e.first)) else BlockOf(Inline(extents), n - 1);
      if InExtent(e, n - 1) {
        InlineNone(extents, n - 1);
      }
    }
  }

  lemma {:induction false} ExtentsData(extents: seq<Extent>, n: nat)
    requires ExtentsOk(extents) && EndOf(extents) <= n
    ensures DataExtents(extents) + Holes(Inline(extents), 0, n) == n
    decreases |extents|
  {
    hide Holes;
    if extents == [] {
      NothingMapped(n);
    } else {
      var init, e := extents[..|extents| - 1], extents[|extents| - 1];
      assert init + [e] == extents;
      forall i | 0 <= i < |init| ensures Disjoint(init[i], e) {
        assert Disjoint(extents[i], extents[|extents| - 1]);
      }
      ExtentsData(init, n);
      ExtentHoles(init, e, n);
    }
  }

  lemma {:induction false} NothingMapped(n: nat)
    ensures Holes(Inline([]), 0, n) == n
  {
    if n > 0 {
      NothingMapped(n - 1);
    }
  }

  /** Where a mapping has ended. */
  ghost function Reach(m: FileMap): nat {
    match m
    case Inline(extents) => EndOf(extents)
    case Tree(level, kids) => Start(|kids|, Cov(level))
    case _ => 0
  }

  lemma ReachIsEnd(m: FileMap)
    requires Well(m)
    ensures DataBlocks(m) + Holes(m, 0, Reach(m)) == Reach(m)
    ensures forall f: nat :: f >= Reach(m) ==> BlockOf(m, f).None?
  {
    hide LookKids, LookInline, Holes, HolesKids, DataKids, DataExtents, Start;
    match m
    case Tree(level, kids) =>
      KidsData(kids, level);
      TreeHoles(level, kids, 0, Reach(m));
      forall f: nat | f >= Reach(m) ensures BlockOf(m, f).None? {
        BeyondKids(kids, level, f);
      }
    case Inline(extents) =>
      ExtentsData(extents, Reach(m));
      forall f: nat | f >= Reach(m) ensures BlockOf(m, f).None? {
        BehindEnd(extents, f);
        InlineNone(extents, f);
      }
    case _ =>
      NoHoles(m);
  }

  /** The data blocks counted by structure are the file blocks that are mapped. */
  lemma DataIsMapped(m: FileMap, n: nat)
    requires Well(m) && Reach(m) <= n
    ensures DataBlocks(m) + Holes(m, 0, n) == n
  {
    hide BlockOf, Holes, DataBlocks, Well, Reach;
    ReachIsEnd(m);
    HolesThrough(m, 0, Reach(m), n);
  }

  lemma NoHoles(m: FileMap)
    ensures Holes(m, 0, 0) == 0
  {
  }

  lemma {:induction false} BehindEnd(extents: seq<Extent>, f: nat)
    requires f >= EndOf(extents)
    ensures forall i :: 0 <= i < |extents| ==> !InExtent(extents[i], f)
    decreases |extents|
  {
    if extents != [] {
      var init := extents[..|extents| - 1];
      BehindEnd(init, f);
      forall i | 0 <= i < |extents| ensures !InExtent(extents[i], f) {
        assert i < |init| ==> extents[i] == init[i];
      }
    }
  }

  // --- nodes --------------------------------------------------------------------------------------

  /** No more nodes than this lie above n blocks: each covers at least one of them. */
  ghost function Nodes(level: nat, n: nat): nat {
    if level == 0 then 0 else n + Nodes(level - 1, n)
  }

  lemma {:induction false} NodesSum(level: nat, a: nat, b: nat)
    ensures Nodes(level, a + b) == Nodes(level, a) + Nodes(level, b)
  {
    if level > 0 {
      NodesSum(level - 1, a, b);
    }
  }

  lemma {:induction false} NodesMono(level: nat, more: nat, a: nat, b: nat)
    requires level <= more && a <= b
    ensures Nodes(level, a) <= Nodes(more, b)
    decreases more
  {
    if level < more {
      NodesMono(level, more - 1, a, b);
    } else if level > 0 {
      NodesMono(level - 1, more - 1, a, b);
    }
  }

  /** The least level from the given one on whose root covers end blocks. */
  ghost function LevelFor(level: nat, end: nat): (l: nat)
    ensures l >= level
    decreases if end > ROOT_FANOUT * Cov(level) then end - ROOT_FANOUT * Cov(level) else 0
  {
    CovUp(level);
    if end > ROOT_FANOUT * Cov(level) then LevelFor(level + 1, end) else level
  }

  /** The end of the last extent; a root for no extents covers a block all the same. */
  function EndOf(extents: seq<Extent>): (end: nat)
    ensures end >= 1
  {
    if extents == [] then 1 else
    var e := extents[|extents| - 1];
    var end := EndOf(extents[..|extents| - 1]);
    if end < e.first + e.blocks then e.first + e.blocks else end
  }

  lemma {:induction false} LevelMono(level: nat, a: nat, b: nat)
    requires a <= b
    ensures LevelFor(level, a) <= LevelFor(level, b)
    decreases if b > ROOT_FANOUT * Cov(level) then b - ROOT_FANOUT * Cov(level) else 0
  {
    CovUp(level);
    if a > ROOT_FANOUT * Cov(level) {
      LevelMono(level + 1, a, b);
    }
  }

  /** From a level that an end is covered at, more is added as from there on. */
  lemma {:induction false} LevelFrom(level: nat, a: nat, b: nat)
    requires a <= b
    ensures LevelFor(LevelFor(level, a), b) == LevelFor(level, b)
    decreases if a > ROOT_FANOUT * Cov(level) then a - ROOT_FANOUT * Cov(level) else 0
  {
    CovUp(level);
    if a > ROOT_FANOUT * Cov(level) {
      LevelFrom(level + 1, a, b);
    }
  }

  lemma {:induction false} EndUpdate(extents: seq<Extent>, i: nat, e: Extent)
    requires i < |extents|
    ensures EndOf(extents[i := e]) <= if EndOf(extents) < e.first + e.blocks then e.first + e.blocks else EndOf(extents)
    decreases |extents|
  {
    var init, now := extents[..|extents| - 1], extents[i := e];
    if i == |extents| - 1 {
      assert now[..|now| - 1] == init;
    } else {
      EndUpdate(init, i, e);
      assert now[..|now| - 1] == init[i := e];
    }
  }

  lemma EndAppend(extents: seq<Extent>, e: Extent)
    ensures EndOf(extents + [e]) == if EndOf(extents) < e.first + e.blocks then e.first + e.blocks else EndOf(extents)
  {
    assert (extents + [e])[..|extents|] == extents;
  }

  lemma {:induction false} DataExtentUpdate(extents: seq<Extent>, i: nat, e: Extent)
    requires i < |extents|
    ensures DataExtents(extents[i := e]) + extents[i].blocks == DataExtents(extents) + e.blocks
    decreases |extents|
  {
    var init, now := extents[..|extents| - 1], extents[i := e];
    if i == |extents| - 1 {
      assert now[..|now| - 1] == init;
    } else {
      DataExtentUpdate(init, i, e);
      assert now[..|now| - 1] == init[i := e];
    }
  }

  /** The level of a tree that covers both what the extents hold and what is asked for. */
  ghost function TreeLevel(extents: seq<Extent>, end: nat): nat {
    LevelFor(0, if EndOf(extents) < end then end else EndOf(extents))
  }

  /** What turning extents into a tree may cost, once holes blocks have been added to them. */
  ghost function ToTreeCost(extents: seq<Extent>, end: nat, holes: nat): nat {
    Nodes(TreeLevel(extents, end), DataExtents(extents) + holes)
  }

  /**
  Blocks with which mapping n file blocks from first on cannot fail: rounding may double what the holes
  take; then the nodes above the range, new levels of the root, and those of a tree made from extents.
  */
  ghost function Need(m: FileMap, first: nat, n: nat): nat {
    var end, holes := first + n, Holes(m, first, first + n);
    match m
    case Tree(level, _) => 2 * holes + Nodes(LevelFor(level, end), n) + (LevelFor(level, end) - level)
    case Inline(extents) => 2 * holes + ToTreeCost(extents, end, holes) + Nodes(TreeLevel(extents, end), n) + TreeLevel(extents, end)
    case _ => 2 * holes + ToTreeCost([], end, holes) + Nodes(TreeLevel([], end), n) + TreeLevel([], end)
  }

  // --- what is drawn --------------------------------------------------------------------------------

  /** Units of blocks in use are kept, and whatever has left the pool has one. */
  ghost predicate Tracked(u0: Units, p0: set<nat>, u1: Units, p1: set<nat>) {
    && (forall b :: b in u0 && b !in p0 ==> b in u1 && u1[b] == u0[b])
    && (forall b :: b in p0 && b !in p1 ==> b in u1)
  }

  /** Besides what was asked for only blocks in larger units have gone: rounding took them. */
  ghost predicate OnlyRounding(k0: Stock, k1: Stock) {
    forall x :: k1.slack[x] > k0.slack[x] ==> x in k1.units && k1.units[x] > 1 && x !in k1.pool
  }

  /** Blocks leave the pool, with their units on record; a fair allocator gives no more than so many, and rounds only. */
  ghost predicate Drawn(fair: bool, k0: Stock, k1: Stock, most: nat) {
    && k1.pool <= k0.pool && Tracked(k0.units, k0.pool, k1.units, k1.pool)
    && (fair ==> |k0.pool| <= |k1.pool| + most && OnlyRounding(k0, k1))
  }

  lemma DrawnNothing(fair: bool, k: Stock, most: nat)
    ensures Drawn(fair, k, k, most)
  {
  }

  lemma DrawnThen(fair: bool, k0: Stock, k1: Stock, a: nat, k2: Stock, b: nat, most: nat)
    requires Drawn(fair, k0, k1, a) && Drawn(fair, k1, k2, b) && a + b <= most
    ensures Drawn(fair, k0, k2, most)
  {
    if fair {
      forall x | k2.slack[x] > k0.slack[x] ensures x in k2.units && k2.units[x] > 1 && x !in k2.pool {
        assert k1.slack[x] > k0.slack[x] || k2.slack[x] > k1.slack[x];
      }
    }
  }

  lemma DrawnSize(fair: bool, k0: Stock, k1: Stock, most: nat)
    requires Drawn(fair, k0, k1, most)
    ensures k1.pool <= k0.pool && (fair ==> |k0.pool| <= |k1.pool| + most)
  {
  }

  lemma DrawnMore(fair: bool, k0: Stock, k1: Stock, a: nat, most: nat)
    requires Drawn(fair, k0, k1, a) && a <= most
    ensures Drawn(fair, k0, k1, most)
  {
  }

  /** Every block a mapping owns has its unit on record. */
  ghost predicate Known(units: Units, m: FileMap) {
    forall b :: b in Owned(m) ==> b in units
  }

  lemma KnownKept(fair: bool, m: FileMap, k0: Stock, now: FileMap, k1: Stock, most: nat)
    requires Sound(m, k0.pool) && Known(k0.units, m) && Kept(Owned(m), k0, Owned(now), k1) && Drawn(fair, k0, k1, most)
    ensures Known(k1.units, now)
  {
    hide Owned;
    KeptConserves(Owned(m), k0, Owned(now), k1);
    forall b | b in Owned(now) ensures b in k1.units {
      assert (Owned(now) + multiset(k1.pool))[b] <= (Owned(m) + multiset(k0.pool))[b] <= 1;
    }
  }
}
