/** The pool that a file grows from is what a group has free: what growing counts on, the group's steps keep. */
module FilePool {
  import opened Wrappers
  import opened Intervals
  import opened ExtentSpec
  import opened ExtentTrim
  import opened ExtentCost
  import T = AllocTree
  import S = AllocSpec
  import F = FreeSpec
  import R = AllocRuns
  import P = AllocPool

  /** The units of a group's allocated blocks. */
  function UnitsOf(t: T.Tree): Units {
    map b: nat | b < t.length && T.BlockAt(t, b) == T.Full :: S.Granule(t, b)
  }

  /** The group as the stock a file draws on. */
  function StockOf(t: T.Tree, slack: multiset<nat>): Stock {
    Stock(P.FreeBlocks(t), UnitsOf(t), slack)
  }

  /**
  What the group hands out for n blocks, no cell claimed: a run from its free blocks, on a unit, all of it
  in units of that size, and besides only what rounding takes, which is less than as much again.
  */
  lemma AllocationIsFair(t: T.Tree, u: T.Tree, lo: nat, n: nat, slack: multiset<nat>)
    requires R.Step(t, u, R.Event.Extent(lo, n, None))
    ensures var k0, k1 := StockOf(t, slack), StockOf(u, slack + multiset(Interval(lo, S.Rounded(n)) - Interval(lo, n)));
      && Took(k0, lo, n, k1) && Drawn(true, k0, k1, if n == 1 then 1 else 2 * n)
      && k1.pool == k0.pool - Interval(lo, S.Rounded(n))
    ensures InOneUnit(UnitsOf(u), lo, n) && UnitsOf(u)[lo] == S.GranuleFor(n)
  {
    hide T.BlockAt, S.Granule, T.SlotUsed, S.Allocated, S.TakenIn, P.FreeBlocks, S.Rounded, S.GranuleFor, F.Aligned, UnitsOf;
    hide InOneUnit, Tracked, Took, OnlyRounding;
    var run, rest := Interval(lo, S.Rounded(n)), Interval(lo, S.Rounded(n)) - Interval(lo, n);
    var k0, k1 := StockOf(t, slack), StockOf(u, slack + multiset(rest));
    S.RoundedLess(n);
    P.TakenFromPool(t, u, lo, n, None);
    RunFree(t, u, lo, n);
    InUnit(t, u, lo, n);
    RecordKept(t, u, lo, n);
    WithoutRun(k0.pool, k1.pool, run);
    RoundedOff(k0, lo, n, S.Rounded(n), k1);
  }

  lemma RoundedOff(k0: Stock, lo: nat, n: nat, len: nat, k1: Stock)
    requires n <= len && Interval(lo, len) <= k0.pool && k1.pool == k0.pool - Interval(lo, len)
    requires k1.slack == k0.slack + multiset(Interval(lo, len) - Interval(lo, n))
    requires forall b: nat :: lo <= b < lo + len ==> b in k1.units && (len > n ==> k1.units[b] > 1)
    ensures Took(k0, lo, n, k1) && OnlyRounding(k0, k1)
  {
    assert k0.pool - k1.pool - Interval(lo, n) == Interval(lo, len) - Interval(lo, n);
    forall x | k1.slack[x] > k0.slack[x] ensures x in k1.units && k1.units[x] > 1 && x !in k1.pool {
      assert x in Interval(lo, len) - Interval(lo, n);
    }
  }

  lemma RunFree(t: T.Tree, u: T.Tree, lo: nat, n: nat)
    requires R.Step(t, u, R.Event.Extent(lo, n, None))
    ensures Interval(lo, S.Rounded(n)) <= P.FreeBlocks(t)
  {
    hide T.BlockAt, S.Granule, T.SlotUsed, S.Rounded, S.GranuleFor, S.TakenIn, F.Aligned;
  }

  lemma InUnit(t: T.Tree, u: T.Tree, lo: nat, n: nat)
    requires R.Step(t, u, R.Event.Extent(lo, n, None))
    ensures InOneUnit(UnitsOf(u), lo, n) && UnitsOf(u)[lo] == S.GranuleFor(n)
    ensures forall b: nat :: lo <= b < lo + S.Rounded(n) ==> b in UnitsOf(u) && UnitsOf(u)[b] == S.GranuleFor(n)
  {
    hide T.BlockAt, S.Granule, T.SlotUsed, S.Rounded, S.SameUnits;
    S.RoundedLess(n);
    var units := UnitsOf(u);
    forall b: nat | lo <= b < lo + S.Rounded(n) ensures b in units && units[b] == S.GranuleFor(n) {
      assert T.BlockAt(u, b) == T.Full;
    }
  }

  lemma RecordKept(t: T.Tree, u: T.Tree, lo: nat, n: nat)
    requires R.Step(t, u, R.Event.Extent(lo, n, None))
    ensures Tracked(UnitsOf(t), P.FreeBlocks(t), UnitsOf(u), P.FreeBlocks(u))
  {
    hide T.BlockAt, S.Granule, T.SlotUsed, S.Rounded, S.GranuleFor, S.TakenIn, F.Aligned;
    var g, now := UnitsOf(t), UnitsOf(u);
    forall b | b in g ensures b in now && now[b] == g[b] {
      assert T.BlockAt(t, b) == T.Full == T.BlockAt(u, b);
    }
    forall b | b in P.FreeBlocks(t) && b !in P.FreeBlocks(u) ensures b in now {
      assert T.BlockAt(t, b) == T.Free;
      assert T.BlockAt(u, b) == T.Full;
    }
  }

  lemma WithoutRun(p: set<nat>, now: set<nat>, run: set<nat>)
    requires now == p - run
    ensures |p| <= |now| + |run|
  {
    assert |p * run| <= |run| by { Fewer(p * run, run); }
    assert p == now + p * run;
  }

  /** The group takes back exactly what the units on record say it does. */
  lemma ReleaseAsTold(t: T.Tree, lo: nat, n: nat)
    requires lo + n <= t.length
    ensures Releasable(UnitsOf(t), lo, n) <==> F.Freeable(t, lo, n)
  {
    hide T.BlockAt, S.Granule;
    if F.Freeable(t, lo, n) && n > 0 {
      assert T.BlockAt(t, lo) == T.Full;
      assert lo in UnitsOf(t);
    }
    if Releasable(UnitsOf(t), lo, n) {
      forall b: nat | lo <= b < lo + n ensures T.BlockAt(t, b) == T.Full {
        assert b in UnitsOf(t);
      }
    }
  }
}
