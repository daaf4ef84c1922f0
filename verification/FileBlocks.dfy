/** File data over a real group: what a file owns and what the group has free stay apart. */
module FileBlocks {
  import opened Wrappers
  import opened Intervals
  import opened ExtentTree
  import opened ExtentTrim
  import T = AllocTree
  import S = AllocSpec
  import F = FreeSpec
  import R = AllocRuns
  import P = AllocPool
  import O = AllocOps
  import C = AllocCount
  import AllocFormat
  import AllocRoom

  /** A run handed out by the group may be mapped: no block is then owned twice, or owned and free. */
  lemma MappedStaysSound(m: FileMap, t: T.Tree, now: FileMap, u: T.Tree, lo: nat, n: nat, claimed: Option<nat>)
    requires Sound(m, P.FreeBlocks(t)) && R.Step(t, u, R.Event.Extent(lo, n, claimed))
    requires Owned(now) == Owned(m) + RunBag(lo, n)
    ensures Sound(now, P.FreeBlocks(u))
  {
    hide Owned, P.FreeBlocks, S.Allocated, S.TakenIn;
    P.TakenFromPool(t, u, lo, n, claimed);
    var p0, p1 := P.FreeBlocks(t), P.FreeBlocks(u);
    assert RunBag(lo, n) == multiset(Interval(lo, n));
    assert multiset(p1) + multiset(Interval(lo, n)) <= multiset(p0);
    SoundStep(m, p0, now, p1);
  }

  /**
  A run that a mapping has given up may be released, and mapping and group stay apart, if it ends where
  a granule does; if it does not, a block behind it that is still in use becomes free as well.
  */
  lemma ReleasedStaysSound(m: FileMap, t: T.Tree, owner: map<T.Ref, T.Place>, now: FileMap, u: T.Tree, lo: nat, n: nat)
    requires Sound(m, P.FreeBlocks(t)) && R.Step(t, u, R.Event.Release(lo, n)) && n >= 1 && T.Tidy(t, owner, {})
    requires Owned(m) == Owned(now) + RunBag(lo, n)
    ensures F.Aligned(lo + n, S.Granule(t, lo + n - 1)) ==> Sound(now, P.FreeBlocks(u))
    ensures !F.Aligned(lo + n, S.Granule(t, lo + n - 1)) ==>
      T.BlockAt(t, lo + n) == T.Full && lo + n in P.FreeBlocks(u) && (lo + n in Owned(now) ==> !Sound(now, P.FreeBlocks(u)))
  {
    hide Owned, T.Tidy, S.Granule, T.BlockAt, Sound, F.Freed, F.Freeable, P.FreeBlocks, F.CoverEnd, F.Aligned;
    ReleaseFacts(t, u, lo, n);
    P.PieceReturnsExactly(t, owner, lo, n);
    var p0, p1, end := P.FreeBlocks(t), P.FreeBlocks(u), F.CoverEnd(t, lo, n);
    P.ReleaseInside(t, owner, lo, n);
    P.ReturnedToPool(t, u, lo, end - lo);
    if end == lo + n {
      GivenBack(m, p0, now, p1, lo, n);
    } else {
      assert lo + n in Interval(lo, end - lo);
      SharedIsUnsound(now, p1, lo + n);
    }
  }

  /** The rounding slack of a run is neither owned nor free. */
  lemma SlackIsNobodys(m: FileMap, t: T.Tree, now: FileMap, u: T.Tree, lo: nat, n: nat, claimed: Option<nat>)
    requires Sound(m, P.FreeBlocks(t)) && R.Step(t, u, R.Event.Extent(lo, n, claimed))
    requires Owned(now) == Owned(m) + RunBag(lo, n)
    ensures forall b: nat :: lo + n <= b < lo + S.Rounded(n) ==> b !in Owned(now) && b !in P.FreeBlocks(u)
  {
    hide Owned, T.BlockAt, S.TakenIn;
    forall b: nat | lo + n <= b < lo + S.Rounded(n) ensures b !in Owned(now) && b !in P.FreeBlocks(u) {
      assert b in P.FreeBlocks(t);
      SharedIsUnsound(m, P.FreeBlocks(t), b);
      assert b !in RunBag(lo, n);
    }
  }

  // --- cutting a run -------------------------------------------------------------------------------

  /**
  What truncation hands back of a run handed out in one piece, cut at the granule that the allocator
  tells for its first block: the cut starts on a granule, and the release ends with what was handed out.
  */
  lemma CutReleases(t: T.Tree, addr: nat, n: nat, blocks: nat, keep: nat)
    requires R.Placed(t, addr, n) && blocks <= n && RoundUp(keep, S.Granule(t, addr)) < blocks
    ensures var g := S.Granule(t, addr); var k := RoundUp(keep, g);
      && g == S.GranuleFor(n) && F.Aligned(addr + k, g) && F.Freeable(t, addr + k, blocks - k)
      && F.CoverEnd(t, addr + k, blocks - k) == addr + RoundUp(blocks, g) <= addr + S.Rounded(n)
      && RoundUp(blocks, g) >= blocks
  {
    hide T.BlockAt, S.Granule;
    var g, k := S.Granule(t, addr), RoundUp(keep, S.Granule(t, addr));
    UnitsFit(addr, g, keep);
    UnitsFit(addr, g, blocks);
    UnitsCover(addr, g, blocks);
    UnitsWithin(blocks, n);
    assert S.Granule(t, addr + k) == g && S.Granule(t, addr + blocks - 1) == g;
  }

  /** After the cut the file owns nothing the allocator has free, if the slack behind the run is nobody's. */
  lemma CutStaysSound(m: FileMap, t: T.Tree, now: FileMap, u: T.Tree, addr: nat, n: nat, blocks: nat, keep: nat)
    requires Sound(m, P.FreeBlocks(t)) && R.Placed(t, addr, n) && addr + S.Rounded(n) <= t.length
    requires blocks <= n && RoundUp(keep, S.Granule(t, addr)) < blocks
    requires var k := RoundUp(keep, S.Granule(t, addr));
      R.Step(t, u, R.Event.Release(addr + k, blocks - k)) && Owned(m) == Owned(now) + RunBag(addr + k, blocks - k)
    requires forall b: nat :: addr + blocks <= b < addr + S.Rounded(n) ==> b !in Owned(m)
    ensures Sound(now, P.FreeBlocks(u))
  {
    hide Owned, Sound, S.Granule, S.Rounded, T.BlockAt, R.Step, R.Placed, F.CoverEnd, F.Freed, F.Freeable, P.FreeBlocks, RoundUp;
    hide RunBag, Interval;
    CutReleases(t, addr, n, blocks, keep);
    var k := RoundUp(keep, S.Granule(t, addr));
    ReleaseFacts(t, u, addr + k, blocks - k);
    var lo, end := addr + k, F.CoverEnd(t, addr + k, blocks - k);
    P.ReturnedToPool(t, u, lo, end - lo);
    SlackJoins(m, P.FreeBlocks(t), now, P.FreeBlocks(u), lo, blocks - k, end - lo);
  }

  lemma SlackJoins(m: FileMap, p0: set<nat>, now: FileMap, p1: set<nat>, lo: nat, n: nat, more: nat)
    requires Sound(m, p0) && Owned(m) == Owned(now) + RunBag(lo, n) && n <= more && p1 == p0 + Interval(lo, more)
    requires forall b: nat :: lo + n <= b < lo + more ==> b !in Owned(m)
    ensures Sound(now, p1)
  {
    hide Owned;
    forall b | b in Owned(now) + multiset(p1) ensures (Owned(now) + multiset(p1))[b] <= 1 {
      assert (Owned(m) + multiset(p0))[b] <= 1;
      assert Owned(m)[b] == Owned(now)[b] + RunBag(lo, n)[b];
    }
  }

  /**
  A run may have grown by appending a second one that happened to follow it on the device. Its cut then
  starts on a granule, and can be released, exactly when it falls into the first part or on a granule of
  the second; so it always can if the first part's unit is not the smaller one.
  */
  lemma MergedCutReleasesExactlyWhen(t: T.Tree, addr: nat, first: nat, second: nat, keep: nat)
    requires R.Placed(t, addr, first) && R.Placed(t, addr + first, second)
    requires RoundUp(keep, S.Granule(t, addr)) < first + second
    ensures var k := RoundUp(keep, S.Granule(t, addr));
      F.Freeable(t, addr + k, first + second - k) <==> k <= first || F.Aligned(addr + k, S.GranuleFor(second))
    ensures S.GranuleFor(first) >= S.GranuleFor(second) ==>
      var k := RoundUp(keep, S.Granule(t, addr)); F.Freeable(t, addr + k, first + second - k)
  {
    hide T.BlockAt, S.Granule, RoundUp, S.Rounded, S.GranuleFor, F.Aligned;
    var g1, g2 := S.GranuleFor(first), S.GranuleFor(second);
    RoundedUp(first);
    RoundedUp(second);
    assert S.Granule(t, addr) == g1;
    var k := RoundUp(keep, g1);
    UnitsFit(addr, g1, keep);
    if g1 >= g2 {
      CoarserAligned(addr + k, g1, g2);
    }
    assert S.Granule(t, addr + k) == if k < first then g1 else g2;
  }

  /**
  Sixteen single blocks, then twenty blocks in units of sixteen right behind them: one run of 36 blocks
  of which the first twenty cannot be kept, because the release would start inside a granule.
  */
  lemma MergedRunRefusesCut() returns (t: T.Tree, u: T.Tree, v: T.Tree, owner: map<T.Ref, T.Place>)
    ensures T.Tidy(v, owner, {}) && t.length == AllocFormat.MIN_LENGTH
    ensures R.Step(t, u, R.Event.Extent(512, 16, None)) && R.Step(u, v, R.Event.Extent(528, 20, None))
    ensures AllocRoom.Preferred(t, 512, 16) && AllocRoom.Preferred(u, 528, 20)
    ensures S.Granule(v, 512) == 1 && RoundUp(20, 1) == 20 && !F.Freeable(v, 532, 16)
  {
    hide T.Tidy, T.BlockAt, S.Granule, S.TakeRun, S.Allocated, S.TakenIn, T.RefineCell, T.RefineKid, C.Count, AllocFormat.Plain;
    var r0, r1 := T.Ref(256, 0), T.Ref(256, 1);
    t := T.Tree(AllocFormat.MIN_LENGTH, [T.RSVD, T.RSVD, T.FREE, T.FREE], AllocFormat.Cleared(4), map[]);
    PlainHere(t);
    AllocFormat.PlainTidy(t, 2, 4);
    var mid, o := AllocFormat.FirstRefined(t, 2, 4);
    assert S.Claimed(t, mid, None);
    KidsLeft(t, mid);
    S.Take(t, mid, o, {r1}, r1, 0, 16, None);
    u := S.TakeRun(mid, r1, 0, 16);
    OthersLeft(mid, u, r1, r0);
    S.ClaimedNothing(u);
    S.Take(u, u, o, {}, r0, 1, 2, None);
    v := S.TakeRun(u, r0, 1, 2);
    assert S.Granule(v, 512) == 1 by { Unmoved(t, u, v); }
    assert S.Granule(v, 532) == T.FANOUT by { assert S.TakenIn(v, 528, 32, T.FANOUT); InUnits(v, 528, 32, T.FANOUT, 532); }
    HalfFree(t, u);
    TakenInTurn(t, u);
    owner := o;
  }

  lemma HalfFree(t: T.Tree, u: T.Tree)
    requires t.states == [T.RSVD, T.RSVD, T.FREE, T.FREE] && R.Step(t, u, R.Event.Extent(512, 16, None))
    ensures forall b: nat :: T.BlockAt(t, b) == T.Free <==> 512 <= b < 1024
    ensures forall b: nat :: T.BlockAt(u, b) == T.Free <==> 528 <= b < 1024
  {
    assert S.Rounded(16) == 16;
    assert forall b: nat :: T.BlockAt(t, b) == T.Free <==> 512 <= b < 1024;
    hide T.BlockAt;
  }

  /** Those are the places that the allocator prefers. */
  lemma TakenInTurn(t: T.Tree, u: T.Tree)
    requires forall b: nat :: T.BlockAt(t, b) == T.Free <==> 512 <= b < 1024
    requires forall b: nat :: T.BlockAt(u, b) == T.Free <==> 528 <= b < 1024
    ensures AllocRoom.Preferred(t, 512, 16) && AllocRoom.Preferred(u, 528, 20)
  {
    hide T.BlockAt;
    assert AllocRoom.PartRun(u, 528, 32) by {
      assert T.BlockAt(u, 512) != T.Free;
    }
    forall b: nat | AllocRoom.FreeRun(t, b, 16) ensures AllocRoom.FreeCellAt(t, b / T.CELL) {
      assert T.BlockAt(t, b) == T.Free;
      assert 512 <= b / T.CELL * T.CELL <= 768;
    }
    forall x: nat | x < 528 && x / T.CELL == 2 ensures !AllocRoom.PartRun(u, x, 32) {
      assert T.BlockAt(u, x) != T.Free;
    }
    forall c: nat | c < 2 ensures !AllocRoom.FreeCellAt(t, c) {
      assert T.BlockAt(t, c * T.CELL) != T.Free;
    }
  }

  lemma ReleaseFacts(t: T.Tree, u: T.Tree, lo: nat, n: nat)
    requires R.Step(t, u, R.Event.Release(lo, n))
    ensures F.Freeable(t, lo, n) && lo <= F.CoverEnd(t, lo, n) && F.Freed(t, u, lo, F.CoverEnd(t, lo, n) - lo)
  {
  }

  lemma GivenBack(m: FileMap, p0: set<nat>, now: FileMap, p1: set<nat>, lo: nat, n: nat)
    requires Sound(m, p0) && Owned(m) == Owned(now) + RunBag(lo, n) && p1 == p0 + Interval(lo, n)
    ensures Sound(now, p1)
  {
    hide Owned;
    assert multiset(p1) <= multiset(p0) + multiset(Interval(lo, n));
    SoundStep(m, p0, now, p1);
  }

  lemma SharedIsUnsound(m: FileMap, p: set<nat>, b: nat)
    requires b in p
    ensures b in Owned(m) ==> !Sound(m, p)
  {
    hide Owned;
    assert b in Owned(m) ==> (Owned(m) + multiset(p))[b] >= 2;
  }

  /**
  Releasing the first m blocks of a run handed out in units of sixteen takes the block behind them along,
  whenever m is not a multiple of sixteen.
  */
  lemma PieceTakesNeighbour(t: T.Tree, lo: nat, n: nat, m: nat, u: T.Tree)
    requires R.Placed(t, lo, n) && T.FANOUT < n < T.CELL && 1 <= m < n && m % T.FANOUT != 0
    ensures T.BlockAt(t, lo + m) == T.Full && F.Freeable(t, lo, m)
    ensures R.Step(t, u, R.Event.Release(lo, m)) ==> T.BlockAt(u, lo + m) == T.Free
  {
    hide T.BlockAt, S.Granule;
    assert S.Rounded(n) >= n;
    assert S.Granule(t, lo) == S.Granule(t, lo + m - 1) == T.FANOUT;
    assert F.UpTo(lo + m - 1, T.FANOUT) > lo + m;
  }

  /** A group on which it happens: seventeen of the twenty blocks are released, and the other three are free too. */
  lemma PieceOfTwenty() returns (t: T.Tree, owner: map<T.Ref, T.Place>)
    ensures T.Tidy(t, owner, {}) && R.Placed(t, 528, 20) && F.Freeable(t, 528, 17)
    ensures T.BlockAt(t, 545) == T.BlockAt(t, 546) == T.BlockAt(t, 547) == T.Full
    ensures forall u :: R.Step(t, u, R.Event.Release(528, 17)) ==>
      T.BlockAt(u, 545) == T.BlockAt(u, 546) == T.BlockAt(u, 547) == T.Free
  {
    hide T.BlockAt, S.Granule, T.Tidy;
    var before, mid;
    before, mid, t, owner := MergedRunRefusesCut();
    PieceTakesNeighbour(t, 528, 20, 17, t);
    assert F.CoverEnd(t, 528, 17) == 560;
  }

  // --- units --------------------------------------------------------------------------------------

  /** A multiple of a unit added to an aligned address is aligned. */
  lemma UnitsFit(addr: nat, g: nat, keep: nat)
    requires g in {1, T.FANOUT, T.CELL} && F.Aligned(addr, g)
    ensures F.Aligned(addr + RoundUp(keep, g), g)
  {
    hide RoundUp;
    if g == T.FANOUT {
      Sixteens(addr, keep);
    } else if g == T.CELL {
      Cells(addr, keep);
    }
  }

  /** The unit the last block lies in ends where the length rounded up does. */
  lemma UnitsCover(addr: nat, g: nat, blocks: nat)
    requires g in {1, T.FANOUT, T.CELL} && F.Aligned(addr, g) && blocks >= 1
    ensures F.UpTo(addr + blocks - 1, g) == addr + RoundUp(blocks, g)
  {
    hide RoundUp;
    if g == T.FANOUT {
      Sixteens(addr, blocks);
    } else if g == T.CELL {
      Cells(addr, blocks);
    } else {
      Ones(blocks);
    }
  }

  lemma Sixteens(addr: nat, n: nat)
    requires addr % 16 == 0
    ensures (addr + RoundUp(n, 16)) % 16 == 0 && (n >= 1 ==> (addr + n - 1) / 16 * 16 + 16 == addr + RoundUp(n, 16))
  {
    assert RoundUp(n, 16) == (n + 15) / 16 * 16;
  }

  lemma Cells(addr: nat, n: nat)
    requires addr % 256 == 0
    ensures (addr + RoundUp(n, 256)) % 256 == 0 && (n >= 1 ==> (addr + n - 1) / 256 * 256 + 256 == addr + RoundUp(n, 256))
  {
    assert RoundUp(n, 256) == (n + 255) / 256 * 256;
  }

  lemma Ones(n: nat)
    ensures RoundUp(n, 1) == n
  {
    assert RoundUp(n, 1) == n / 1 * 1;
  }

  lemma RoundedUp(n: nat)
    ensures S.Rounded(n) >= n && S.GranuleFor(n) in {1, T.FANOUT, T.CELL}
  {
  }

  lemma CoarserAligned(b: nat, g1: nat, g2: nat)
    requires g1 in {1, T.FANOUT, T.CELL} && g2 in {1, T.FANOUT, T.CELL} && F.Aligned(b, g1) && g1 >= g2
    ensures F.Aligned(b, g2)
  {
  }

  lemma UnitsWithin(blocks: nat, n: nat)
    requires blocks <= n
    ensures RoundUp(blocks, S.GranuleFor(n)) <= S.Rounded(n)
  {
  }

  lemma InUnits(t: T.Tree, lo: nat, n: nat, g: nat, b: nat)
    requires S.TakenIn(t, lo, n, g) && lo <= b < lo + n
    ensures S.Granule(t, b) == g
  {
  }

  lemma Unmoved(t: T.Tree, u: T.Tree, v: T.Tree)
    requires S.Allocated(t, u, 512, 16, None) && S.TakenIn(u, 512, 16, 1) && S.Allocated(u, v, 528, 32, None)
    ensures S.Granule(v, 512) == 1
  {
    hide T.BlockAt, S.Granule;
    assert S.Granule(u, 512) == 1;
    assert T.BlockAt(u, 512) == T.BlockAt(v, 512) == T.Full;
  }

  lemma KidsLeft(t: T.Tree, mid: T.Tree)
    requires |t.states| == |t.refs| == 4 && t.recs == map[]
    requires mid == T.RefineKid(T.RefineCell(t, 2, T.Ref(256, 0)), T.Ref(256, 0), 0, T.Ref(256, 1), T.ZeroRec())
    ensures T.Ref(256, 0) in mid.recs && mid.recs[T.Ref(256, 0)].Ok() && S.RunAt(mid.recs[T.Ref(256, 0)], 1, 2)
    ensures S.RunAt(T.ZeroRec(), 0, 16)
  {
  }

  lemma OthersLeft(t: T.Tree, u: T.Tree, r: T.Ref, q: T.Ref)
    requires r in t.recs && t.recs[r].Ok() && u == S.TakeRun(t, r, 0, 16) && q in t.recs && q != r
    ensures q in u.recs && u.recs[q] == t.recs[q] && u.length == t.length
  {
  }

  lemma PlainHere(t: T.Tree)
    requires t == T.Tree(AllocFormat.MIN_LENGTH, [T.RSVD, T.RSVD, T.FREE, T.FREE], AllocFormat.Cleared(4), map[])
    ensures AllocFormat.Plain(t, 2, 4)
  {
  }
}
