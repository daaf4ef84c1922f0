/** What freeing and truncating promise: what stays mapped, and that each block is handed back once. */
module ExtentTrim {
  import opened Wrappers
  import opened Intervals
  import opened Radix
  import opened ExtentTree
  import opened ExtentSpec

  // --- ownership when blocks go back -------------------------------------------------------

  /** Mapping and pool together gain nothing. */
  ghost predicate Conserved(b0: multiset<nat>, p0: set<nat>, b1: multiset<nat>, p1: set<nat>) {
    b1 + multiset(p1) <= b0 + multiset(p0)
  }

  /** No block is owned twice, and none that is owned can be given out. */
  ghost predicate Sound(m: FileMap, pool: set<nat>) {
    NoRepeat(Owned(m) + multiset(pool))
  }

  lemma SoundStep(m: FileMap, p0: set<nat>, now: FileMap, p1: set<nat>)
    requires Sound(m, p0) && Conserved(Owned(m), p0, Owned(now), p1)
    ensures Sound(now, p1)
  {
    hide Owned;
    forall b ensures (Owned(now) + multiset(p1))[b] <= 1 {
      assert (Owned(now) + multiset(p1))[b] <= (Owned(m) + multiset(p0))[b];
    }
  }

  /** Ensuring is such a step too. */
  lemma KeptConserves(b0: multiset<nat>, k0: Stock, b1: multiset<nat>, k1: Stock)
    requires Kept(b0, k0, b1, k1)
    ensures Conserved(b0, k0.pool, b1, k1.pool)
  {
    var p0, p1 := multiset(k0.pool), multiset(k1.pool);
    forall x ensures (b1 + p1)[x] <= (b0 + p0)[x] {
      assert (b1 + k1.Unowned())[x] == (b0 + k0.Unowned())[x];
      assert k0.slack[x] <= k1.slack[x];
    }
  }

  lemma SoundConserved(m: FileMap, p0: set<nat>, now: FileMap, p1: set<nat>)
    ensures Conserved(Owned(m), p0, Owned(now), p1) && Sound(m, p0) ==> Sound(now, p1)
  {
    if Conserved(Owned(m), p0, Owned(now), p1) && Sound(m, p0) {
      SoundStep(m, p0, now, p1);
    }
  }

  lemma SoundKept(m: FileMap, k0: Stock, now: FileMap, k1: Stock)
    requires Kept(Owned(m), k0, Owned(now), k1)
    ensures Sound(m, k0.pool) ==> Sound(now, k1.pool)
  {
    KeptConserves(Owned(m), k0, Owned(now), k1);
    SoundConserved(m, k0.pool, now, k1.pool);
  }

  /** A sound mapping never maps two file blocks to one, nor any to a block that is still free. */
  lemma SoundMeans(m: FileMap, pool: set<nat>, f: nat, g: nat)
    requires Well(m) && Sound(m, pool) && BlockOf(m, f).Some?
    ensures f != g ==> BlockOf(m, f) != BlockOf(m, g)
    ensures BlockOf(m, f).value !in pool
  {
    var b := BlockOf(m, f).value;
    assert NoRepeat(Owned(m)) by {
      forall x ensures Owned(m)[x] <= 1 {
        assert Owned(m)[x] <= (Owned(m) + multiset(pool))[x];
      }
    }
    match m {
      case Tree(level, kids) =>
        LookKidsOwned(kids, level, f);
        if f != g {
          KidsInjective(kids, level, f, g);
        }
      case Inline(extents) =>
        var i := InlineFound(extents, f);
        ExtentInBag(extents, i);
        assert RunBag(extents[i].blk, extents[i].blocks)[b] == 1;
        if f != g && BlockOf(m, g).Some? {
          var j := InlineFound(extents, g);
          if i != j {
            NotShared(extents, i, j, b);
          }
        }
    }
    assert (Owned(m) + multiset(pool))[b] <= 1;
  }

  lemma {:induction false} ExtentInBag(extents: seq<Extent>, i: nat)
    requires i < |extents|
    ensures RunBag(extents[i].blk, extents[i].blocks) <= BagExtents(extents)
  {
    hide RunBag;
    if i < |extents| - 1 {
      ExtentInBag(extents[..|extents| - 1], i);
    }
  }

  lemma {:induction false} TwoExtentsInBag(extents: seq<Extent>, i: nat, j: nat)
    requires i < j < |extents|
    ensures RunBag(extents[i].blk, extents[i].blocks) + RunBag(extents[j].blk, extents[j].blocks) <= BagExtents(extents)
  {
    hide RunBag;
    var rest := extents[..|extents| - 1];
    if j < |extents| - 1 {
      TwoExtentsInBag(rest, i, j);
    } else {
      ExtentInBag(rest, i);
    }
  }

  lemma NotShared(extents: seq<Extent>, i: nat, j: nat, b: nat)
    requires NoRepeat(BagExtents(extents)) && i < |extents| && j < |extents| && i != j
    requires b in Interval(extents[i].blk, extents[i].blocks)
    ensures b !in Interval(extents[j].blk, extents[j].blocks)
  {
    TwoExtentsInBag(extents, if i < j then i else j, if i < j then j else i);
    var x, y := RunBag(extents[i].blk, extents[i].blocks), RunBag(extents[j].blk, extents[j].blocks);
    assert (x + y)[b] <= BagExtents(extents)[b] <= 1;
    assert x[b] == 1;
  }

  lemma ConservedTrans(b0: multiset<nat>, p0: set<nat>, b1: multiset<nat>, p1: set<nat>, b2: multiset<nat>, p2: set<nat>)
    requires Conserved(b0, p0, b1, p1) && Conserved(b1, p1, b2, p2)
    ensures Conserved(b0, p0, b2, p2)
  {
  }

  lemma ConservedPart(b0: multiset<nat>, p0: set<nat>, b1: multiset<nat>, p1: set<nat>, k0: multiset<nat>, k1: multiset<nat>)
    requires Conserved(b0, p0, b1, p1) && k1 + b0 == k0 + b1
    ensures Conserved(k0, p0, k1, p1)
  {
    forall x: nat ensures (k1 + multiset(p1))[x] <= (k0 + multiset(p0))[x] {
      assert (k1 + b0)[x] == (k0 + b1)[x];
      assert (b1 + multiset(p1))[x] <= (b0 + multiset(p0))[x];
    }
  }

  lemma GivenConserved(b: multiset<nat>, p: set<nat>, lo: nat, n: nat)
    ensures Conserved(b + RunBag(lo, n), p, b, p + Interval(lo, n))
  {
    assert multiset(p + Interval(lo, n)) <= multiset(p) + multiset(Interval(lo, n));
  }

  // --- the ledger of what was handed back ------------------------------------------------------

  /** The runs handed back since before are exactly what old owned and new does not. */
  ghost predicate Ledger(before: seq<Extent>, after: seq<Extent>, was: multiset<nat>, now: multiset<nat>) {
    BagExtents(after) + now == BagExtents(before) + was
  }

  lemma LedgerTrans(h0: seq<Extent>, h1: seq<Extent>, h2: seq<Extent>, a: multiset<nat>, b: multiset<nat>, c: multiset<nat>)
    requires Ledger(h0, h1, a, b) && Ledger(h1, h2, b, c)
    ensures Ledger(h0, h2, a, c)
  {
    hide BagExtents;
    forall x ensures (BagExtents(h2) + c)[x] == (BagExtents(h0) + a)[x] {
      assert (BagExtents(h1) + b)[x] == (BagExtents(h0) + a)[x];
      assert (BagExtents(h2) + c)[x] == (BagExtents(h1) + b)[x];
    }
  }

  lemma LedgerPart(h0: seq<Extent>, h1: seq<Extent>, b0: multiset<nat>, b1: multiset<nat>, k0: multiset<nat>, k1: multiset<nat>)
    requires Ledger(h0, h1, b0, b1) && k1 + b0 == k0 + b1
    ensures Ledger(h0, h1, k0, k1)
  {
    hide BagExtents;
    forall x ensures (BagExtents(h1) + k1)[x] == (BagExtents(h0) + k0)[x] {
      assert (BagExtents(h1) + b1)[x] == (BagExtents(h0) + b0)[x];
      assert (k1 + b0)[x] == (k0 + b1)[x];
    }
  }

  /** One run handed back. */
  lemma LedgerRun(h: seq<Extent>, e: Extent, b: multiset<nat>)
    ensures Ledger(h, h + [e], b + RunBag(e.blk, e.blocks), b)
  {
    hide RunBag;
    BagExtentAppend(h, e);
  }

  // --- units ----------------------------------------------------------------------------------

  function UnitAt(units: Units, b: nat): (g: nat)
    ensures g == 1 || g == 16 || g == 256
  {
    if b in units then units[b] else 1
  }

  /** The allocator takes back an allocated range that starts where a unit does. */
  predicate Releasable(units: Units, blk: nat, n: nat) {
    n == 0 || (blk in units && blk % units[blk] == 0 && forall b :: blk <= b < blk + n ==> b in units)
  }

  /** A run all of whose blocks were handed out in one unit, from the start of one on. */
  ghost predicate InOneUnit(units: Units, blk: nat, n: nat) {
    Releasable(units, blk, n) && forall b :: blk <= b < blk + n ==> units[b] == units[blk]
  }

  /** Every run and node of a child can be given back. */
  predicate AllReleasable(units: Units, ch: Child, level: nat)
    decreases level, 0
  {
    match ch
    case Free => true
    case Full(blocks, addr) => Releasable(units, addr, blocks)
    case Refined(at, _, kids) => Releasable(units, at, 1) && (level > 0 ==> KidsReleasable(units, kids, level - 1))
  }

  predicate KidsReleasable(units: Units, kids: seq<Child>, level: nat)
    decreases level, 1
  {
    forall i :: 0 <= i < |kids| ==> AllReleasable(units, kids[i], level)
  }

  ghost predicate ExtentsReleasable(units: Units, extents: seq<Extent>) {
    forall i :: 0 <= i < |extents| ==> Releasable(units, extents[i].blk, extents[i].blocks)
  }

  ghost predicate MapReleasable(units: Units, m: FileMap) {
    match m
    case Empty => true
    case Embed(_) => true
    case Inline(extents) => ExtentsReleasable(units, extents)
    case Tree(level, kids) => KidsReleasable(units, kids, level)
  }

  /** Every run of a child is in one unit, and every node can be given back. */
  ghost predicate AllInUnits(units: Units, ch: Child, level: nat)
    decreases level, 0
  {
    match ch
    case Free => true
    case Full(blocks, addr) => InOneUnit(units, addr, blocks)
    case Refined(at, _, kids) => Releasable(units, at, 1) && (level > 0 ==> KidsInUnits(units, kids, level - 1))
  }

  ghost predicate KidsInUnits(units: Units, kids: seq<Child>, level: nat)
    decreases level, 1
  {
    forall i :: 0 <= i < |kids| ==> AllInUnits(units, kids[i], level)
  }

  ghost predicate ExtentsInUnits(units: Units, extents: seq<Extent>) {
    forall i :: 0 <= i < |extents| ==> InOneUnit(units, extents[i].blk, extents[i].blocks)
  }

  ghost predicate MapInUnits(units: Units, m: FileMap) {
    match m
    case Empty => true
    case Embed(_) => true
    case Inline(extents) => ExtentsInUnits(units, extents)
    case Tree(level, kids) => KidsInUnits(units, kids, level)
  }

  lemma OneUnitReleasable(units: Units, blk: nat, n: nat)
    requires InOneUnit(units, blk, n)
    ensures Releasable(units, blk, n)
  {
  }

  lemma UnitsReleasable(units: Units, ch: Child, level: nat)
    requires AllInUnits(units, ch, level)
    ensures AllReleasable(units, ch, level)
    decreases level
  {
    if ch.Refined? && level > 0 {
      forall i | 0 <= i < |ch.kids| ensures AllReleasable(units, ch.kids[i], level - 1) {
        UnitsReleasable(units, ch.kids[i], level - 1);
      }
    }
  }

  /** The smallest multiple of g from keep on. */
  function RoundUp(keep: nat, g: nat): nat
    requires g >= 1
  {
    (keep + g - 1) / g * g
  }

  lemma RoundUpNear(keep: nat, g: nat)
    requires g >= 1
    ensures keep <= RoundUp(keep, g) < keep + g
  {
    var q := (keep + g - 1) / g;
    assert q * g + (keep + g - 1) % g == keep + g - 1;
  }

  lemma RoundUpUnits(addr: nat, keep: nat, g: nat)
    requires (g == 1 || g == 16 || g == 256) && addr % g == 0
    ensures (addr + RoundUp(keep, g)) % g == 0
  {
    var q := (keep + g - 1) / g;
    if g == 16 {
      assert (addr + q * 16) % 16 == 0;
    } else if g == 256 {
      assert (addr + q * 256) % 256 == 0;
    }
  }

  /** What a cut to keep blocks leaves of a run: whole units from its start; none if it cannot be made. */
  function KeptOf(units: Units, addr: nat, blocks: nat, keep: nat): Option<nat> {
    if keep >= blocks then Some(blocks)
    else if addr !in units then None
    else if RoundUp(keep, units[addr]) >= blocks then Some(blocks)
    else if Releasable(units, addr + RoundUp(keep, units[addr]), blocks - RoundUp(keep, units[addr])) then Some(RoundUp(keep, units[addr]))
    else None
  }

  /** A run in one unit can be cut anywhere. */
  lemma CutWorks(units: Units, addr: nat, blocks: nat, keep: nat)
    requires InOneUnit(units, addr, blocks) && 1 <= keep
    ensures KeptOf(units, addr, blocks, keep).Some?
  {
    if keep < blocks {
      var g: nat := units[addr];
      RoundUpNear(keep, g);
      RoundUpUnits(addr, keep, g);
    }
  }

  // --- which cuts work ------------------------------------------------------------------------------

  /** Keeping so many blocks of a child leaves nothing of it: a node all of whose children go, goes. */
  predicate Emptied(ch: Child, level: nat, keep: nat)
    decreases level, 0
  {
    match ch
    case Free => true
    case Full(_, _) => keep == 0
    case Refined(_, _, kids) => keep == 0 || (keep < Cov(level) && level > 0 && KidsEmptied(kids, level - 1, keep))
  }

  predicate KidsEmptied(kids: seq<Child>, level: nat, keep: nat)
    decreases level, 1
  {
    forall i :: 0 <= i < |kids| ==> Emptied(kids[i], level, KeepIn(keep, Start(i, Cov(level))))
  }

  /** The allocator takes back all that keeping so many blocks of a child gives up. */
  predicate Cuttable(units: Units, ch: Child, level: nat, keep: nat)
    decreases level, 0
  {
    if keep == 0 then AllReleasable(units, ch, level)
    else if keep >= Cov(level) then true
    else match ch
      case Free => true
      case Full(blocks, addr) => KeptOf(units, addr, blocks, keep).Some?
      case Refined(at, _, kids) =>
        level > 0 && KidsCuttable(units, kids, level - 1, keep) && (KidsEmptied(kids, level - 1, keep) ==> Releasable(units, at, 1))
  }

  predicate KidsCuttable(units: Units, kids: seq<Child>, level: nat, keep: nat)
    decreases level, 1
  {
    forall i :: 0 <= i < |kids| ==> Cuttable(units, kids[i], level, KeepIn(keep, Start(i, Cov(level))))
  }

  predicate ExtentCuttable(units: Units, e: Extent, cutoff: nat) {
    if e.first >= cutoff then Releasable(units, e.blk, e.blocks) else KeptOf(units, e.blk, e.blocks, cutoff - e.first).Some?
  }

  predicate MapCuttable(units: Units, m: FileMap, cutoff: nat) {
    match m
    case Empty => true
    case Embed(_) => true
    case Inline(extents) => forall i :: 0 <= i < |extents| ==> ExtentCuttable(units, extents[i], cutoff)
    case Tree(level, kids) => KidsCuttable(units, kids, level, cutoff)
  }

  lemma UnitsCuttable(units: Units, ch: Child, level: nat, keep: nat)
    requires WF(ch, level) && AllInUnits(units, ch, level)
    ensures Cuttable(units, ch, level, keep)
    decreases level, 0
  {
    hide KidsReleasable, InOneUnit, Releasable, KeptOf, Start;
    if keep == 0 {
      UnitsReleasable(units, ch, level);
    } else if keep < Cov(level) {
      match ch
      case Free =>
      case Full(blocks, addr) => CutWorks(units, addr, blocks, keep);
      case Refined(_, _, kids) => KidsUnitsCuttable(units, kids, level - 1, keep);
    }
  }

  lemma KidsUnitsCuttable(units: Units, kids: seq<Child>, level: nat, keep: nat)
    requires AllWF(kids, level) && KidsInUnits(units, kids, level)
    ensures KidsCuttable(units, kids, level, keep)
    decreases level, 1
  {
    hide AllInUnits, Cuttable, Start;
    forall i | 0 <= i < |kids| ensures Cuttable(units, kids[i], level, KeepIn(keep, Start(i, Cov(level)))) {
      UnitsCuttable(units, kids[i], level, KeepIn(keep, Start(i, Cov(level))));
    }
  }

  /** As long as no run mixes units, every cut works. */
  lemma MapUnitsCuttable(units: Units, m: FileMap, cutoff: nat)
    requires Well(m) && MapInUnits(units, m)
    ensures MapCuttable(units, m, cutoff)
  {
    hide InOneUnit, Releasable, KeptOf, KidsInUnits, KidsCuttable;
    match m
    case Tree(level, kids) => KidsUnitsCuttable(units, kids, level, cutoff);
    case Inline(extents) =>
      forall i | 0 <= i < |extents| ensures ExtentCuttable(units, extents[i], cutoff) {
        var e := extents[i];
        if e.first >= cutoff {
          OneUnitReleasable(units, e.blk, e.blocks);
        } else {
          CutWorks(units, e.blk, e.blocks, cutoff - e.first);
        }
      }
    case _ =>
  }

  // --- where a block is mapped from ---------------------------------------------------------------

  /** A mapped block: the first block of its run, and how far behind that it lies. */
  datatype Spot = Spot(addr: nat, off: nat)

  function Where(ch: Child, level: nat, x: nat): Option<Spot>
    decreases level, 0
  {
    match ch
    case Free => None
    case Full(blocks, addr) => if x < blocks then Some(Spot(addr, x)) else None
    case Refined(_, _, kids) => if level == 0 then None else WhereKids(kids, level - 1, x)
  }

  function WhereKids(kids: seq<Child>, level: nat, x: nat): Option<Spot>
    decreases level, 1
  {
    var i := Slot(x, Cov(level));
    if i < |kids| then Where(kids[i], level, Sub(x, Cov(level))) else None
  }

  function WhereInline(extents: seq<Extent>, f: nat): Option<Spot> {
    if extents == [] then None
    else if InExtent(extents[0], f) then Some(Spot(extents[0].blk, f - extents[0].first))
    else WhereInline(extents[1..], f)
  }

  function WhereIn(m: FileMap, f: nat): Option<Spot> {
    match m
    case Empty => None
    case Embed(_) => None
    case Inline(extents) => WhereInline(extents, f)
    case Tree(level, kids) => WhereKids(kids, level, f)
  }

  function BlockAt(s: Option<Spot>): Option<nat> {
    if s.Some? then Some(s.value.addr + s.value.off) else None
  }

  lemma WhereLooks(ch: Child, level: nat, x: nat)
    ensures Look(ch, level, x) == BlockAt(Where(ch, level, x))
    ensures Where(ch, level, x).Some? ==> Where(ch, level, x).value.off <= x
    decreases level, 0
  {
    hide Slot, Sub;
    if ch.Refined? && level > 0 {
      WhereKidsLooks(ch.kids, level - 1, x);
    }
  }

  lemma WhereKidsLooks(kids: seq<Child>, level: nat, x: nat)
    ensures LookKids(kids, level, x) == BlockAt(WhereKids(kids, level, x))
    ensures WhereKids(kids, level, x).Some? ==> WhereKids(kids, level, x).value.off <= x
    decreases level, 1
  {
    hide Slot, Sub;
    var i, s := Slot(x, Cov(level)), Sub(x, Cov(level));
    SlotSub(x, Cov(level));
    if i < |kids| {
      WhereLooks(kids[i], level, s);
    }
  }

  lemma {:induction false} WhereInlineLooks(extents: seq<Extent>, f: nat)
    ensures LookInline(extents, f) == BlockAt(WhereInline(extents, f))
    ensures WhereInline(extents, f).Some? ==> WhereInline(extents, f).value.off <= f
  {
    if extents != [] && !InExtent(extents[0], f) {
      WhereInlineLooks(extents[1..], f);
    }
  }

  lemma WhereInLooks(m: FileMap, f: nat)
    ensures BlockOf(m, f) == BlockAt(WhereIn(m, f))
    ensures WhereIn(m, f).Some? ==> WhereIn(m, f).value.off <= f
  {
    match m {
      case Inline(extents) => WhereInlineLooks(extents, f);
      case Tree(level, kids) => WhereKidsLooks(kids, level, f);
      case _ =>
    }
  }

  lemma {:induction false} WhereInlineAppend(extents: seq<Extent>, e: Extent, f: nat)
    ensures WhereInline(extents + [e], f) ==
      if WhereInline(extents, f).Some? then WhereInline(extents, f)
      else if InExtent(e, f) then Some(Spot(e.blk, f - e.first)) else None
  {
    if extents == [] {
      assert (extents + [e])[1..] == [];
    } else {
      assert (extents + [e])[1..] == extents[1..] + [e];
      WhereInlineAppend(extents[1..], e, f);
    }
  }

  lemma {:induction false} WhereInlineNone(extents: seq<Extent>, f: nat)
    ensures WhereInline(extents, f).None? <==> forall i :: 0 <= i < |extents| ==> !InExtent(extents[i], f)
  {
    if extents != [] {
      WhereInlineNone(extents[1..], f);
      if forall i :: 0 <= i < |extents[1..]| ==> !InExtent(extents[1..][i], f) {
        forall i | 0 < i < |extents| ensures !InExtent(extents[i], f) {
          assert extents[i] == extents[1..][i - 1];
        }
      } else {
        var i :| 0 <= i < |extents[1..]| && InExtent(extents[1..][i], f);
        assert InExtent(extents[i + 1], f);
      }
    }
  }

  // --- trimming ---------------------------------------------------------------------------------

  /**
  A cut at block keep leaves what lies below it, and of a run that straddles it the rest of the unit,
  counted from the run's start in the unit of its first block.
  */
  ghost predicate Stays(units: Units, s: Spot, x: nat, keep: nat) {
    x < keep || (s.off <= x < keep + s.off && s.off < RoundUp(keep + s.off - x, UnitAt(units, s.addr)))
  }

  ghost function After(units: Units, s: Option<Spot>, x: nat, keep: nat): Option<Spot> {
    if s.Some? && Stays(units, s.value, x, keep) then s else None
  }

  ghost predicate Trimmed(units: Units, ch: Child, now: Child, level: nat, keep: nat) {
    forall x: nat :: Where(now, level, x) == After(units, Where(ch, level, x), x, keep)
  }

  ghost predicate KidsTrimmed(units: Units, kids: seq<Child>, now: seq<Child>, level: nat, keep: nat) {
    forall x: nat :: WhereKids(now, level, x) == After(units, WhereKids(kids, level, x), x, keep)
  }

  ghost predicate MapTrimmed(units: Units, m: FileMap, now: FileMap, cutoff: nat) {
    forall f: nat :: WhereIn(now, f) == After(units, WhereIn(m, f), f, cutoff)
  }

  /**
  What that means for the file: below the cutoff all is as before, nothing new is mapped, and what is
  left beyond it is less than the unit at its run's first block; with single-block units, nothing is.
  */
  lemma TrimmedMeans(units: Units, m: FileMap, now: FileMap, cutoff: nat, f: nat)
    requires MapTrimmed(units, m, now, cutoff)
    ensures f < cutoff ==> BlockOf(now, f) == BlockOf(m, f)
    ensures BlockOf(now, f).Some? ==> BlockOf(now, f) == BlockOf(m, f)
    ensures f >= cutoff && BlockOf(now, f).Some? ==> WhereIn(m, f).Some? && f - cutoff < UnitAt(units, WhereIn(m, f).value.addr) - 1
    ensures f >= cutoff && WhereIn(m, f).Some? && UnitAt(units, WhereIn(m, f).value.addr) == 1 ==> BlockOf(now, f).None?
  {
    hide RoundUp, BlockOf, WhereIn;
    WhereInLooks(m, f);
    WhereInLooks(now, f);
    assert WhereIn(now, f) == After(units, WhereIn(m, f), f, cutoff);
    if WhereIn(m, f).Some? {
      var s := WhereIn(m, f).value;
      if f >= cutoff && s.off <= f < cutoff + s.off {
        RoundUpNear(cutoff + s.off - f, UnitAt(units, s.addr));
      }
    }
  }

  /** The part of the cutoff that falls into the range starting at start. */
  function KeepIn(keep: nat, start: nat): nat {
    if keep > start then keep - start else 0
  }

  lemma StaysShifted(units: Units, s: Spot, x: nat, start: nat, keep: nat)
    requires s.off <= x
    ensures Stays(units, s, x, KeepIn(keep, start)) <==> Stays(units, s, start + x, keep)
  {
    hide RoundUp;
    if keep > start && x < keep - start + s.off {
      assert keep - start + s.off - x == keep + s.off - (start + x);
    }
  }

  /** Cutting each child at its part of the cutoff cuts the row at the cutoff. */
  lemma RowTrimmed(units: Units, kids: seq<Child>, now: seq<Child>, level: nat, keep: nat)
    requires |now| == |kids|
    requires forall i :: 0 <= i < |kids| ==> Trimmed(units, kids[i], now[i], level, KeepIn(keep, Start(i, Cov(level))))
    ensures KidsTrimmed(units, kids, now, level, keep)
  {
    hide Start, Slot, Sub, Stays, Where;
    var c := Cov(level);
    forall x: nat ensures WhereKids(now, level, x) == After(units, WhereKids(kids, level, x), x, keep) {
      SlotSub(x, c);
      var i, s := Slot(x, c), Sub(x, c);
      if i < |kids| {
        assert Trimmed(units, kids[i], now[i], level, KeepIn(keep, Start(i, c)));
        assert Where(now[i], level, s) == After(units, Where(kids[i], level, s), s, KeepIn(keep, Start(i, c)));
        WhereLooks(kids[i], level, s);
        if Where(kids[i], level, s).Some? {
          StaysShifted(units, Where(kids[i], level, s).value, s, Start(i, c), keep);
        }
      }
    }
  }

  lemma NodeTrimmed(units: Units, at: nat, kids: seq<Child>, now: seq<Child>, below: nat, level: nat, keep: nat)
    requires level == below + 1 && KidsTrimmed(units, kids, now, below, keep)
    ensures Trimmed(units, Refined(at, below, kids), Refined(at, below, now), level, keep)
    ensures AllFree(now) ==> Trimmed(units, Refined(at, below, kids), Free, level, keep)
  {
    hide After, WhereKids;
    var a, b := Refined(at, below, kids), Refined(at, below, now);
    forall x: nat ensures Where(a, level, x) == WhereKids(kids, below, x) && Where(b, level, x) == WhereKids(now, below, x) {
    }
    if AllFree(now) {
      forall x: nat ensures WhereKids(now, below, x).None? {
        FreeWhere(now, below, x);
      }
    }
  }

  lemma FreeWhere(kids: seq<Child>, level: nat, x: nat)
    requires AllFree(kids)
    ensures WhereKids(kids, level, x).None?
  {
  }

  lemma WholeKept(units: Units, ch: Child, level: nat, keep: nat)
    requires WF(ch, level) && keep >= Cov(level)
    ensures Trimmed(units, ch, ch, level, keep)
  {
    hide Look, Where;
    forall x: nat ensures Where(ch, level, x) == After(units, Where(ch, level, x), x, keep) {
      if x >= Cov(level) {
        LookBeyond(ch, level, x);
        WhereLooks(ch, level, x);
      }
    }
  }

  // --- freed data --------------------------------------------------------------------------------

  lemma {:induction false} DataPrefix(kids: seq<Child>, level: nat, n: nat)
    requires n < |kids|
    ensures DataKids(kids[..n + 1], level) == DataKids(kids[..n], level) + Data(kids[n], level)
    ensures BagKids(kids[..n + 1], level) == BagKids(kids[..n], level) + Bag(kids[n], level)
  {
    assert kids[..n + 1][..n] == kids[..n];
  }

  lemma RunSplit(addr: nat, blocks: nat, kept: nat)
    requires kept <= blocks
    ensures RunBag(addr, blocks) == RunBag(addr, kept) + RunBag(addr + kept, blocks - kept)
  {
    JoinRuns(addr, kept, blocks - kept);
  }
}
