/** What freeing promises, granule by granule, and how coarsening keeps out of sight. */
module FreeSpec {
  import opened Wrappers
  import opened AllocTree
  import opened AllocOps
  import opened AllocCount
  import opened AllocSpec

  /** b is a multiple of its granule. */
  predicate Aligned(b: nat, g: nat) {
    if g == CELL then b % CELL == 0 else if g == FANOUT then b % FANOUT == 0 else true
  }

  /** The end of the granule of size g that b lies in. */
  function UpTo(b: nat, g: nat): nat {
    if g == CELL then b / CELL * CELL + CELL else if g == FANOUT then b / FANOUT * FANOUT + FANOUT else b + 1
  }

  /** Freeing works exactly on fully allocated ranges that start on a granule. */
  ghost predicate Freeable(t: Tree, lo: nat, n: nat) {
    n == 0 || (Aligned(lo, Granule(t, lo)) && forall b: nat :: lo <= b < lo + n ==> BlockAt(t, b) == Full)
  }

  /** Whole granules go: the end of the last one. */
  function CoverEnd(t: Tree, lo: nat, n: nat): nat {
    if n == 0 then lo else UpTo(lo + n - 1, Granule(t, lo + n - 1))
  }

  ghost predicate Freed(t: Tree, u: Tree, lo: nat, n: nat) {
    && u.length == t.length && |u.states| == |t.states|
    && RangeBecomes(t, u, lo, n, Free) && SameSlots(t, u) && SameUnits(t, u)
  }

  lemma FreedThen(t: Tree, m: Tree, u: Tree, lo: nat, n: nat, k: nat)
    requires Freed(t, m, lo, n) && Freed(m, u, lo + n, k)
    ensures Freed(t, u, lo, n + k)
  {
    hide BlockAt, SlotUsed, Granule;
  }

  lemma FreedNothing(t: Tree, u: Tree, lo: nat, hi: nat)
    requires Freed(t, u, lo, 0)
    ensures Freed(t, u, hi, 0)
  {
    hide BlockAt, SlotUsed, Granule;
  }

  /** A granule is allocated as a whole. */
  lemma GranuleWhole(t: Tree, owner: map<Ref, Place>, p: nat)
    requires Owned(t, owner) && Shaped(t, owner) && BlockAt(t, p) == Full && Aligned(p, Granule(t, p))
    ensures var g := Granule(t, p);
      && p + g <= t.length
      && (forall x: nat :: p <= x < p + g ==> BlockAt(t, x) == Full && Granule(t, x) == g && UpTo(x, g) == p + g)
  {
    hide At, KidState;
    Coordinates(p);
    var g := Granule(t, p);
    forall x: nat | p <= x < p + g
      ensures BlockAt(t, x) == Full && Granule(t, x) == g && UpTo(x, g) == p + g
    {
      SameGranule(p, x, g);
    }
  }

  /** A block in the granule of p shares the coordinates that its state depends on. */
  lemma SameGranule(p: nat, x: nat, g: nat)
    requires Aligned(p, g) && p <= x < p + g && (g == CELL || g == FANOUT || g == 1)
    ensures x / CELL == p / CELL && UpTo(x, g) == p + g
    ensures g != CELL ==> x % CELL / FANOUT == p % CELL / FANOUT
    ensures g == 1 ==> x == p
  {
    Coordinates(p);
    Coordinates(x);
  }

  /** What follows a granule is aligned again. */
  lemma NextAligned(t: Tree, p: nat)
    requires Aligned(p, Granule(t, p))
    ensures Aligned(p + Granule(t, p), Granule(t, p + Granule(t, p)))
  {
    hide KidState;
    Coordinates(p);
    Coordinates(p + Granule(t, p));
  }

  lemma CountsFreed(t: Tree, u: Tree, lo: nat, n: nat)
    requires Freed(t, u, lo, n) && lo + n <= t.length
    requires forall b: nat :: lo <= b < lo + n ==> BlockAt(t, b) == Full
    ensures Count(u, KFree) == Count(t, KFree) + n && Count(u, KFull) == Count(t, KFull) - n
    ensures Count(u, KRsvd) == Count(t, KRsvd)
  {
    hide BlockAt, SlotUsed, Count, Granule;
    CountShift(t, u, lo, n, Full, Free, KFree);
    CountShift(t, u, lo, n, Full, Free, KRsvd);
    CountShift(t, u, lo, n, Full, Free, KFull);
  }

  /** What the tables say about a block, level by level. */
  lemma WhatIsAt(t: Tree, owner: map<Ref, Place>, p: nat)
    requires Tidy(t, owner, {}) && p < t.length
    ensures var c, i, j := p / CELL, p % CELL / FANOUT, p % FANOUT;
      && c < |t.states| == |t.refs| && i < FANOUT && j < FANOUT && p == c * CELL + i * FANOUT + j
      && if t.states[c] != REFINED then BlockAt(t, p) == OfState(t.states[c]) && Granule(t, p) == CELL else
      && var l0 := t.refs[c];
      && l0 in t.recs && l0 in owner && owner[l0] == L0(c) && t.recs[l0].Ok() && At(t, L0(c)) == Some(l0)
      && var s := t.recs[l0].states[i];
      && if s != REFINED then BlockAt(t, p) == OfState(s) && Granule(t, p) == FANOUT else
      && var l1 := t.recs[l0].refs[i];
      && l1 in t.recs && l1 in owner && owner[l1] == L1(c, i) && t.recs[l1].Ok() && At(t, L1(c, i)) == Some(l1)
      && BlockAt(t, p) == OfState(t.recs[l1].states[j]) && Granule(t, p) == 1
  {
    hide At;
    Coordinates(p);
    var c, i, j := p / CELL, p % CELL / FANOUT, p % FANOUT;
    if t.states[c] == REFINED {
      CellRecord(t, owner, {}, c);
      OwnKid(t, owner, t.refs[c], i);
      if t.recs[t.refs[c]].states[i] == REFINED {
        KidRecord(t, owner, {}, c, i);
        OwnKid(t, owner, t.recs[t.refs[c]].refs[i], j);
      }
    }
  }

  // --- the steps ---------------------------------------------------------------------------------

  lemma FreeCellStep(t: Tree, owner: map<Ref, Place>, c: nat)
    requires Tidy(t, owner, {}) && c < |t.states| && t.states[c] == FULL
    ensures var u := MarkCell(t, c, FREE);
      Tidy(u, owner, {}) && Freed(t, u, c * CELL, CELL)
  {
    hide At, BlockAt;
    MarkCellFacts(t, owner, c, FREE);
    MarkCellTidy(t, owner, {}, c, FREE);
  }

  /** A FULL child of a record goes FREE: sixteen blocks below a cell, one below a child. */
  lemma FreeKidStep(t: Tree, owner: map<Ref, Place>, r: Ref, k: nat)
    requires r in t.recs && r in owner && !owner[r].L3? && t.recs[r].Ok() && k < FANOUT && t.recs[r].states[k] == FULL
    requires Tidy(t, owner, {})
    ensures var u := WithRec(t, r, MarkKids(t.recs[r], k, 1, FREE));
      && Tidy(u, owner, if u.recs[r].All(FREE) then {r} else {})
      && Freed(t, u, FirstBlock(owner[r], k), Span(owner[r], 1))
  {
    hide At, BlockAt, SlotUsed, Tidy, Granule;
    var rec := MarkKids(t.recs[r], k, 1, FREE);
    TidyParts(t, owner, {});
    MarkKidsTidy(t, owner, {}, r, k, 1, FREE);
    assert {} + {r} == {r} && {} - {r} == {};
    MarkKidsBlocks(t, owner, r, k, 1, FREE);
    MarkKidsSlots(t, owner, r, rec);
    MarkKeepsGranule(t, owner, r, rec);
  }

  /** An emptied record of single blocks is released. */
  lemma DropKidStep(t: Tree, owner: map<Ref, Place>, l0: Ref, i: nat, l1: Ref)
    requires l0 in t.recs && l0 in owner && owner[l0].L0? && t.recs[l0].Ok() && i < FANOUT
    requires l1 in t.recs && t.recs[l1].Ok() && t.recs[l1].All(FREE) && At(t, L1(owner[l0].c, i)) == Some(l1)
    requires Tidy(t, owner, {l1})
    ensures var u := DropKid(t, l0, i, l1, FREE);
      && l0 in u.recs && Tidy(u, owner - {l1}, if u.recs[l0].All(FREE) then {l0} else {})
      && Freed(t, u, FirstBlock(owner[l0], i), 0)
  {
    hide At, BlockAt, SlotUsed, Tidy, Granule, KidState, DropKid;
    TidyParts(t, owner, {l1});
    DropKidTidy(t, owner, {l1}, l0, i, l1, FREE);
    assert {l1} - {l1} + {l0} == {l0} && {l1} - {l1} - {l0} == {};
    DropKidBlocks(t, owner, l0, i, l1, FREE);
    DropKidRest(t, owner, l0, i, l1);
  }

  lemma DropKidRest(t: Tree, owner: map<Ref, Place>, l0: Ref, i: nat, l1: Ref)
    requires Owned(t, owner) && Shaped(t, owner) && l0 in t.recs && owner[l0].L0? && i < FANOUT
    requires l1 in t.recs && t.recs[l1].All(FREE) && At(t, L1(owner[l0].c, i)) == Some(l1)
    ensures var u := DropKid(t, l0, i, l1, FREE);
      u.length == t.length && u.states == t.states && SameSlots(t, u) && SameUnits(t, u)
  {
    hide At;
    DropKidFacts(t, owner, l0, i, l1, FREE);
  }

  /** An emptied record of a cell is released. */
  lemma DropCellStep(t: Tree, owner: map<Ref, Place>, c: nat, l0: Ref)
    requires c < |t.states| == |t.refs| && l0 in t.recs && t.recs[l0].Ok() && t.recs[l0].All(FREE)
    requires At(t, L0(c)) == Some(l0) && Tidy(t, owner, {l0})
    ensures var u := DropCell(t, c, l0, FREE);
      && Tidy(u, owner - {l0}, {}) && Freed(t, u, 0, 0)
  {
    hide At, BlockAt, SlotUsed, Tidy, Granule, KidState, DropCell;
    TidyParts(t, owner, {l0});
    DropCellTidy(t, owner, {l0}, c, l0);
    assert {l0} - {l0} == {};
    DropCellRest(t, owner, c, l0);
  }

  lemma DropCellRest(t: Tree, owner: map<Ref, Place>, c: nat, l0: Ref)
    requires Owned(t, owner) && Shaped(t, owner) && c < |t.states| == |t.refs|
    requires l0 in t.recs && t.recs[l0].All(FREE) && At(t, L0(c)) == Some(l0)
    ensures var u := DropCell(t, c, l0, FREE);
      u.length == t.length && |u.states| == |t.states| && SameSlots(t, u) && SameUnits(t, u)
  {
    hide At;
    DropCellFacts(t, owner, c, l0, FREE);
  }
}
