/** Inode slots: one more level of refinement below a single block. */
module SlotSpec {
  import opened Wrappers
  import opened AllocTree
  import opened AllocOps
  import opened AllocCount
  import opened AllocSpec
  import opened FreeSpec

  /** The slot record of a block, if it is slot-refined. */
  function SlotRec(t: Tree, b: nat): Option<Ref> {
    At(t, L3(b / CELL, b % CELL / FANOUT, b % FANOUT))
  }

  /** A slot block with a slot to give. */
  ghost predicate SlotFree(t: Tree, b: nat) {
    RunBelow(t, L3(b / CELL, b % CELL / FANOUT, b % FANOUT), 1)
  }

  lemma SlotFreeMeans(t: Tree, b: nat)
    ensures SlotFree(t, b) <==> SlotRec(t, b).Some? && SlotRec(t, b).value in t.recs && HasRun(t.recs[SlotRec(t, b).value], 1)
  {
  }

  /** The record of single blocks that covers a block. */
  function KidRec(t: Tree, b: nat): Option<Ref> {
    At(t, L1(b / CELL, b % CELL / FANOUT))
  }

  /** Slot s changed to used or unused, and no other. */
  ghost predicate SlotSet(t: Tree, u: Tree, s: nat, used: bool) {
    forall x: nat :: SlotUsed(u, x) == if x == s then used else SlotUsed(t, x)
  }

  /** Block b became a slot block, or was one; apart from one claimed cell nothing else moved. */
  ghost predicate SlotBlockAt(t: Tree, u: Tree, b: nat, claimed: Option<nat>) {
    && (BlockAt(t, b) == Free || (BlockAt(t, b) == Slots && claimed.None?))
    && claimed != Some(b / CELL) && (forall x: nat :: claimed == Some(x / CELL) ==> BlockAt(t, x) == Free)
    && (forall x: nat :: BlockAt(u, x) == if x == b then Slots else if claimed == Some(x / CELL) then Reserved else BlockAt(t, x))
    && SameUnits(t, u)
  }

  /** No other slot of the block of ino is in use. */
  ghost predicate LastSlot(t: Tree, ino: nat) {
    forall s: nat :: s / FANOUT == ino / FANOUT && SlotUsed(t, s) ==> s == ino
  }

  lemma SlotPlace(t: Tree, owner: map<Ref, Place>, b: nat)
    requires Tidy(t, owner, {}) && b < t.length
    ensures SlotRec(t, b).Some? <==> BlockAt(t, b) == Slots
    ensures SlotRec(t, b).Some? ==>
      && KidRec(t, b).Some?
      && var l3, l1 := SlotRec(t, b).value, KidRec(t, b).value;
      && l3 in t.recs && l3 in owner && t.recs[l3].Ok() && t.recs[l3].NoRefined()
      && owner[l3] == L3(b / CELL, b % CELL / FANOUT, b % FANOUT)
      && l1 in t.recs && l1 in owner && t.recs[l1].Ok() && owner[l1] == L1(b / CELL, b % CELL / FANOUT)
      && t.recs[l1].states[b % FANOUT] == REFINED && Granule(t, b) == 1
  {
    WhatIsAt(t, owner, b);
  }

  /** A slot-refined block lies inside the group. */
  lemma SlotRecInside(t: Tree, owner: map<Ref, Place>, b: nat)
    requires Tidy(t, owner, {}) && SlotRec(t, b).Some?
    ensures b < t.length
  {
    assert At(t, L0(b / CELL)).Some?;
    assert b < (b / CELL + 1) * CELL;
  }

  lemma SlotNumbers(s: nat)
    ensures s == s / FANOUT * FANOUT + s % FANOUT && s % FANOUT < FANOUT
  {
  }

  /** Slot x of block b. */
  function SlotNumber(b: nat, x: nat): (s: nat)
    requires x < FANOUT
    ensures s / FANOUT == b && s % FANOUT == x
  {
    b * FANOUT + x
  }

  /** Slots are in use in slot blocks only. */
  lemma UsedMeansSlots(t: Tree, s: nat)
    requires SlotUsed(t, s)
    ensures BlockAt(t, s / FANOUT) == Slots
  {
    var b := s / FANOUT;
    SlotsAbove(t, b / CELL, b % CELL / FANOUT, b % FANOUT);
  }

  lemma SlotsAbove(t: Tree, c: nat, i: nat, j: nat)
    requires At(t, L3(c, i, j)).Some?
    ensures BlockIn(t, c, i, j) == Slots
  {
    assert At(t, L1(c, i)).Some? && At(t, L0(c)).Some?;
  }

  /** Marking one slot moves nothing else. */
  lemma MarkSlot(t: Tree, owner: map<Ref, Place>, ino: nat, l3: Ref, st: State)
    requires l3 in t.recs && l3 in owner && t.recs[l3].Ok() && (st == FREE || st == FULL)
    requires owner[l3] == L3(ino / FANOUT / CELL, ino / FANOUT % CELL / FANOUT, ino / FANOUT % FANOUT)
    requires t.recs[l3].NoRefined()
    requires Tidy(t, owner, {})
    ensures var u := WithRec(t, l3, MarkKids(t.recs[l3], ino % FANOUT, 1, st));
      && Tidy(u, owner, if u.recs[l3].All(FREE) then {l3} else {})
      && SameBlocks(t, u) && SameUnits(t, u) && SlotSet(t, u, ino, st == FULL)
      && u.length == t.length && u.states == t.states
  {
    hide Tidy, At, Granule;
    var rec := MarkKids(t.recs[l3], ino % FANOUT, 1, st);
    TidyParts(t, owner, {});
    MarkKidsTidy(t, owner, {}, l3, ino % FANOUT, 1, st);
    assert {} + {l3} == {l3} && {} - {l3} == {};
    MarkKeepsGranule(t, owner, l3, rec);
    MarkSlotBlocks(t, owner, ino, l3, rec);
    MarkSlotUsed(t, owner, ino, l3, rec);
  }

  lemma MarkSlotBlocks(t: Tree, owner: map<Ref, Place>, ino: nat, l3: Ref, rec: Rec)
    requires Owned(t, owner) && l3 in t.recs && owner[l3].L3? && SameLinks(t.recs[l3], rec)
    ensures SameBlocks(t, WithRec(t, l3, rec))
  {
    hide At;
    WithRecFacts(t, owner, l3, rec);
  }

  lemma MarkSlotUsed(t: Tree, owner: map<Ref, Place>, ino: nat, l3: Ref, rec: Rec)
    requires Owned(t, owner) && l3 in t.recs && t.recs[l3].Ok() && rec.Ok() && SameLinks(t.recs[l3], rec)
    requires owner[l3] == L3(ino / FANOUT / CELL, ino / FANOUT % CELL / FANOUT, ino / FANOUT % FANOUT)
    requires forall x :: 0 <= x < FANOUT && x != ino % FANOUT ==> rec.states[x] == t.recs[l3].states[x]
    ensures SlotSet(t, WithRec(t, l3, rec), ino, rec.states[ino % FANOUT] == FULL)
  {
    hide At, KidState;
    var u := WithRec(t, l3, rec);
    WithRecFacts(t, owner, l3, rec);
    forall x: nat ensures SlotUsed(u, x) == if x == ino then rec.states[ino % FANOUT] == FULL else SlotUsed(t, x) {
      SlotNumbers(x);
      SlotNumbers(ino);
      Coordinates(x / FANOUT);
      Coordinates(ino / FANOUT);
      OwnKid(t, owner, l3, x % FANOUT);
    }
  }

  /** The last slot of a block goes when every other child of its record is FREE. */
  lemma LastSlotMeans(t: Tree, owner: map<Ref, Place>, ino: nat, l3: Ref)
    requires Owned(t, owner) && l3 in t.recs && t.recs[l3].Ok() && t.recs[l3].NoRefined()
    requires owner[l3] == L3(ino / FANOUT / CELL, ino / FANOUT % CELL / FANOUT, ino / FANOUT % FANOUT)
    ensures MarkKids(t.recs[l3], ino % FANOUT, 1, FREE).All(FREE) <==> LastSlot(t, ino)
  {
    hide At, KidState;
    var rec := MarkKids(t.recs[l3], ino % FANOUT, 1, FREE);
    forall s: nat | s / FANOUT == ino / FANOUT ensures SlotUsed(t, s) <==> t.recs[l3].states[s % FANOUT] == FULL {
      OwnKid(t, owner, l3, s % FANOUT);
    }
    SlotNumbers(ino);
    if LastSlot(t, ino) {
      forall x: nat | x < FANOUT ensures rec.states[x] == FREE {
        var s := SlotNumber(ino / FANOUT, x);
        if x != ino % FANOUT {
          assert !SlotUsed(t, s);
          assert t.recs[l3].states[x] != REFINED;
        }
      }
    } else {
      var s: nat :| s / FANOUT == ino / FANOUT && SlotUsed(t, s) && s != ino;
      SlotNumbers(s);
      assert rec.states[s % FANOUT] == FULL;
    }
  }

  /** A FULL single block is refined into slots, the first of them in use. */
  lemma NewSlots(t: Tree, owner: map<Ref, Place>, b: nat, l1: Ref, r: Ref)
    requires l1 in t.recs && l1 in owner && t.recs[l1].Ok() && owner[l1] == L1(b / CELL, b % CELL / FANOUT)
    requires t.recs[l1].states[b % FANOUT] == FULL && FreshRef(t, r)
    requires Tidy(t, owner, {})
    ensures var u := RefineKid(t, l1, b % FANOUT, r, FirstSlot());
      && Tidy(u, owner[r := L3(b / CELL, b % CELL / FANOUT, b % FANOUT)], {})
      && RangeBecomes(t, u, b, 1, Slots) && SlotSet(t, u, b * FANOUT, true)
      && SameUnits(t, u) && u.length == t.length && u.states == t.states
  {
    hide Tidy, At, Granule, RefineKid, FreshRef;
    TidyParts(t, owner, {});
    FreshMeans(t, r);
    assert !FirstSlot().All(FREE) by { assert FirstSlot().states[0] == FULL; }
    RefineKidTidy(t, owner, {}, l1, b % FANOUT, r, FirstSlot());
    assert {} - {l1} == {};
    RefineKidBlocks(t, owner, l1, b % FANOUT, r, FirstSlot());
    Coordinates(b);
    NewSlotsRest(t, owner, b, l1, r);
  }

  lemma FreshMeans(t: Tree, r: Ref)
    requires FreshRef(t, r)
    ensures r !in t.recs
  {
  }

  function FirstSlot(): (r: Rec)
    ensures r.Ok() && r.NoRefined()
  {
    MarkKids(ZeroRec(), 0, 1, FULL)
  }

  lemma NewSlotsRest(t: Tree, owner: map<Ref, Place>, b: nat, l1: Ref, r: Ref)
    requires Owned(t, owner) && Shaped(t, owner) && l1 in t.recs && t.recs[l1].Ok() && owner[l1] == L1(b / CELL, b % CELL / FANOUT)
    requires t.recs[l1].states[b % FANOUT] == FULL && r !in t.recs
    ensures var u := RefineKid(t, l1, b % FANOUT, r, FirstSlot());
      && SlotSet(t, u, b * FANOUT, true) && SameUnits(t, u) && u.length == t.length && u.states == t.states
  {
    hide At, KidState;
    RefineKidFacts(t, owner, l1, b % FANOUT, r, FirstSlot());
    var u := RefineKid(t, l1, b % FANOUT, r, FirstSlot());
    NoSlotsYet(t, owner, b, l1);
    forall x: nat ensures SlotUsed(u, x) == if x == b * FANOUT then true else SlotUsed(t, x) {
      SlotNumbers(x);
      Coordinates(x / FANOUT);
      Coordinates(b);
      assert b * FANOUT / FANOUT == b && b * FANOUT % FANOUT == 0;
    }
    OwnKid(t, owner, l1, b % FANOUT);
  }

  /** A block that is not slot-refined has no slot in use. */
  lemma NoSlotsYet(t: Tree, owner: map<Ref, Place>, b: nat, l1: Ref)
    requires Owned(t, owner) && l1 in t.recs && t.recs[l1].Ok() && owner[l1] == L1(b / CELL, b % CELL / FANOUT)
    requires t.recs[l1].states[b % FANOUT] == FULL
    ensures forall k: nat :: KidState(t, L3(b / CELL, b % CELL / FANOUT, b % FANOUT), k) == RSVD
  {
    assert At(t, L1(b / CELL, b % CELL / FANOUT)) == Some(l1);
  }

  /** A slot block with no slot in use becomes a plain FULL block again. */
  lemma DropSlots(t: Tree, owner: map<Ref, Place>, b: nat, l1: Ref, l3: Ref)
    requires l1 in t.recs && l1 in owner && t.recs[l1].Ok() && owner[l1] == L1(b / CELL, b % CELL / FANOUT)
    requires l3 in t.recs && t.recs[l3].All(FREE) && t.recs[l3].Ok() && SlotRec(t, b) == Some(l3)
    requires Tidy(t, owner, {l3})
    ensures var u := DropKid(t, l1, b % FANOUT, l3, FULL);
      && Tidy(u, owner - {l3}, {}) && RangeBecomes(t, u, b, 1, Full) && SameSlots(t, u)
      && SameUnits(t, u) && u.length == t.length && u.states == t.states && Granule(u, b) == 1
  {
    hide Tidy, At, Granule, DropKid;
    TidyParts(t, owner, {l3});
    DropKidTidy(t, owner, {l3}, l1, b % FANOUT, l3, FULL);
    DropKidBlocks(t, owner, l1, b % FANOUT, l3, FULL);
    Coordinates(b);
    DropSlotsRest(t, owner, b, l1, l3);
    assert {l3} - {l3} - {l1} == {};
  }

  lemma DropSlotsRest(t: Tree, owner: map<Ref, Place>, b: nat, l1: Ref, l3: Ref)
    requires Owned(t, owner) && Shaped(t, owner)
    requires l1 in t.recs && t.recs[l1].Ok() && owner[l1] == L1(b / CELL, b % CELL / FANOUT)
    requires l3 in t.recs && t.recs[l3].All(FREE) && t.recs[l3].Ok() && SlotRec(t, b) == Some(l3)
    ensures var u := DropKid(t, l1, b % FANOUT, l3, FULL);
      && SameSlots(t, u) && SameUnits(t, u) && u.length == t.length && u.states == t.states && Granule(u, b) == 1
      && l1 in u.recs && !u.recs[l1].All(FREE)
  {
    hide At, KidState;
    DropKidFacts(t, owner, l1, b % FANOUT, l3, FULL);
    var u := DropKid(t, l1, b % FANOUT, l3, FULL);
    assert u.recs[l1].states[b % FANOUT] == FULL;
    PlaceInRange(t, owner, l1);
    Coordinates(b);
    forall x: nat ensures SlotUsed(u, x) == SlotUsed(t, x) {
      SlotNumbers(x);
      Coordinates(x / FANOUT);
      OwnKid(t, owner, l3, x % FANOUT);
    }
  }

  // --- whole operations ------------------------------------------------------------------------------

  /** Block b became a slot block with its first slot in use, and perhaps a cell was claimed. */
  ghost predicate SlotsMade(t: Tree, u: Tree, b: nat, claimed: Option<nat>) {
    && u.length == t.length && SlotSet(t, u, b * FANOUT, true) && SameUnits(t, u)
    && (claimed.Some? ==> claimed.value < |t.states| && t.states[claimed.value] == FREE)
    && (forall x: nat :: claimed == Some(x / CELL) ==> BlockAt(t, x) == Free)
    && (forall x: nat :: BlockAt(u, x) == if x == b then Slots else if claimed == Some(x / CELL) then Reserved else BlockAt(t, x))
  }

  /** Claiming a record and storing its reference and its first slot refines the block. */
  lemma SlotClaim(t: Tree, after: Tree, u: Tree, l1: Ref, j: nat, r: Ref, claimed: Option<nat>, arena: nat)
    requires l1 in t.recs && t.recs[l1].Ok() && j < FANOUT && Claim(t, after, r, claimed, arena)
    requires u == WithRec(WithRec(after, l1, Rec(t.recs[l1].states[j := REFINED], t.recs[l1].refs[j := r])), r, FirstSlot())
    ensures claimed.Some? ==> claimed.value < |t.states| && t.states[claimed.value] == FREE
    ensures FreshRef(ClaimedBase(t, claimed), r) && u == RefineKid(ClaimedBase(t, claimed), l1, j, r, FirstSlot())
  {
    assert r != l1;
    assert u.recs == RefineKid(ClaimedBase(t, claimed), l1, j, r, FirstSlot()).recs;
  }

  lemma SlotsWhole(t: Tree, owner: map<Ref, Place>, b: nat, l1: Ref, r: Ref, claimed: Option<nat>, u: Tree)
    requires l1 in t.recs && l1 in owner && t.recs[l1].Ok() && owner[l1] == L1(b / CELL, b % CELL / FANOUT)
    requires t.recs[l1].states[b % FANOUT] == FULL && b < t.length && BlockAt(t, b) == Full
    requires claimed.Some? ==> claimed.value < |t.states| && t.states[claimed.value] == FREE
    requires FreshRef(ClaimedBase(t, claimed), r) && u == RefineKid(ClaimedBase(t, claimed), l1, b % FANOUT, r, FirstSlot())
    requires Tidy(t, owner, {})
    ensures Tidy(u, owner[r := L3(b / CELL, b % CELL / FANOUT, b % FANOUT)], {})
    ensures SlotsMade(t, u, b, claimed) && CountsMoved(t, u, claimed) && u.states == ClaimedBase(t, claimed).states
  {
    hide Tidy, Count, BlockAt, SlotUsed, Granule, FreshRef, RefineKid;
    var base := ClaimedBase(t, claimed);
    ClaimTidyBut(t, owner, {}, claimed);
    NewSlots(base, owner, b, l1, r);
    assert BlockAt(base, b) == Full;
    forall k ensures Count(u, k) == Count(base, k) {
      CountShift(base, u, b, 1, Full, Slots, k);
    }
  }

  /** Taking a block and refining it, seen from the start. */
  lemma NewSlotBlock(t: Tree, owner: map<Ref, Place>, mid: Tree, u: Tree, b: nat, took: Option<nat>, claimed: Option<nat>)
    requires Tidy(t, owner, {}) && Allocated(t, mid, b, 1, took) && (took.None? || claimed.None?)
    ensures BlockAt(t, b) == Free && !SlotUsed(t, b * FANOUT)
    ensures SlotsMade(mid, u, b, claimed) ==> SlotSet(t, u, b * FANOUT, true)
    ensures SlotsMade(mid, u, b, claimed) ==> SlotBlockAt(t, u, b, if took.Some? then took else claimed)
    ensures b * FANOUT / FANOUT == b
  {
    hide Tidy, BlockAt, SlotUsed, Granule;
    if SlotUsed(t, b * FANOUT) {
      UsedMeansSlots(t, b * FANOUT);
    }
  }

  lemma TookOne(t: Tree, u: Tree, b: nat, claimed: Option<nat>)
    requires Allocated(t, u, b, 1, claimed) && TakenIn(u, b, 1, 1) && u.length == t.length
    ensures b < u.length && BlockAt(u, b) == Full && Granule(u, b) == 1
  {
    hide BlockAt, Granule;
  }

  lemma MarkedPlace(t: Tree, u: Tree, owner: map<Ref, Place>, b: nat, l3: Ref, l1: Ref)
    requires l3 in t.recs && t.recs[l3].Ok() && l1 in t.recs && t.recs[l1].Ok() && SlotRec(t, b) == Some(l3)
    requires t.recs[l3].NoRefined() && t.recs[l1].states[b % FANOUT] == REFINED
    requires exists s :: 0 <= s < FANOUT && u == WithRec(t, l3, MarkKids(t.recs[l3], s, 1, FREE))
    ensures SlotRec(u, b) == Some(l3) && l1 in u.recs && u.recs[l1].Ok() && l3 in u.recs && u.recs[l3].Ok()
  {
    hide At;
    var s :| 0 <= s < FANOUT && u == WithRec(t, l3, MarkKids(t.recs[l3], s, 1, FREE));
    WithRecAt(t, l3, MarkKids(t.recs[l3], s, 1, FREE), L3(b / CELL, b % CELL / FANOUT, b % FANOUT));
  }

  lemma SlotBlockCounts(t: Tree, m: Tree, u: Tree, b: nat)
    requires BlockAt(t, b) == Slots && SameBlocks(t, m) && RangeBecomes(m, u, b, 1, Full)
    requires b < t.length == m.length == u.length
    ensures forall k :: Count(u, k) == Count(t, k)
  {
    hide BlockAt, Count;
    CountSame3(t, m);
    forall k ensures Count(u, k) == Count(t, k) {
      CountShift(m, u, b, 1, Slots, Full, k);
    }
  }

  lemma SingleIsFreeable(t: Tree, b: nat)
    requires BlockAt(t, b) == Full && Granule(t, b) == 1
    ensures Freeable(t, b, 1) && CoverEnd(t, b, 1) == b + 1
  {
    hide BlockAt, Granule;
  }

  lemma SlotGone(t: Tree, marked: Tree, dropped: Tree, u: Tree, b: nat, ino: nat)
    requires SameBlocks(t, marked) && SameUnits(t, marked) && SlotSet(t, marked, ino, false)
    requires RangeBecomes(marked, dropped, b, 1, Full) && SameSlots(marked, dropped) && SameUnits(marked, dropped)
    requires BlockAt(t, b) == Slots && Freed(dropped, u, b, 1)
    ensures RangeBecomes(t, u, b, 1, Free) && SlotSet(t, u, ino, false) && SameUnits(t, u) && u.length == dropped.length
  {
    hide BlockAt, SlotUsed, Granule;
  }
}
