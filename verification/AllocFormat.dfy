/** The allocator state a new group starts with, and why it is in order. */
module AllocFormat {
  import opened Wrappers
  import opened Geometry
  import opened AllocTree
  import opened AllocOps
  import opened AllocCount
  import opened AllocSpec
  import opened SlotSpec
  import opened Intervals

  const MIN_LENGTH := 1024

  function DivUp(a: nat, b: nat): nat
    requires b > 0
  {
    (a + b - 1) / b
  }

  /** Blocks of the root table: two bits and a six-byte reference a cell. */
  function RtBlocks(length: nat): nat {
    var cells := Cells(length);
    DivUp(DivUp(cells, 4) + cells * 6, BLOCKSIZE)
  }

  /** Cells head..hi are FREE, all others reserved, nothing is refined. */
  ghost predicate Plain(t: Tree, head: nat, hi: nat) {
    && |t.states| == |t.refs| == Cells(t.length) && t.recs == map[]
    && head <= hi <= |t.states| && hi * CELL <= t.length
    && forall c :: 0 <= c < |t.states| ==> t.states[c] == if head <= c < hi then FREE else RSVD
  }

  lemma PlainTidy(t: Tree, head: nat, hi: nat)
    requires Plain(t, head, hi)
    ensures Tidy(t, map[], {})
    ensures Count(t, KFree) == (hi - head) * CELL && Count(t, KFull) == 0
    ensures Count(t, KRsvd) == t.length - (hi - head) * CELL
    ensures forall s: nat :: !SlotUsed(t, s)
    ensures forall b: nat :: BlockAt(t, b) == if head * CELL <= b < hi * CELL then Free else Reserved
  {
    forall b: nat ensures BlockAt(t, b) == if head * CELL <= b < hi * CELL then Free else Reserved {
      assert head * CELL <= b < hi * CELL <==> head <= b / CELL < hi;
    }
    PlainCounts(t, head, hi);
  }

  lemma PlainCounts(t: Tree, head: nat, hi: nat)
    requires head <= hi && hi * CELL <= t.length
    requires forall b: nat :: BlockAt(t, b) == if head * CELL <= b < hi * CELL then Free else Reserved
    ensures Count(t, KFree) == (hi - head) * CELL && Count(t, KFull) == 0
    ensures Count(t, KRsvd) == t.length - (hi - head) * CELL
  {
    hide BlockAt;
    assert KindBelow(t, KFree, t.length) == Interval(head * CELL, (hi - head) * CELL);
    assert KindBelow(t, KFull, t.length) == {};
    CountsSum(t);
  }

  /** The table and header of a group of this length leave cells over. */
  lemma HeadFits(length: nat)
    requires length >= MIN_LENGTH
    ensures 1 <= Cells(1 + RtBlocks(length)) < Cells(length)
    ensures length % CELL != 0 ==> (Cells(length) - 1) * CELL <= length
    ensures length % CELL == 0 ==> Cells(length) * CELL == length
  {
    var cells := Cells(length);
    assert DivUp(cells, 4) <= cells;
    TableSize(cells);
    LengthInCells(length);
  }

  lemma TableSize(cells: nat)
    requires cells >= 4
    ensures Cells(1 + DivUp(DivUp(cells, 4) + cells * 6, BLOCKSIZE)) < cells
    ensures 1 <= Cells(1 + DivUp(DivUp(cells, 4) + cells * 6, BLOCKSIZE))
  {
    var bytes := DivUp(cells, 4) + cells * 6;
    assert bytes <= 7 * cells;
    var blocks := DivUp(bytes, BLOCKSIZE);
    assert blocks <= bytes / BLOCKSIZE + 1 <= 7 * cells / BLOCKSIZE + 1;
    assert 7 * cells / BLOCKSIZE <= cells / 585;
    assert Cells(1 + blocks) <= (1 + blocks) / CELL + 1;
  }

  lemma LengthInCells(length: nat)
    requires length >= MIN_LENGTH
    ensures Cells(length) >= 4
    ensures length % CELL != 0 ==> (Cells(length) - 1) * CELL <= length
    ensures length % CELL == 0 ==> Cells(length) * CELL == length
  {
  }

  // --- the first group ----------------------------------------------------------------------------

  function Cleared(n: nat): (refs: seq<Ref>)
    ensures |refs| == n && forall c :: 0 <= c < n ==> refs[c] == Ref(0, 0)
  {
    seq(n, _ => Ref(0, 0))
  }

  /** The three records written into the first arena block. */
  function FirstRecords(arena: nat, kernel: bool): map<Ref, Rec> {
    map[Ref(arena, 0) := Rec(ZeroRec().states[0 := REFINED], ZeroRec().refs[0 := Ref(arena, 1)]),
        Ref(arena, 1) := Rec(ZeroRec().states[0 := REFINED], ZeroRec().refs[0 := Ref(arena, 2)]),
        Ref(arena, 2) := MarkKids(ZeroRec(), 0, if kernel then 2 else 1, FULL)]
  }

  /** The plain tree with cell c refined down to one slot block, records in the arena cell before it. */
  function FirstTree(base: Tree, c: nat, arena: nat, kernel: bool): Tree
    requires c < |base.states| == |base.refs|
  {
    Tree(base.length, base.states[c := REFINED], base.refs[c := Ref(arena, 0)], FirstRecords(arena, kernel))
  }

  function FirstOwner(c: nat, arena: nat): map<Ref, Place> {
    map[Ref(arena, 0) := L0(c), Ref(arena, 1) := L1(c, 0), Ref(arena, 2) := L3(c, 0, 0)]
  }

  lemma FirstTreeTidy(base: Tree, head: nat, hi: nat, kernel: bool)
    requires Plain(base, head, hi) && 1 <= head < hi
    ensures var t := FirstTree(base, head, (head - 1) * CELL, kernel);
      && Tidy(t, FirstOwner(head, (head - 1) * CELL), {})
      && Count(t, KFree) == (hi - head) * CELL - 1 && Count(t, KFull) == 1
      && Count(t, KRsvd) == t.length - (hi - head) * CELL
      && BlockAt(t, head * CELL) == Slots
      && forall s: nat :: SlotUsed(t, s) <==> s == head * CELL * FANOUT || (kernel && s == head * CELL * FANOUT + 1)
  {
    hide Tidy, BlockAt, SlotUsed, Count, Granule;
    var arena, b := (head - 1) * CELL, head * CELL;
    var r0, r1, r2 := Ref(arena, 0), Ref(arena, 1), Ref(arena, 2);
    PlainTidy(base, head, hi);
    var t4 := FirstSteps(base, head, r0, r1, r2);
    var o := FirstOwner(head, arena);
    FirstTreeSteps(base, head, arena, t4);
    FirstSlots(base, head, hi, t4);
    var last := MarkKids(t4.recs[r2], 1, 1, FULL);
    if kernel {
      MarkSlot(t4, o, b * FANOUT + 1, r2, FULL);
      assert !last.All(FREE) by { assert last.states[1] == FULL; }
      CountSame3(t4, WithRec(t4, r2, last));
    }
  }

  /** Refine the cell, refine its first child, take its first block, give it slots. */
  function FirstSteps(base: Tree, c: nat, r0: Ref, r1: Ref, r2: Ref): Tree
    requires c < |base.states| == |base.refs| && r0 != r1 && r1 != r2 && r0 != r2
  {
    RefineKid(TakeRun(RefineKid(RefineCell(base, c, r0), r0, 0, r1, ZeroRec()), r1, 0, 1), r1, 0, r2, FirstSlot())
  }

  /** The hand-written records are what those steps produce. */
  lemma FirstTreeSteps(base: Tree, c: nat, arena: nat, t4: Tree)
    requires c < |base.states| == |base.refs| && base.recs == map[]
    requires t4 == FirstSteps(base, c, Ref(arena, 0), Ref(arena, 1), Ref(arena, 2))
    ensures Ref(arena, 2) in t4.recs && t4.recs[Ref(arena, 2)] == FirstSlot()
    ensures FirstTree(base, c, arena, false) == t4
    ensures FirstTree(base, c, arena, true) == WithRec(t4, Ref(arena, 2), MarkKids(FirstSlot(), 1, 1, FULL))
  {
    assert MarkKids(FirstSlot(), 1, 1, FULL) == MarkKids(ZeroRec(), 0, 2, FULL);
    assert MarkKids(ZeroRec(), 0, 1, FULL).states[0 := REFINED] == ZeroRec().states[0 := REFINED];
    assert FirstTree(base, c, arena, false).recs == t4.recs;
    assert FirstTree(base, c, arena, true).recs
        == WithRec(t4, Ref(arena, 2), MarkKids(FirstSlot(), 1, 1, FULL)).recs;
  }

  lemma FirstSlots(base: Tree, head: nat, hi: nat, t4: Tree)
    requires Plain(base, head, hi) && 1 <= head < hi
    requires var arena := (head - 1) * CELL; t4 == FirstSteps(base, head, Ref(arena, 0), Ref(arena, 1), Ref(arena, 2))
    ensures Tidy(t4, FirstOwner(head, (head - 1) * CELL), {}) && t4.length == base.length
    ensures Count(t4, KFree) == (hi - head) * CELL - 1 && Count(t4, KFull) == 1
    ensures Count(t4, KRsvd) == base.length - (hi - head) * CELL
    ensures BlockAt(t4, head * CELL) == Slots && SlotSet(base, t4, head * CELL * FANOUT, true)
  {
    hide Tidy, BlockAt, SlotUsed, Count, Granule, RefineCell, RefineKid, TakeRun, TakenIn, SameUnits, Plain, SlotSet, SameSlots;
    var arena, b := (head - 1) * CELL, head * CELL;
    var r0, r1, r2 := Ref(arena, 0), Ref(arena, 1), Ref(arena, 2);
    PlainTidy(base, head, hi);
    PlainParts(base, head, hi);
    var t2, o2 := FirstRefined(base, head, hi);
    BlockNumbers(head);
    var t3 := TakeRun(t2, r1, 0, 1);
    FirstBlockTaken(t2, o2, head, r1);
    FreshStill(t2, t3, r2);
    NewSlots(t3, o2, b, r1, r2);
    assert o2[r2 := L3(head, 0, 0)] == FirstOwner(head, arena);
    SlotsFrom(base, t2, t3, t4, b);
    forall k ensures Count(t4, k) == Count(t3, k) {
      CountShift(t3, t4, b, 1, Full, Slots, k);
    }
  }

  lemma BlockNumbers(head: nat)
    ensures var b := head * CELL; b / CELL == head && b % CELL / FANOUT == 0 && b % FANOUT == 0
  {
  }

  lemma SlotsFrom(base: Tree, t2: Tree, t3: Tree, t4: Tree, b: nat)
    requires SameSlots(base, t2) && SameSlots(t2, t3) && SlotSet(t3, t4, b * FANOUT, true)
    ensures SlotSet(base, t4, b * FANOUT, true)
  {
    hide SlotUsed;
  }

  lemma FirstBlockTaken(t: Tree, o: map<Ref, Place>, head: nat, r: Ref)
    requires Tidy(t, o, {r}) && r in t.recs && t.recs[r] == ZeroRec() && r in o && o[r] == L1(head, 0)
    ensures var u, b := TakeRun(t, r, 0, 1), head * CELL;
      && Tidy(u, o, {}) && CountsTaken(t, u, None, 1) && SameSlots(t, u) && u.length == t.length
      && b < t.length && BlockAt(u, b) == Full
      && r in u.recs && u.recs[r].Ok() && u.recs[r].states[0] == FULL && u.states == t.states && u.recs.Keys == t.recs.Keys
  {
    hide Tidy, BlockAt, SlotUsed, Count, Granule, TakeRun, TakenIn, SameUnits;
    ClaimedNothing(t);
    Take(t, t, o, {r}, r, 0, 1, None);
    FirstTaken(t, r, TakeRun(t, r, 0, 1));
  }

  lemma PlainParts(t: Tree, head: nat, hi: nat)
    requires Plain(t, head, hi)
    ensures |t.states| == |t.refs| && t.recs == map[] && hi <= |t.states|
    ensures forall c :: 0 <= c < |t.states| ==> t.states[c] == if head <= c < hi then FREE else RSVD
  {
  }

  lemma FreshStill(t: Tree, u: Tree, r: Ref)
    requires FreshRef(t, r) && u.states == t.states && u.recs.Keys == t.recs.Keys
    ensures FreshRef(u, r)
  {
  }

  /** The cell and its first child refined: two records, nothing allocated yet. */
  lemma FirstRefined(base: Tree, head: nat, hi: nat) returns (t2: Tree, o2: map<Ref, Place>)
    requires Plain(base, head, hi) && 1 <= head < hi
    ensures var arena := (head - 1) * CELL; var r0, r1, r2 := Ref(arena, 0), Ref(arena, 1), Ref(arena, 2);
      && t2 == RefineKid(RefineCell(base, head, r0), r0, 0, r1, ZeroRec())
      && o2 == map[r0 := L0(head), r1 := L1(head, 0)]
      && Tidy(t2, o2, {r1}) && r1 in t2.recs && t2.recs[r1] == ZeroRec() && FreshRef(t2, r2)
      && t2.length == base.length && SameBlocks(base, t2) && SameSlots(base, t2)
    ensures forall k :: Count(t2, k) == Count(base, k)
  {
    hide Tidy, BlockAt, SlotUsed, Count, Granule, RefineCell, RefineKid, SameUnits, Plain, RefinedTree;
    var arena := (head - 1) * CELL;
    var r0, r1, r2 := Ref(arena, 0), Ref(arena, 1), Ref(arena, 2);
    PlainTidy(base, head, hi);
    PlainParts(base, head, hi);
    var t1 := RefineCell(base, head, r0);
    var o1 := map[r0 := L0(head)];
    assert map[][r0 := L0(head)] == o1;
    RefineCellWhole(base, map[], head, r0, None, t1);
    RefinedFacts(base, map[], t1, r0, L0(head), None);
    t2 := RefineKid(t1, r0, 0, r1, ZeroRec());
    FirstFresh(base, head, r0, t1, r1, r2, t2);
    RefineKidWhole(t1, o1, r0, 0, r1, None, t2);
    RefinedFacts(t1, o1, t2, r1, L1(head, 0), None);
    o2 := o1[r1 := L1(head, 0)];
    CountSame3(base, t2);
  }

  lemma FirstFresh(base: Tree, c: nat, r0: Ref, t1: Tree, r1: Ref, r2: Ref, t2: Tree)
    requires c < |base.states| == |base.refs| && base.recs == map[] && r0 != r1 && r1 != r2 && r0 != r2
    requires t1 == RefineCell(base, c, r0) && t2 == RefineKid(t1, r0, 0, r1, ZeroRec())
    requires r1.idx < RECS_PER_BLOCK && r1.block / CELL < c && base.states[r1.block / CELL] == RSVD
    requires r2.idx < RECS_PER_BLOCK && r2.block == r1.block
    ensures r0 in t1.recs && t1.recs[r0] == ZeroRec() && FreshRef(t1, r1) && FreshRef(t2, r2)
  {
  }

  lemma FirstTaken(t2: Tree, r1: Ref, t3: Tree)
    requires r1 in t2.recs && t2.recs[r1] == ZeroRec() && t3 == TakeRun(t2, r1, 0, 1)
    ensures r1 in t3.recs && t3.recs[r1].Ok() && t3.recs[r1].states[0] == FULL
    ensures t3.states == t2.states && t3.recs.Keys == t2.recs.Keys
  {
  }
}
