/** What each change of the refinement tree does to the invariant, to the blocks, and to the inode slots. */
module AllocOps {
  import opened Wrappers
  import opened AllocTree

  /** Blocks lo..lo+n take the state s, all others keep theirs. */
  ghost predicate RangeBecomes(t: Tree, u: Tree, lo: nat, n: nat, s: Block) {
    forall b: nat :: BlockAt(u, b) == if lo <= b < lo + n then s else BlockAt(t, b)
  }

  ghost predicate SameBlocks(t: Tree, u: Tree) {
    forall b: nat :: BlockAt(u, b) == BlockAt(t, b)
  }

  ghost predicate SameSlots(t: Tree, u: Tree) {
    forall s: nat :: SlotUsed(u, s) == SlotUsed(t, s)
  }

  // --- marking children of one record ---------------------------------------------------------

  function MarkKids(rec: Rec, start: nat, n: nat, st: State): (r: Rec)
    requires rec.Ok() && start + n <= FANOUT && st != RSVD
    ensures r.Ok() && r.refs == rec.refs
    ensures forall i :: 0 <= i < FANOUT ==> r.states[i] == if start <= i < start + n then st else rec.states[i]
  {
    Rec(seq(FANOUT, i requires 0 <= i < FANOUT => if start <= i < start + n then st else rec.states[i]), rec.refs)
  }

  /** The blocks under a record's children start..start+n. */
  function FirstBlock(p: Place, start: nat): nat {
    match p
    case L0(c) => c * CELL + start * FANOUT
    case L1(c, i) => c * CELL + i * FANOUT + start
    case L3(c, i, j) => c * CELL + i * FANOUT + j
  }

  function KidBlocks(p: Place): nat {
    match p
    case L0(c) => FANOUT
    case L1(c, i) => 1
    case L3(c, i, j) => 0
  }

  /** The blocks under n children of a place. */
  function Span(p: Place, n: nat): nat {
    match p
    case L0(c) => n * FANOUT
    case L1(c, i) => n
    case L3(c, i, j) => 0
  }

  ghost predicate PlainKids(rec: Rec, start: nat, n: nat) {
    && rec.Ok() && start + n <= FANOUT
    && forall i :: start <= i < start + n ==> rec.states[i] != REFINED
  }

  lemma PlaceInRange(t: Tree, owner: map<Ref, Place>, r: Ref)
    requires Owned(t, owner) && Shaped(t, owner) && r in t.recs
    ensures match owner[r]
      case L0(c) => c < |t.states| && t.states[c] == REFINED && At(t, L0(c)) == Some(r)
      case L1(c, i) => c < |t.states| && t.states[c] == REFINED && i < FANOUT && KidState(t, L0(c), i) == REFINED
      case L3(c, i, j) => c < |t.states| && t.states[c] == REFINED && i < FANOUT && j < FANOUT
                          && KidState(t, L0(c), i) == REFINED && KidState(t, L1(c, i), j) == REFINED
  {
    assert At(t, owner[r]) == Some(r);
    match owner[r]
    case L0(c) =>
    case L1(c, i) => assert At(t, L0(c)).value in t.recs;
    case L3(c, i, j) => assert At(t, L0(c)).value in t.recs && At(t, L1(c, i)).value in t.recs;
  }

  /** A block's coordinates, and the ranges that cells and children cover. */
  lemma Coordinates(b: nat)
    ensures var c, i, j := b / CELL, b % CELL / FANOUT, b % FANOUT;
      i < FANOUT && j < FANOUT && b == c * CELL + i * FANOUT + j
  {
    var q, m := b / CELL, b % CELL;
    var k := CELL / FANOUT * q + m / FANOUT;
    assert b == FANOUT * k + m % FANOUT;
    Remainder(k, m % FANOUT);
  }

  lemma Remainder(k: nat, m: nat)
    requires m < FANOUT
    ensures (FANOUT * k + m) % FANOUT == m
  {
  }

  /** A block lies under children start..start+n of a place exactly when its coordinates say so. */
  lemma UnderPlace(b: nat, p: Place, start: nat, n: nat)
    requires start + n <= FANOUT && (p.L0? || (p.L1? && p.i < FANOUT))
    ensures var c, i, j := b / CELL, b % CELL / FANOUT, b % FANOUT;
      FirstBlock(p, start) <= b < FirstBlock(p, start) + Span(p, n)
      <==> (if p.L0? then c == p.c && start <= i < start + n else c == p.c && i == p.i && start <= j < start + n)
  {
    Coordinates(b);
    UnderCoordinates(b / CELL, b % CELL / FANOUT, b % FANOUT, p, start, n);
  }

  lemma UnderCoordinates(c: nat, i: nat, j: nat, p: Place, start: nat, n: nat)
    requires start + n <= FANOUT && (p.L0? || (p.L1? && p.i < FANOUT)) && i < FANOUT && j < FANOUT
    ensures FirstBlock(p, start) <= c * CELL + i * FANOUT + j < FirstBlock(p, start) + Span(p, n)
      <==> (if p.L0? then c == p.c && start <= i < start + n else c == p.c && i == p.i && start <= j < start + n)
  {
  }

  /** Marking plain children of a record changes exactly the blocks under them. */
  lemma MarkKidsBlocks(t: Tree, owner: map<Ref, Place>, r: Ref, start: nat, n: nat, st: State)
    requires Owned(t, owner) && Shaped(t, owner) && r in t.recs && PlainKids(t.recs[r], start, n)
    requires !owner[r].L3? && (st == FREE || st == FULL)
    ensures var u := WithRec(t, r, MarkKids(t.recs[r], start, n, st));
      RangeBecomes(t, u, FirstBlock(owner[r], start), Span(owner[r], n), OfState(st))
  {
    hide At, BlockIn, WithRec, KidState;
    PlaceInRange(t, owner, r);
    forall b: nat
      ensures BlockAt(WithRec(t, r, MarkKids(t.recs[r], start, n, st)), b)
        == if FirstBlock(owner[r], start) <= b < FirstBlock(owner[r], start) + Span(owner[r], n) then OfState(st)
           else BlockAt(t, b)
    {
      Coordinates(b);
      UnderPlace(b, owner[r], start, n);
      MarkKidsBlock(t, owner, r, start, n, st, b / CELL, b % CELL / FANOUT, b % FANOUT);
    }
  }

  lemma MarkKidsBlock(t: Tree, owner: map<Ref, Place>, r: Ref, start: nat, n: nat, st: State, c: nat, i: nat, j: nat)
    requires Owned(t, owner) && Shaped(t, owner) && r in t.recs && PlainKids(t.recs[r], start, n)
    requires !owner[r].L3? && (st == FREE || st == FULL) && i < FANOUT && j < FANOUT
    ensures var u, p := WithRec(t, r, MarkKids(t.recs[r], start, n, st)), owner[r];
      BlockIn(u, c, i, j) ==
      if (if p.L0? then c == p.c && start <= i < start + n else c == p.c && i == p.i && start <= j < start + n)
      then OfState(st) else BlockIn(t, c, i, j)
  {
    hide At, KidState;
    var rec := MarkKids(t.recs[r], start, n, st);
    WithRecFacts(t, owner, r, rec);
    PlaceInRange(t, owner, r);
    OwnKid(t, owner, r, i);
    OwnKid(t, owner, r, j);
  }

  lemma OwnKid(t: Tree, owner: map<Ref, Place>, r: Ref, i: nat)
    requires Owned(t, owner) && r in t.recs && t.recs[r].Ok() && i < FANOUT
    ensures KidState(t, owner[r], i) == t.recs[r].states[i]
  {
  }

  lemma MarkKidsTidy(t: Tree, owner: map<Ref, Place>, except: set<Ref>, r: Ref, start: nat, n: nat, st: State)
    requires Tidy(t, owner, except) && r in t.recs && PlainKids(t.recs[r], start, n)
    requires st == FREE || st == FULL
    ensures var rec := MarkKids(t.recs[r], start, n, st);
      Tidy(WithRec(t, r, rec), owner, if rec.All(FREE) then except + {r} else except - {r})
  {
    WithRecTidy(t, owner, except, r, MarkKids(t.recs[r], start, n, st));
  }

  lemma MarkKidsSlots(t: Tree, owner: map<Ref, Place>, r: Ref, rec: Rec)
    requires Owned(t, owner) && r in t.recs && SameLinks(t.recs[r], rec) && !owner[r].L3?
    ensures SameSlots(t, WithRec(t, r, rec))
  {
    hide At;
    WithRecFacts(t, owner, r, rec);
  }

  // --- refining --------------------------------------------------------------------------------

  /** A fresh record in a reserved cell. */
  ghost predicate FreshRef(t: Tree, r: Ref) {
    && r !in t.recs && r.idx < RECS_PER_BLOCK
    && r.block / CELL < |t.states| && t.states[r.block / CELL] == RSVD
  }

  lemma RefineCellTidy(t: Tree, owner: map<Ref, Place>, except: set<Ref>, c: nat, r: Ref)
    requires Tidy(t, owner, except) && c < |t.states| && t.states[c] == FREE && FreshRef(t, r)
    ensures var u, o := RefineCell(t, c, r), owner[r := L0(c)];
      && Tidy(u, o, except + {r}) && SameBlocks(t, u) && SameSlots(t, u)
  {
    hide At;
    RefineCellFacts(t, owner, c, r);
    var u := RefineCell(t, c, r);
    RefineCellSame(t, owner, c, r);
  }

  lemma RefineCellSame(t: Tree, owner: map<Ref, Place>, c: nat, r: Ref)
    requires Owned(t, owner) && Shaped(t, owner) && c < |t.states| && t.states[c] == FREE && r !in t.recs
    ensures SameBlocks(t, RefineCell(t, c, r)) && SameSlots(t, RefineCell(t, c, r))
  {
    hide At;
    RefineCellFacts(t, owner, c, r);
  }

  lemma RefineKidTidy(t: Tree, owner: map<Ref, Place>, except: set<Ref>, parent: Ref, i: nat, r: Ref, rec: Rec)
    requires Tidy(t, owner, except) && parent in t.recs && !owner[parent].L3? && i < FANOUT
    requires t.recs[parent].states[i] != REFINED && FreshRef(t, r) && rec.Ok() && rec.NoRefined()
    ensures var u, o := RefineKid(t, parent, i, r, rec), owner[r := Below(owner[parent], i)];
      Tidy(u, o, if rec.All(FREE) then except - {parent} + {r} else except - {parent})
  {
    hide At;
    RefineKidFacts(t, owner, parent, i, r, rec);
    var u := RefineKid(t, parent, i, r, rec);
    assert u.recs[parent].states[i] == REFINED;
  }

  /** Refining a FREE L1 cell changes no block; refining a FULL block makes it a slot block. */
  lemma RefineKidBlocks(t: Tree, owner: map<Ref, Place>, parent: Ref, i: nat, r: Ref, rec: Rec)
    requires Owned(t, owner) && Shaped(t, owner) && parent in t.recs && i < FANOUT && r !in t.recs
    requires rec.Ok() && rec.NoRefined()
    requires (owner[parent].L0? && t.recs[parent].states[i] == FREE && rec.All(FREE))
             || (owner[parent].L1? && t.recs[parent].states[i] == FULL)
    ensures var u := RefineKid(t, parent, i, r, rec);
      if owner[parent].L0? then SameBlocks(t, u) else RangeBecomes(t, u, FirstBlock(owner[parent], i), 1, Slots)
  {
    hide At, BlockIn, RefineKid, KidState;
    PlaceInRange(t, owner, parent);
    forall b: nat
      ensures BlockAt(RefineKid(t, parent, i, r, rec), b)
        == if owner[parent].L1? && b == FirstBlock(owner[parent], i) then Slots else BlockAt(t, b)
    {
      Coordinates(b);
      UnderPlace(b, owner[parent], i, 1);
      RefineKidBlock(t, owner, parent, i, r, rec, b / CELL, b % CELL / FANOUT, b % FANOUT);
    }
  }

  lemma RefineKidBlock(t: Tree, owner: map<Ref, Place>, parent: Ref, i: nat, r: Ref, rec: Rec, c: nat, x: nat, j: nat)
    requires Owned(t, owner) && Shaped(t, owner) && parent in t.recs && i < FANOUT && r !in t.recs
    requires rec.Ok() && rec.NoRefined() && x < FANOUT && j < FANOUT
    requires (owner[parent].L0? && t.recs[parent].states[i] == FREE && rec.All(FREE))
             || (owner[parent].L1? && t.recs[parent].states[i] == FULL)
    ensures var u, p := RefineKid(t, parent, i, r, rec), owner[parent];
      BlockIn(u, c, x, j) == if p.L1? && c == p.c && x == p.i && j == i then Slots else BlockIn(t, c, x, j)
  {
    hide At, KidState;
    RefineKidFacts(t, owner, parent, i, r, rec);
    PlaceInRange(t, owner, parent);
    OwnKid(t, owner, parent, i);
  }

  // --- coarsening ---------------------------------------------------------------------------------

  lemma DropKidTidy(t: Tree, owner: map<Ref, Place>, except: set<Ref>, parent: Ref, i: nat, r: Ref, st: State)
    requires Tidy(t, owner, except) && parent in t.recs && !owner[parent].L3? && i < FANOUT
    requires At(t, Below(owner[parent], i)) == Some(r) && r in t.recs && t.recs[r].NoRefined()
    requires st == FREE || st == FULL
    ensures var u := DropKid(t, parent, i, r, st);
      && parent in u.recs
      && Tidy(u, owner - {r}, if u.recs[parent].All(FREE) then except - {r} + {parent} else except - {r} - {parent})
  {
    hide At;
    DropKidFacts(t, owner, parent, i, r, st);
  }

  /** Dropping an empty L1 record changes no block; dropping a slot record returns its block to FULL. */
  lemma DropKidBlocks(t: Tree, owner: map<Ref, Place>, parent: Ref, i: nat, r: Ref, st: State)
    requires Owned(t, owner) && Shaped(t, owner) && parent in t.recs && !owner[parent].L3? && i < FANOUT
    requires At(t, Below(owner[parent], i)) == Some(r) && r in t.recs && t.recs[r].All(FREE)
    requires st == if owner[parent].L0? then FREE else FULL
    ensures var u := DropKid(t, parent, i, r, st);
      if owner[parent].L0? then SameBlocks(t, u) else RangeBecomes(t, u, FirstBlock(owner[parent], i), 1, Full)
  {
    hide At, BlockIn, DropKid, KidState;
    PlaceInRange(t, owner, parent);
    forall b: nat
      ensures BlockAt(DropKid(t, parent, i, r, st), b)
        == if owner[parent].L1? && b == FirstBlock(owner[parent], i) then Full else BlockAt(t, b)
    {
      Coordinates(b);
      UnderPlace(b, owner[parent], i, 1);
      DropKidBlock(t, owner, parent, i, r, st, b / CELL, b % CELL / FANOUT, b % FANOUT);
    }
  }

  lemma DropKidBlock(t: Tree, owner: map<Ref, Place>, parent: Ref, i: nat, r: Ref, st: State, c: nat, x: nat, j: nat)
    requires Owned(t, owner) && Shaped(t, owner) && parent in t.recs && !owner[parent].L3? && i < FANOUT
    requires At(t, Below(owner[parent], i)) == Some(r) && r in t.recs && t.recs[r].All(FREE)
    requires st == (if owner[parent].L0? then FREE else FULL) && x < FANOUT && j < FANOUT
    ensures var u, p := DropKid(t, parent, i, r, st), owner[parent];
      BlockIn(u, c, x, j) == if p.L1? && c == p.c && x == p.i && j == i then Full else BlockIn(t, c, x, j)
  {
    hide At, KidState;
    assert owner[r] == Below(owner[parent], i);
    DropKidFacts(t, owner, parent, i, r, st);
    PlaceInRange(t, owner, parent);
    PlaceInRange(t, owner, r);
    OwnKid(t, owner, parent, i);
    OwnKid(t, owner, r, j);
  }

  lemma DropCellTidy(t: Tree, owner: map<Ref, Place>, except: set<Ref>, c: nat, r: Ref)
    requires Tidy(t, owner, except) && c < |t.states| && At(t, L0(c)) == Some(r)
    requires r in t.recs && t.recs[r].All(FREE)
    ensures var u := DropCell(t, c, r, FREE);
      Tidy(u, owner - {r}, except - {r}) && SameBlocks(t, u)
  {
    hide At, BlockAt;
    assert owner[r] == L0(c);
    PlaceInRange(t, owner, r);
    DropCellFacts(t, owner, c, r, FREE);
    DropCellBlocks(t, owner, c, r);
  }

  lemma DropCellBlocks(t: Tree, owner: map<Ref, Place>, c: nat, r: Ref)
    requires Owned(t, owner) && Shaped(t, owner) && c < |t.states| && At(t, L0(c)) == Some(r)
    requires r in t.recs && t.recs[r].All(FREE)
    ensures SameBlocks(t, DropCell(t, c, r, FREE))
  {
    hide At, KidState;
    DropCellFacts(t, owner, c, r, FREE);
    var u := DropCell(t, c, r, FREE);
    assert owner[r] == L0(c);
    PlaceInRange(t, owner, r);
    forall b: nat ensures BlockAt(u, b) == BlockAt(t, b) {
      Coordinates(b);
      OwnKid(t, owner, r, b % CELL / FANOUT);
    }
  }

  // --- plain cells -----------------------------------------------------------------------------------

  lemma MarkCellTidy(t: Tree, owner: map<Ref, Place>, except: set<Ref>, c: nat, st: State)
    requires Tidy(t, owner, except) && c < |t.states|
    requires (t.states[c] == FREE && st in {RSVD, FULL}) || (t.states[c] == FULL && st == FREE)
    ensures var u := MarkCell(t, c, st);
      && Tidy(u, owner, except) && SameSlots(t, u)
      && RangeBecomes(t, u, c * CELL, CELL, OfState(st))
  {
    hide At;
    MarkCellFacts(t, owner, c, st);
    var u := MarkCell(t, c, st);
    forall b: nat
      ensures BlockAt(u, b) == if c * CELL <= b < c * CELL + CELL then OfState(st) else BlockAt(t, b)
    {
      assert c * CELL <= b < c * CELL + CELL <==> b / CELL == c;
    }
  }
}
