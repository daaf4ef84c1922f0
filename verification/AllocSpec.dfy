/** What allocation promises, and how each of its steps moves the tree and the counts towards that. */
module AllocSpec {
  import opened Wrappers
  import opened AllocTree
  import opened AllocOps
  import opened AllocCount

  // --- what an allocation needs, whatever the hints say ----------------------------------

  ghost function FreeCells(t: Tree): set<nat> {
    set c | 0 <= c < |t.states| && t.states[c] == FREE
  }

  /** Record slots the active arena can still hand out. */
  ghost function FreeSlots(t: Tree, arena: nat): set<Ref> {
    if arena == 0 then {}
    else set b, x | arena <= b < arena + CELL && 0 <= x < RECS_PER_BLOCK && Ref(b, x) !in t.recs :: Ref(b, x)
  }

  /** k records can be had: from the arena, or by claiming one of the given number of FREE cells. */
  ghost predicate RecordsFor(t: Tree, arena: nat, k: nat, cells: int) {
    |FreeSlots(t, arena)| >= k || cells >= 1
  }

  ghost predicate RunAt(rec: Rec, s: nat, m: nat) {
    s + m <= |rec.states| && forall i :: s <= i < s + m ==> rec.states[i] == FREE
  }

  ghost predicate HasRun(rec: Rec, m: nat) {
    exists s: nat :: RunAt(rec, s, m)
  }

  ghost predicate CellRunAt(t: Tree, s: nat, k: nat) {
    s + k <= |t.states| && forall c :: s <= c < s + k ==> t.states[c] == FREE
  }

  ghost predicate HasCellRun(t: Tree, k: nat) {
    exists s: nat :: CellRunAt(t, s, k)
  }

  /** The record at a place, if there is one, has a run of m FREE children. */
  ghost predicate RunBelow(t: Tree, p: Place, m: nat) {
    At(t, p).Some? && At(t, p).value in t.recs && HasRun(t.recs[At(t, p).value], m)
  }

  ghost predicate CanAllocate(t: Tree, arena: nat, n: nat) {
    var cells := |FreeCells(t)|;
    if n >= CELL then HasCellRun(t, (n + CELL - 1) / CELL)
    else if n > FANOUT then CanAllocateKids(t, arena, (n + FANOUT - 1) / FANOUT)
    else
      || (exists c: nat, i: nat :: RunBelow(t, L1(c, i), n))
      || (if exists c: nat :: RunBelow(t, L0(c), 1) then RecordsFor(t, arena, 1, cells)
          else cells >= 1 && RecordsFor(t, arena, 2, cells - 1))
  }

  /** The same for m children of one cell. */
  ghost predicate CanAllocateKids(t: Tree, arena: nat, m: nat) {
    var cells := |FreeCells(t)|;
    (exists c: nat :: RunBelow(t, L0(c), m)) || (cells >= 1 && RecordsFor(t, arena, 1, cells - 1))
  }

  /** One more record can be had. */
  ghost predicate RecordLeft(t: Tree, arena: nat) {
    RecordsFor(t, arena, 1, |FreeCells(t)|)
  }

  /** An allocation of n single blocks will leave one more record to be had. */
  ghost predicate OneMore(t: Tree, arena: nat, n: nat) {
    var cells := |FreeCells(t)|;
    if exists c: nat, i: nat :: RunBelow(t, L1(c, i), n) then RecordsFor(t, arena, 1, cells)
    else if exists c: nat :: RunBelow(t, L0(c), 1) then RecordsFor(t, arena, 2, cells)
    else RecordsFor(t, arena, 3, cells - 1)
  }

  /** Blocks handed out for a request of n. */
  function Rounded(n: nat): nat {
    if n >= CELL then (n + CELL - 1) / CELL * CELL
    else if n > FANOUT then (n + FANOUT - 1) / FANOUT * FANOUT
    else n
  }

  lemma RoundedLess(n: nat)
    requires n >= 1
    ensures n <= Rounded(n) <= if n == 1 then 1 else 2 * n
    ensures Rounded(n) > n ==> GranuleFor(n) > 1
    ensures GranuleFor(n) == 1 || GranuleFor(n) == FANOUT || GranuleFor(n) == CELL
  {
  }

  function GranuleFor(n: nat): nat {
    if n >= CELL then CELL else if n > FANOUT then FANOUT else 1
  }

  /** The unit a block was allocated in, as the states tell it. */
  function Granule(t: Tree, b: nat): nat {
    var c, i := b / CELL, b % CELL / FANOUT;
    if c < |t.states| && t.states[c] == REFINED then
      if KidState(t, L0(c), i) == REFINED then 1 else FANOUT
    else CELL
  }

  /** A block that stays allocated keeps its unit. */
  ghost predicate SameUnits(t: Tree, u: Tree) {
    forall b: nat :: BlockAt(t, b) == Full && BlockAt(u, b) == Full ==> Granule(u, b) == Granule(t, b)
  }

  /** Blocks lo..lo+n were free and are full now; apart from one claimed cell nothing else moved. */
  ghost predicate Allocated(t: Tree, u: Tree, lo: nat, n: nat, claimed: Option<nat>) {
    && lo + n <= t.length
    && (forall b: nat :: lo <= b < lo + n ==> BlockAt(t, b) == Free)
    && (claimed.Some? ==> claimed.value < |t.states| && t.states[claimed.value] == FREE)
    && (forall b: nat :: claimed == Some(b / CELL) ==> BlockAt(t, b) == Free && !(lo <= b < lo + n))
    && (forall b: nat :: BlockAt(u, b) ==
          if lo <= b < lo + n then Full else if claimed == Some(b / CELL) then Reserved else BlockAt(t, b))
    && SameSlots(t, u) && SameUnits(t, u)
  }

  // --- scanning ------------------------------------------------------------------------------

  /** The k-th index of a scan over 0..len that starts at start and wraps around. */
  function WrapAt(start: nat, len: nat, k: nat): (c: nat)
    requires k < len
    ensures c < len
  {
    var s := start % len;
    if s + k < len then s + k else s + k - len
  }

  /** A wrapping scan reaches every index. */
  lemma WrapCovers(start: nat, len: nat, c: nat) returns (k: nat)
    requires c < len
    ensures k < len && WrapAt(start, len, k) == c
  {
    var s := start % len;
    k := if c >= s then c - s else c + len - s;
  }

  // --- steps ------------------------------------------------------------------------------------

  /** u is t with an empty record r added, in a cell that was reserved or has just been claimed. */
  ghost predicate Claim(t: Tree, u: Tree, r: Ref, claimed: Option<nat>, arena: nat) {
    && (claimed.Some? ==> claimed.value < |t.states| && t.states[claimed.value] == FREE)
    && var base := if claimed.Some? then MarkCell(t, claimed.value, RSVD) else t;
    && FreshRef(base, r)
    && u == base.(recs := base.recs[r := ZeroRec()])
    && (claimed.Some? ==> Ref(arena, 1) in FreeSlots(u, arena) && Ref(arena, 2) in FreeSlots(u, arena))
  }

  lemma HousedStill(t: Tree, mid: Tree, c: nat, arena: nat)
    requires Housed(t) && c < |t.states| && t.states[c] == FREE && mid == t.(states := t.states[c := REFINED])
    ensures Housed(mid) && FreeSlots(mid, arena) == FreeSlots(t, arena)
    ensures FreeSlots(t, arena) != {} <==> |FreeSlots(t, arena)| >= 1
  {
  }

  lemma ClaimSizes(t: Tree, after: Tree, r: Ref, claimed: Option<nat>, arena: nat)
    requires Claim(t, after, r, claimed, arena)
    ensures after.refs == t.refs && |after.states| == |t.states| && after.length == t.length
  {
  }

  /** Flipping the state of cell c, claiming a record and storing its reference refines the cell. */
  lemma AfterFlip(t: Tree, after: Tree, u: Tree, c: nat, r: Ref, claimed: Option<nat>, arena: nat)
    requires c < |t.states| == |t.refs| && t.states[c] == FREE
    requires Claim(t.(states := t.states[c := REFINED]), after, r, claimed, arena)
    requires |after.refs| == |t.refs| ==> u == after.(refs := after.refs[c := r])
    ensures claimed != Some(c) && (claimed.Some? ==> claimed.value < |t.states| && t.states[claimed.value] == FREE)
    ensures FreshRef(ClaimedBase(t, claimed), r) && u == RefineCell(ClaimedBase(t, claimed), c, r)
    ensures u.recs.Keys == t.recs.Keys + {r}
    ensures claimed.Some? ==> arena != 0 && Ref(arena, 1) !in u.recs && Ref(arena, 2) !in u.recs
  {
    assert u.states == RefineCell(ClaimedBase(t, claimed), c, r).states;
  }

  lemma ClaimKeeps(t: Tree, after: Tree, l0: Ref, r: Ref, claimed: Option<nat>, arena: nat)
    requires l0 in t.recs && Claim(t, after, r, claimed, arena)
    ensures l0 in after.recs && after.recs[l0] == t.recs[l0] && l0 != r
  {
  }

  lemma AfterClaim(t: Tree, after: Tree, u: Tree, l0: Ref, i: nat, r: Ref, claimed: Option<nat>, arena: nat)
    requires l0 in t.recs && t.recs[l0].Ok() && i < FANOUT && Claim(t, after, r, claimed, arena)
    requires u == WithRec(after, l0, Rec(t.recs[l0].states[i := REFINED], t.recs[l0].refs[i := r]))
    ensures claimed.Some? ==> claimed.value < |t.states| && t.states[claimed.value] == FREE
    ensures FreshRef(ClaimedBase(t, claimed), r) && u == RefineKid(ClaimedBase(t, claimed), l0, i, r, ZeroRec())
    ensures u.recs.Keys == t.recs.Keys + {r}
    ensures claimed.Some? ==> arena != 0 && Ref(arena, 1) !in u.recs && Ref(arena, 2) !in u.recs
  {
  }

  lemma CellsCounted(t: Tree)
    ensures FreeCells(t) != {} <==> |FreeCells(t)| >= 1
  {
  }

  lemma NoFreeSlots(t: Tree, arena: nat)
    requires forall b: nat, x: nat :: arena <= b < arena + CELL && x < RECS_PER_BLOCK ==> Ref(b, x) in t.recs
    ensures FreeSlots(t, arena) == {}
  {
  }

  /** No record lies in a cell that is not reserved. */
  lemma NoRecordsIn(t: Tree, c: nat)
    requires Housed(t) && c < |t.states| && t.states[c] != RSVD
    ensures forall b: nat, x: nat :: c * CELL <= b < c * CELL + CELL ==> Ref(b, x) !in t.recs
  {
    forall b: nat, x: nat | c * CELL <= b < c * CELL + CELL ensures Ref(b, x) !in t.recs {
      assert b / CELL == c;
    }
  }

  /** u refines the place p of t with the empty record r; only a claimed cell changed otherwise. */
  ghost predicate RefinedTree(t: Tree, o: map<Ref, Place>, u: Tree, r: Ref, p: Place, claimed: Option<nat>) {
    && Tidy(u, o[r := p], {r})
    && r !in t.recs && r in u.recs && u.recs[r] == ZeroRec() && At(u, p) == Some(r)
    && u.length == t.length && |u.states| == |t.states|
    && Claimed(t, u, claimed)
    && (forall q: Ref :: q in t.recs ==> q in u.recs)
  }

  /** Where r came from, and what the arena can still give. */
  ghost predicate HousedFrom(t: Tree, u: Tree, wasArena: nat, r: Ref, claimed: Option<nat>, arena: nat) {
    match claimed
    case None => arena == wasArena && r in FreeSlots(t, arena) && FreeSlots(u, arena) == FreeSlots(t, arena) - {r}
    case Some(a) => |FreeSlots(u, arena)| >= 2
  }

  /** How a claim moves the counters. */
  ghost predicate CountsMoved(t: Tree, u: Tree, claimed: Option<nat>) {
    && Count(u, KFull) == Count(t, KFull)
    && Count(u, KFree) == Count(t, KFree) - (if claimed.Some? then CELL else 0)
    && Count(u, KRsvd) == Count(t, KRsvd) + (if claimed.Some? then CELL else 0)
  }

  lemma ValidFacts(t: Tree, owner: map<Ref, Place>, except: set<Ref>)
    requires Tidy(t, owner, except)
    ensures Housed(t) && |t.states| == |t.refs| == Cells(t.length) && owner.Keys == t.recs.Keys
    ensures forall c :: 0 <= c < |t.states| && t.states[c] != RSVD ==> (c + 1) * CELL <= t.length
    ensures forall r :: r in t.recs ==> t.recs[r].Ok()
  {
  }

  lemma TidyParts(t: Tree, owner: map<Ref, Place>, except: set<Ref>)
    requires Tidy(t, owner, except)
    ensures Owned(t, owner) && Shaped(t, owner)
  {
  }

  lemma RefineCellWhole(t: Tree, owner: map<Ref, Place>, c: nat, r: Ref, claimed: Option<nat>, u: Tree)
    requires Tidy(t, owner, {}) && c < |t.states| && t.states[c] == FREE && claimed != Some(c)
    requires claimed.Some? ==> claimed.value < |t.states| && t.states[claimed.value] == FREE
    requires FreshRef(ClaimedBase(t, claimed), r) && u == RefineCell(ClaimedBase(t, claimed), c, r)
    ensures RefinedTree(t, owner, u, r, L0(c), claimed) && CountsMoved(t, u, claimed)
  {
    hide Tidy, Count, BlockAt, SlotUsed, FreshRef, RefineCell, At, Granule;
    var base := ClaimedBase(t, claimed);
    ClaimTidyBut(t, owner, {}, claimed);
    ValidFacts(t, owner, {});
    RefineCellTidy(base, owner, {}, c, r);
    assert {} + {r} == {r};
    RefineCellParts(base, owner, c, r);
    RefineCellUnits(base, owner, c, r);
    CountSame3(base, u);
  }

  lemma RefineCellParts(t: Tree, owner: map<Ref, Place>, c: nat, r: Ref)
    requires Tidy(t, owner, {}) && c < |t.states| && t.states[c] == FREE && FreshRef(t, r)
    ensures var u := RefineCell(t, c, r);
      && r !in t.recs && r in u.recs && u.recs[r] == ZeroRec() && At(u, L0(c)) == Some(r)
      && u.length == t.length && |u.states| == |t.states| && u.recs == t.recs[r := ZeroRec()]
  {
    RefineCellFacts(t, owner, c, r);
  }

  lemma RefineCellUnits(t: Tree, owner: map<Ref, Place>, c: nat, r: Ref)
    requires Tidy(t, owner, {}) && c < |t.states| && t.states[c] == FREE && FreshRef(t, r)
    ensures SameUnits(t, RefineCell(t, c, r))
  {
    hide At;
    RefineCellFacts(t, owner, c, r);
  }

  lemma RefineKidUnits(t: Tree, owner: map<Ref, Place>, l0: Ref, i: nat, r: Ref)
    requires Tidy(t, owner, {l0}) && l0 in t.recs && owner[l0].L0? && i < FANOUT
    requires t.recs[l0].Ok() && t.recs[l0].states[i] == FREE && FreshRef(t, r)
    ensures SameUnits(t, RefineKid(t, l0, i, r, ZeroRec()))
  {
    hide At;
    RefineKidFacts(t, owner, l0, i, r, ZeroRec());
    OwnKid(t, owner, l0, i);
  }

  lemma MarkCellUnits(t: Tree, owner: map<Ref, Place>, c: nat, st: State)
    requires Owned(t, owner) && c < |t.states| && t.states[c] != REFINED && st != REFINED
    ensures forall b: nat :: Granule(MarkCell(t, c, st), b) == Granule(t, b)
  {
    hide At, KidState;
    MarkCellFacts(t, owner, c, st);
  }

  lemma RefineKidWhole(t: Tree, owner: map<Ref, Place>, l0: Ref, i: nat, r: Ref, claimed: Option<nat>, u: Tree)
    requires Tidy(t, owner, {l0}) && l0 in t.recs && owner[l0].L0? && i < FANOUT
    requires t.recs[l0].Ok() && t.recs[l0].states[i] == FREE
    requires claimed.Some? ==> claimed.value < |t.states| && t.states[claimed.value] == FREE
    requires FreshRef(ClaimedBase(t, claimed), r) && u == RefineKid(ClaimedBase(t, claimed), l0, i, r, ZeroRec())
    ensures RefinedTree(t, owner, u, r, L1(owner[l0].c, i), claimed) && CountsMoved(t, u, claimed)
  {
    hide Tidy, Count, BlockAt, SlotUsed, FreshRef, RefineKid, At, Granule;
    var base := ClaimedBase(t, claimed);
    ClaimTidyBut(t, owner, {l0}, claimed);
    ValidFacts(t, owner, {l0});
    RefineKidTidy(base, owner, {l0}, l0, i, r, ZeroRec());
    RefineKidParts(base, owner, l0, i, r);
    RefineKidUnits(base, owner, l0, i, r);
    CountSame3(base, u);
  }

  lemma RefineKidParts(t: Tree, owner: map<Ref, Place>, l0: Ref, i: nat, r: Ref)
    requires Tidy(t, owner, {l0}) && l0 in t.recs && owner[l0].L0? && i < FANOUT
    requires t.recs[l0].Ok() && t.recs[l0].states[i] == FREE && FreshRef(t, r)
    ensures var u := RefineKid(t, l0, i, r, ZeroRec());
      && r !in t.recs && r in u.recs && u.recs[r] == ZeroRec() && At(u, L1(owner[l0].c, i)) == Some(r)
      && u.length == t.length && u.states == t.states && u.recs.Keys == t.recs.Keys + {r}
      && SameBlocks(t, u) && SameSlots(t, u)
      && {l0} - {l0} + {r} == {r}
  {
    hide At;
    RefineKidFacts(t, owner, l0, i, r, ZeroRec());
    RefineKidBlocks(t, owner, l0, i, r, ZeroRec());
  }

  lemma HousingOf(t: Tree, mid: Tree, u: Tree, wasArena: nat, r: Ref, claimed: Option<nat>, arena: nat)
    requires mid.recs == t.recs && u.recs.Keys == t.recs.Keys + {r}
    requires claimed.None? ==> arena == wasArena && r in FreeSlots(mid, arena)
    requires claimed.Some? ==> arena != 0 && Ref(arena, 1) !in u.recs && Ref(arena, 2) !in u.recs
    ensures HousedFrom(t, u, wasArena, r, claimed, arena)
  {
    if claimed.None? {
      assert FreeSlots(u, arena) == FreeSlots(t, arena) - {r};
    } else {
      assert {Ref(arena, 1), Ref(arena, 2)} <= FreeSlots(u, arena);
      Fewer({Ref(arena, 1), Ref(arena, 2)}, FreeSlots(u, arena));
    }
  }

  /** The tree after an arena claim, before the record is added. */
  function ClaimedBase(t: Tree, claimed: Option<nat>): Tree
    requires claimed.Some? ==> claimed.value < |t.states|
  {
    if claimed.Some? then MarkCell(t, claimed.value, RSVD) else t
  }

  /** Apart from a FREE cell that became reserved, every block and slot is as it was. */
  ghost predicate Claimed(t: Tree, u: Tree, claimed: Option<nat>) {
    && (claimed.Some? ==> claimed.value < |t.states| && t.states[claimed.value] == FREE)
    && (forall b: nat :: claimed == Some(b / CELL) ==> BlockAt(t, b) == Free)
    && (forall b: nat :: BlockAt(u, b) == if claimed == Some(b / CELL) then Reserved else BlockAt(t, b))
    && SameSlots(t, u) && SameUnits(t, u)
  }

  lemma ClaimTidyBut(t: Tree, owner: map<Ref, Place>, except: set<Ref>, claimed: Option<nat>)
    requires Tidy(t, owner, except)
    requires claimed.Some? ==> claimed.value < |t.states| && t.states[claimed.value] == FREE
    ensures var u := ClaimedBase(t, claimed);
      && Tidy(u, owner, except) && Claimed(t, u, claimed)
      && Count(u, KFull) == Count(t, KFull)
      && Count(u, KFree) == Count(t, KFree) - (if claimed.Some? then CELL else 0)
      && Count(u, KRsvd) == Count(t, KRsvd) + (if claimed.Some? then CELL else 0)
  {
    hide BlockAt, Tidy, Count, SlotUsed, Granule;
    if claimed.Some? {
      TidyParts(t, owner, except);
      MarkCellUnits(t, owner, claimed.value, RSVD);
      var c := claimed.value;
      var u := MarkCell(t, c, RSVD);
      MarkCellTidy(t, owner, except, c, RSVD);
      CellBlocks(t, owner, except, c);
      CountShift(t, u, c * CELL, CELL, Free, Reserved, KFree);
      CountShift(t, u, c * CELL, CELL, Free, Reserved, KRsvd);
      CountShift(t, u, c * CELL, CELL, Free, Reserved, KFull);
      forall b: nat ensures c * CELL <= b < c * CELL + CELL <==> Some(c) == Some(b / CELL) {
      }
    }
  }


  /** An unrefined cell lies within the group and all its blocks share its state. */
  lemma CellBlocks(t: Tree, owner: map<Ref, Place>, except: set<Ref>, c: nat)
    requires Tidy(t, owner, except) && c < |t.states| && t.states[c] != RSVD
    ensures c * CELL + CELL <= t.length
    ensures t.states[c] != REFINED ==>
      forall b: nat :: c * CELL <= b < c * CELL + CELL ==> BlockAt(t, b) == OfState(t.states[c])
  {
    hide KidState;
    forall b: nat | c * CELL <= b < c * CELL + CELL ensures b / CELL == c {
    }
  }

  /** How a hand-out of n blocks, and perhaps a claim, move the counts. */
  ghost predicate CountsTaken(t: Tree, u: Tree, claimed: Option<nat>, n: nat) {
    && Count(u, KFull) == Count(t, KFull) + n
    && Count(u, KFree) == Count(t, KFree) - n - (if claimed.Some? then CELL else 0)
    && Count(u, KRsvd) == Count(t, KRsvd) + (if claimed.Some? then CELL else 0)
  }

  lemma MarkCellParts(t: Tree, c: nat, st: State)
    requires c < |t.states|
    ensures MarkCell(t, c, st).states == t.states[c := st] && MarkCell(t, c, st).length == t.length
  {
  }

  lemma CellsTaken(t: Tree, owner: map<Ref, Place>, u: Tree, start: nat, k: nat)
    requires Tidy(t, owner, {}) && CellRunAt(t, start, k) && u.length == t.length && k >= 1
    requires RangeBecomes(t, u, start * CELL, k * CELL, Full) && SameSlots(t, u) && |u.states| == |t.states|
    requires forall b: nat :: Granule(u, b) == Granule(t, b)
    requires forall c :: start <= c < start + k ==> u.states[c] == FULL
    ensures Allocated(t, u, start * CELL, k * CELL, None) && CountsTaken(t, u, None, k * CELL)
    ensures TakenIn(u, start * CELL, k * CELL, CELL)
  {
    hide Tidy, Count, BlockAt, SlotUsed;
    forall b: nat | start * CELL <= b < start * CELL + k * CELL ensures BlockAt(t, b) == Free && start <= b / CELL < start + k {
      CellBlocks(t, owner, {}, b / CELL);
    }
    CellBlocks(t, owner, {}, start + k - 1);
    forall kind ensures Count(u, kind) == Count(t, kind) + (if kind == KFull then k * CELL else 0) - (if kind == KFree then k * CELL else 0) {
      CountShift(t, u, start * CELL, k * CELL, Free, Full, kind);
    }
  }

  ghost predicate CellWithRun(t: Tree, c: nat, start: nat, m: nat) {
    && c < |t.states| && c < |t.refs| && t.states[c] == REFINED && t.refs[c] in t.recs
    && RunAt(t.recs[t.refs[c]], start, m) && start + m <= FANOUT
  }

  ghost predicate KidWithRun(t: Tree, c: nat, i: nat, start: nat, n: nat) {
    && c < |t.states| && c < |t.refs| && t.states[c] == REFINED && t.refs[c] in t.recs
    && i < FANOUT && t.recs[t.refs[c]].Ok() && t.recs[t.refs[c]].states[i] == REFINED
    && var l1 := t.recs[t.refs[c]].refs[i];
    && l1 in t.recs && RunAt(t.recs[l1], start, n) && start + n <= FANOUT
  }

  /** The record of a refined cell. */
  lemma CellRecord(t: Tree, owner: map<Ref, Place>, except: set<Ref>, c: nat)
    requires Tidy(t, owner, except) && c < |t.states| && t.states[c] == REFINED
    ensures var r := t.refs[c]; r in t.recs && owner[r] == L0(c) && At(t, L0(c)) == Some(r)
  {
    assert At(t, L0(c)) == Some(t.refs[c]);
  }

  lemma NoCellRoom(t: Tree, hint: nat, m: nat)
    requires forall x: nat :: x < |t.states| ==> !RunBelow(t, L0(WrapAt(hint, |t.states|, x)), m)
    ensures forall c: nat :: !RunBelow(t, L0(c), m)
  {
    forall c: nat ensures !RunBelow(t, L0(c), m) {
      if c < |t.states| {
        var x := WrapCovers(hint, |t.states|, c);
      }
    }
  }

  /** The record of a refined child of a cell's record. */
  lemma KidRecord(t: Tree, owner: map<Ref, Place>, except: set<Ref>, c: nat, i: nat)
    requires Tidy(t, owner, except) && c < |t.states| && t.states[c] == REFINED && i < FANOUT
    requires t.refs[c] in t.recs && t.recs[t.refs[c]].Ok() && t.recs[t.refs[c]].states[i] == REFINED
    ensures var r := t.recs[t.refs[c]].refs[i];
      r in t.recs && r in owner && t.recs[r].Ok() && owner[r] == L1(c, i) && At(t, L1(c, i)) == Some(r)
  {
    assert At(t, L1(c, i)) == Some(t.recs[t.refs[c]].refs[i]);
  }

  lemma NoMoreKids(t: Tree, c: nat, l0: Ref, n: nat)
    requires At(t, L0(c)) == Some(l0) && l0 in t.recs && t.recs[l0].Ok()
    requires forall i: nat :: i < FANOUT ==> !RunBelow(t, L1(c, i), n)
    ensures forall i: nat :: !RunBelow(t, L1(c, i), n)
  {
  }

  lemma NoKidRoom(t: Tree, hint: nat, n: nat)
    requires forall x: nat, i: nat :: x < |t.states| ==> !RunBelow(t, L1(WrapAt(hint, |t.states|, x), i), n)
    ensures forall c: nat, i: nat :: !RunBelow(t, L1(c, i), n)
  {
    forall c: nat, i: nat ensures !RunBelow(t, L1(c, i), n) {
      if c < |t.states| {
        var x := WrapCovers(hint, |t.states|, c);
      }
    }
  }

  lemma FirstRun(rec: Rec, i: nat)
    requires RunAt(rec, i, 1)
    ensures i < |rec.states| && rec.states[i] == FREE
  {
  }

  lemma TidyWeaker(t: Tree, owner: map<Ref, Place>, a: set<Ref>, b: set<Ref>)
    requires Tidy(t, owner, a) && a <= b
    ensures Tidy(t, owner, b)
  {
  }

  lemma FreeSlotsFinite(t: Tree, arena: nat)
    ensures FreeSlots(t, arena) != {} <==> |FreeSlots(t, arena)| >= 1
  {
  }

  /** After the first record, a second one can be had exactly when two could be had before. */
  lemma SecondRecord(t: Tree, mid: Tree, wasArena: nat, arena: nat, c: nat, r: Ref, claimed: Option<nat>)
    requires c < |t.states| == |t.refs| && t.states[c] == FREE
    requires claimed.Some? ==> claimed.value < |t.states| && t.states[claimed.value] == FREE && claimed.value != c
    requires mid == RefineCell(ClaimedBase(t, claimed), c, r)
    requires HousedFrom(t, mid, wasArena, r, claimed, arena)
    ensures RecordsFor(mid, arena, 1, |FreeCells(mid)|) <==> RecordsFor(t, wasArena, 2, |FreeCells(t)| - 1)
    ensures claimed.Some? ==> |FreeSlots(mid, arena)| >= 2 && FreeSlots(mid, arena) != {} && |FreeCells(t)| - 1 >= 1
    ensures claimed.None? ==> |FreeCells(mid)| == |FreeCells(t)| - 1
    ensures claimed.None? ==> |FreeSlots(mid, arena)| == |FreeSlots(t, wasArena)| - 1
  {
    hide FreeSlots;
    if claimed.None? {
      assert FreeCells(mid) == FreeCells(t) - {c};
      assert |FreeSlots(mid, arena)| == |FreeSlots(t, arena)| - 1;
    } else {
      assert {c, claimed.value} <= FreeCells(t);
      assert |FreeCells(t)| == |FreeCells(t) - {c, claimed.value}| + |{c, claimed.value}|;
      FreeSlotsFinite(mid, arena);
    }
  }

  lemma TakenLeaves(t: Tree, r: Ref, start: nat, m: nat, arena: nat)
    requires r in t.recs && t.recs[r].Ok() && start + m <= FANOUT
    ensures FreeSlots(TakeRun(t, r, start, m), arena) == FreeSlots(t, arena)
    ensures FreeCells(TakeRun(t, r, start, m)) == FreeCells(t)
  {
  }

  lemma CellsLeft(t: Tree, u: Tree, l0: Ref, i: nat, r: Ref, claimed: Option<nat>)
    requires l0 in t.recs && t.recs[l0].Ok() && i < FANOUT
    requires claimed.Some? ==> claimed.value < |t.states| && t.states[claimed.value] == FREE
    requires u == RefineKid(ClaimedBase(t, claimed), l0, i, r, ZeroRec())
    ensures if claimed.None? then FreeCells(u) == FreeCells(t) else |FreeCells(t)| >= 1
  {
    if claimed.Some? {
      FreeCellKnown(t, claimed.value);
    }
  }

  /** After a claim there is room for further records. */
  lemma RoomLeft(t: Tree, u: Tree, wasArena: nat, r: Ref, claimed: Option<nat>, arena: nat)
    requires HousedFrom(t, u, wasArena, r, claimed, arena)
    ensures claimed.Some? ==> |FreeSlots(u, arena)| >= 2
    ensures claimed.None? ==> |FreeSlots(u, arena)| == |FreeSlots(t, wasArena)| - 1
    ensures FreeSlots(u, arena) == {} <==> |FreeSlots(u, arena)| == 0
  {
    hide FreeSlots;
  }

  /** Two claims in a row of which at most one took a cell. */
  lemma ClaimedTwice(t: Tree, mid: Tree, u: Tree, c: nat, r: Ref, first: Option<nat>, second: Option<nat>)
    requires c < |t.states| == |t.refs| && (first.Some? ==> first.value < |t.states|)
    requires mid == RefineCell(ClaimedBase(t, first), c, r)
    requires Claimed(t, mid, first) && Claimed(mid, u, second) && (first.None? || second.None?)
    ensures Claimed(t, u, if first.Some? then first else second)
  {
    hide BlockAt, SlotUsed, Granule;
  }

  lemma ClaimedNothing(t: Tree)
    ensures Claimed(t, t, None) && CountsMoved(t, t, None)
  {
  }

  lemma FreeCellKnown(t: Tree, c: nat)
    requires c < |t.states| && t.states[c] == FREE
    ensures |FreeCells(t)| >= 1
  {
    assert c in FreeCells(t);
  }

  lemma RefinedFacts(t: Tree, o: map<Ref, Place>, u: Tree, r: Ref, p: Place, claimed: Option<nat>)
    requires RefinedTree(t, o, u, r, p, claimed)
    ensures Tidy(u, o[r := p], {r}) && r in u.recs && u.recs[r] == ZeroRec() && At(u, p) == Some(r)
    ensures Claimed(t, u, claimed) && u.length == t.length && r !in t.recs && |u.states| == |t.states|
    ensures forall m: nat :: m <= FANOUT ==> RunAt(u.recs[r], 0, m)
  {
    assert u.recs[r] == ZeroRec();
  }

  /** The tree with a run of a record's children marked FULL. */
  function TakeRun(t: Tree, r: Ref, start: nat, m: nat): Tree
    requires r in t.recs && t.recs[r].Ok() && start + m <= FANOUT
  {
    WithRec(t, r, MarkKids(t.recs[r], start, m, FULL))
  }

  ghost predicate Taken(t: Tree, mid: Tree, u: Tree, lo: nat, n: nat, g: nat, claimed: Option<nat>) {
    Allocated(t, u, lo, n, claimed) && CountsTaken(mid, u, None, n) && TakenIn(u, lo, n, g) && u.length == t.length
  }

  /** Taking a run of FREE children hands out exactly the blocks under them. */
  lemma Take(t: Tree, mid: Tree, o: map<Ref, Place>, except: set<Ref>, r: Ref, start: nat, m: nat, claimed: Option<nat>)
    requires r in mid.recs && r in o && mid.recs[r].Ok() && !o[r].L3? && except <= {r} && 1 <= m
    requires start + m <= FANOUT && RunAt(mid.recs[r], start, m)
    requires Tidy(mid, o, except)
    requires Claimed(t, mid, claimed) && mid.length == t.length
    ensures Tidy(TakeRun(mid, r, start, m), o, {})
    ensures Taken(t, mid, TakeRun(mid, r, start, m), FirstBlock(o[r], start), Span(o[r], m), KidBlocks(o[r]), claimed)
  {
    hide Tidy, Count, BlockAt, SlotUsed, TakeRun, At, KidState, TakenIn, RangeBecomes, Allocated, Claimed, CountsTaken;
    TakeTree(mid, o, except, r, start, m);
    TakeClaim(t, mid, TakeRun(mid, r, start, m), FirstBlock(o[r], start), Span(o[r], m), claimed);
  }

  lemma TakeTree(t: Tree, o: map<Ref, Place>, except: set<Ref>, r: Ref, start: nat, m: nat)
    requires r in t.recs && r in o && t.recs[r].Ok() && !o[r].L3? && except <= {r} && 1 <= m
    requires start + m <= FANOUT && RunAt(t.recs[r], start, m)
    requires Tidy(t, o, except)
    ensures var u, lo, n := TakeRun(t, r, start, m), FirstBlock(o[r], start), Span(o[r], m);
      && Tidy(u, o, {}) && u.length == t.length && lo + n <= t.length && n >= 1
      && RangeBecomes(t, u, lo, n, Full) && SameSlots(t, u)
      && (forall b: nat :: lo <= b < lo + n ==> BlockAt(t, b) == Free)
      && TakenIn(u, lo, n, KidBlocks(o[r])) && SameUnits(t, u)
  {
    hide Owned, Shaped, Housed, NoneEmpty, BlockAt, SlotUsed, At, KidState, TakenIn, RangeBecomes, SameSlots, Granule;
    ValidFacts(t, o, except);
    MarkKidsTidy(t, o, except, r, start, m, FULL);
    assert !MarkKids(t.recs[r], start, m, FULL).All(FREE) by {
      assert MarkKids(t.recs[r], start, m, FULL).states[start] == FULL;
    }
    assert (except - {r}) == {};
    MarkKidsBlocks(t, o, r, start, m, FULL);
    MarkKidsSlots(t, o, r, MarkKids(t.recs[r], start, m, FULL));
    RunBlocks(t, o, r, start, m);
    TakenGranule(t, o, r, start, m);
    MarkKeepsGranule(t, o, r, MarkKids(t.recs[r], start, m, FULL));
  }

  lemma TakeClaim(t: Tree, mid: Tree, u: Tree, lo: nat, n: nat, claimed: Option<nat>)
    requires Claimed(t, mid, claimed) && mid.length == t.length == u.length && lo + n <= t.length
    requires RangeBecomes(mid, u, lo, n, Full) && SameSlots(mid, u) && SameUnits(mid, u)
    requires forall b: nat :: lo <= b < lo + n ==> BlockAt(mid, b) == Free
    ensures Allocated(t, u, lo, n, claimed) && CountsTaken(mid, u, None, n)
  {
    hide BlockAt, SlotUsed, Count, Granule;
    CountShift(mid, u, lo, n, Free, Full, KFree);
    CountShift(mid, u, lo, n, Free, Full, KRsvd);
    CountShift(mid, u, lo, n, Free, Full, KFull);
  }

  lemma MarkKeepsGranule(t: Tree, owner: map<Ref, Place>, r: Ref, rec: Rec)
    requires Owned(t, owner) && r in t.recs && SameLinks(t.recs[r], rec)
    ensures forall b: nat :: Granule(WithRec(t, r, rec), b) == Granule(t, b)
  {
    hide At;
    WithRecFacts(t, owner, r, rec);
  }

  ghost predicate TakenIn(u: Tree, lo: nat, n: nat, g: nat) {
    forall b: nat :: lo <= b < lo + n ==> Granule(u, b) == g
  }

  lemma RunBlocks(t: Tree, owner: map<Ref, Place>, r: Ref, start: nat, m: nat)
    requires Owned(t, owner) && Shaped(t, owner) && r in t.recs && !owner[r].L3?
    requires 1 <= m && RunAt(t.recs[r], start, m)
    ensures var lo, n := FirstBlock(owner[r], start), Span(owner[r], m);
      lo + n <= t.length && forall b: nat :: lo <= b < lo + n ==> BlockAt(t, b) == Free
  {
    hide At, KidState;
    PlaceInRange(t, owner, r);
    forall b: nat | FirstBlock(owner[r], start) <= b < FirstBlock(owner[r], start) + Span(owner[r], m)
      ensures BlockAt(t, b) == Free
    {
      Coordinates(b);
      UnderPlace(b, owner[r], start, m);
      OwnKid(t, owner, r, if owner[r].L0? then b % CELL / FANOUT else b % FANOUT);
    }
  }

  lemma TakenGranule(t: Tree, owner: map<Ref, Place>, r: Ref, start: nat, m: nat)
    requires Owned(t, owner) && Shaped(t, owner) && r in t.recs && !owner[r].L3?
    requires 1 <= m && RunAt(t.recs[r], start, m)
    ensures TakenIn(WithRec(t, r, MarkKids(t.recs[r], start, m, FULL)),
                    FirstBlock(owner[r], start), Span(owner[r], m), KidBlocks(owner[r]))
  {
    hide At, KidState;
    PlaceInRange(t, owner, r);
    var rec := MarkKids(t.recs[r], start, m, FULL);
    var u := WithRec(t, r, rec);
    WithRecFacts(t, owner, r, rec);
    forall b: nat | FirstBlock(owner[r], start) <= b < FirstBlock(owner[r], start) + Span(owner[r], m)
      ensures Granule(u, b) == KidBlocks(owner[r])
    {
      Coordinates(b);
      UnderPlace(b, owner[r], start, m);
    }
  }

  lemma FreeCellsWithout(t: Tree, c: nat)
    requires c < |t.states| && t.states[c] == FREE
    ensures var u := t.(states := t.states[c := REFINED]);
      |FreeCells(u)| == |FreeCells(t)| - 1 && (FreeCells(u) != {} <==> |FreeCells(t)| - 1 >= 1)
  {
    var u := t.(states := t.states[c := REFINED]);
    assert FreeCells(u) == FreeCells(t) - {c};
  }

  lemma CountSame3(t: Tree, u: Tree)
    requires u.length == t.length && SameBlocks(t, u)
    ensures forall k :: Count(u, k) == Count(t, k)
  {
    forall k ensures Count(u, k) == Count(t, k) {
      CountSame(t, u, k);
    }
  }
}
