/**
The allocator of one allocation group: claiming table records from its own
arena, refining on allocation, coarsening on free, and inode slots. Hints only
steer the scans; the contracts do not mention them.
*/
module Allocator {
  import opened Wrappers
  import opened AllocTree
  import opened AllocOps
  import opened AllocCount
  import opened AllocSpec
  import opened FreeSpec
  import opened SlotSpec
  import opened AllocFormat
  import opened AllocRoom
  import opened AllocRuns

  datatype AllocError = NotAllocated | Misaligned | NotASlotBlock

  /** The first run of m consecutive FREE children. */
  method FindRun(rec: Rec, m: nat) returns (r: Option<nat>)
    requires |rec.states| == FANOUT && m >= 1
    ensures r.Some? <==> HasRun(rec, m)
    ensures r.Some? ==> RunAt(rec, r.value, m) && r.value + m <= FANOUT && forall s: nat :: s < r.value ==> !RunAt(rec, s, m)
  {
    var run := 0;
    for i := 0 to FANOUT
      invariant run <= i && run < m
      invariant forall k :: i - run <= k < i ==> rec.states[k] == FREE
      invariant run < i ==> rec.states[i - run - 1] != FREE
      invariant forall s: nat :: s + m <= i ==> !RunAt(rec, s, m)
    {
      if rec.states[i] == FREE {
        run := run + 1;
        if run == m {
          assert RunAt(rec, i + 1 - m, m);
          return Some(i + 1 - m);
        }
        forall s: nat | s + m <= i + 1 ensures !RunAt(rec, s, m) {
          if s + m == i + 1 {
            assert rec.states[i + 1 - run - 1] != FREE;
          }
        }
      } else {
        run := 0;
      }
    }
    return None;
  }

  /** A fresh cell table: the first head cells and, if asked for, the last one are reserved. */
  method FormatTable(cells: nat, head: nat, reserveTail: bool) returns (states: seq<State>, rsvdCells: nat)
    requires head <= cells
    ensures |states| == cells
    ensures forall c :: 0 <= c < cells ==> states[c] == if c < head || (reserveTail && c == cells - 1) then RSVD else FREE
    ensures rsvdCells == head + if reserveTail && head < cells then 1 else 0
  {
    states := seq(cells, _ => FREE);
    for c := 0 to head
      invariant |states| == cells
      invariant forall x :: 0 <= x < cells ==> states[x] == if x < c then RSVD else FREE
    {
      states := states[c := RSVD];
    }
    rsvdCells := head;
    if reserveTail && cells > 0 && states[cells - 1] == FREE {
      states := states[cells - 1 := RSVD];
      rsvdCells := rsvdCells + 1;
    }
  }

  // --- the group -------------------------------------------------------------------------------

  class Group {
    var t: Tree
    var free: int
    var rsvd: int
    var full: int
    /** First block of the arena cell in use, 0 for none. */
    var arena: nat
    /** The slot block new inodes go to, 0 for none. */
    var inoHint: nat
    var arenaHint: nat
    var cellHint: nat
    ghost var owner: map<Ref, Place>

    ghost predicate Valid()
      reads this
    {
      Tidy(t, owner, {}) && Counted() && ArenaOk()
    }

    /** The header counters are the tally of the tree. */
    ghost predicate Counted()
      reads this`t, this`free, this`rsvd, this`full
    {
      free == Count(t, KFree) && rsvd == Count(t, KRsvd) && full == Count(t, KFull)
    }

    ghost predicate ArenaOk()
      reads this`t, this`arena
    {
      && 0 < |t.states| && t.states[0] == RSVD
      && (arena != 0 ==> arena % CELL == 0 && arena / CELL < |t.states| && t.states[arena / CELL] == RSVD)
    }

    // --- formatting ----------------------------------------------------------------------------

    /** A group as it is added to a running system: only metadata cells and a partial tail cell reserved. */
    constructor AddAg(length: nat)
      requires length >= MIN_LENGTH
      ensures Valid() && Plain(t, Cells(1 + RtBlocks(length)), length / CELL) && t.length == length
      ensures full == 0 && free + rsvd == length && arena == 0 && inoHint == 0
      ensures Accounts(t, Held(map[], {}))
    {
      hide Tidy, Count, BlockAt, SlotUsed, Accounts;
      var cells, head := Cells(length), Cells(1 + RtBlocks(length));
      HeadFits(length);
      var states, rsvdCells := FormatTable(cells, head, length % CELL != 0);
      t := Tree(length, states, Cleared(cells), map[]);
      free := (cells - rsvdCells) * CELL;
      rsvd := length - (cells - rsvdCells) * CELL;
      full := 0;
      arena, inoHint, arenaHint, cellHint := 0, 0, 0, 0;
      owner := map[];
      new;
      PlainTidy(t, head, length / CELL);
      NothingHeld(t);
    }

    /** The root's inode, and the kernel's behind it if there is one. */
    static function FirstInodes(b: nat, kernel: bool): set<nat> {
      {b * FANOUT} + if kernel then {b * FANOUT + 1} else {}
    }

    /**
    The first group of a new volume: fixed metadata below next, an arena cell, and a cell refined down
    to one slot block that holds the root inode (and the kernel's).
    */
    constructor FirstAg(length: nat, next: nat, kernel: bool)
      requires 1 <= next && next + 3 * CELL < length
      ensures Valid() && t.length == length && full == 1 && free + rsvd + full == length
      ensures inoHint == (Cells(next) + 1) * CELL && BlockAt(t, inoHint) == Slots
      ensures forall s: nat :: SlotUsed(t, s) <==> s == inoHint * FANOUT || (kernel && s == inoHint * FANOUT + 1)
      ensures Accounts(t, Held(map[], FirstInodes(inoHint, kernel)))
    {
      hide Tidy, Count, BlockAt, SlotUsed, FirstRecords, FirstOwner, Accounts;
      var cells, head := Cells(length), Cells(next);
      var states, rsvdCells := FormatTable(cells, head, true);
      var arenaCell, inoCell := head, head + 1;
      states := states[arenaCell := RSVD];
      rsvdCells := rsvdCells + 1;
      ghost var base := Tree(length, states, Cleared(cells), map[]);
      var refs := Cleared(cells)[inoCell := Ref(arenaCell * CELL, 0)];
      states := states[inoCell := REFINED];
      t := Tree(length, states, refs, FirstRecords(arenaCell * CELL, kernel));
      free := (cells - rsvdCells - 1) * CELL + CELL - 1;
      full := 1;
      rsvd := length - ((cells - rsvdCells - 1) * CELL + CELL - 1) - 1;
      arena, inoHint := arenaCell * CELL, inoCell * CELL;
      arenaHint, cellHint := 0, 0;
      owner := FirstOwner(inoCell, arenaCell * CELL);
      new;
      FirstTreeTidy(base, inoCell, cells - 1, kernel);
      OnlySlotsHeld(t, owner, inoHint, FirstInodes(inoHint, kernel));
    }

    // --- table records ------------------------------------------------------------------------

    /** A place for one more record: an unused one of an arena, or the first of a cell that becomes an arena. */
    method TblAllocRec() returns (r: Option<Ref>, ghost claimed: Option<nat>)
      requires ArenaOk() && Housed(t) && |t.states| == Cells(t.length)
      requires forall c :: 0 <= c < |t.states| && t.states[c] != RSVD ==> (c + 1) * CELL <= t.length
      modifies this`t, this`arena, this`arenaHint, this`free, this`rsvd
      ensures r.Some? <==> FreeSlots(old(t), old(arena)) != {} || FreeCells(old(t)) != {}
      ensures r.Some? ==> ArenaOk()
      ensures r.Some? ==> Claim(old(t), t, r.value, claimed, arena)
      ensures claimed.None? ==> arena == old(arena) && free == old(free) && rsvd == old(rsvd)
      ensures claimed.Some? ==> arena == claimed.value * CELL && free == old(free) - CELL && rsvd == old(rsvd) + CELL
      ensures claimed.None? && r.Some? ==> r.value in FreeSlots(old(t), arena)
      ensures claimed.Some? ==> FreeSlots(old(t), old(arena)) == {}
    {
      claimed := None;
      if arena != 0 {
        r := ScanArena();
        if r.Some? {
          t := t.(recs := t.recs[r.value := ZeroRec()]);
          arenaHint := r.value.block;
          return;
        }
      }
      // no arena has a place left: give one of the FREE cells to records
      var c := FirstFreeCell();
      if c.None? {
        return None, None;
      }
      assert c.value in FreeCells(t);
      t := MarkCell(t, c.value, RSVD);
      arena := c.value * CELL;
      arenaHint := arena;
      free := free - CELL;
      rsvd := rsvd + CELL;
      r, claimed := Some(Ref(arena, 0)), c;
      NoRecordsIn(old(t), c.value);
      t := t.(recs := t.recs[r.value := ZeroRec()]);
      assert Ref(arena, 1) in FreeSlots(t, arena) && Ref(arena, 2) in FreeSlots(t, arena);
    }

    /** The first block of the arena with an unused record, from the hint on, wrapping around. */
    method ScanArena() returns (r: Option<Ref>)
      requires ArenaOk() && arena != 0
      ensures r.Some? ==> r.value in FreeSlots(t, arena)
      ensures r.None? ==> FreeSlots(t, arena) == {}
    {
      var start := if arena <= arenaHint < arena + CELL then arenaHint - arena else 0;
      for k := 0 to CELL
        invariant forall x: nat :: x < k ==> BlockFull(arena + WrapAt(start, CELL, x))
      {
        var b := arena + WrapAt(start, CELL, k);
        var idx := FirstUnused(b);
        if idx.Some? {
          assert Ref(b, idx.value) in FreeSlots(t, arena);
          return Some(Ref(b, idx.value));
        }
      }
      forall b: nat | arena <= b < arena + CELL ensures BlockFull(b) {
        var k := WrapCovers(start, CELL, b - arena);
      }
      forall b: nat, x: nat | arena <= b < arena + CELL && x < RECS_PER_BLOCK ensures Ref(b, x) in t.recs {
        assert BlockFull(b);
      }
      NoFreeSlots(t, arena);
      return None;
    }

    /** Every record of a table block is used. */
    ghost predicate BlockFull(b: nat)
      reads this`t
    {
      forall x: nat :: x < RECS_PER_BLOCK ==> Ref(b, x) in t.recs
    }

    method FirstUnused(b: nat) returns (r: Option<nat>)
      ensures r.Some? ==> r.value < RECS_PER_BLOCK && Ref(b, r.value) !in t.recs
      ensures r.None? ==> BlockFull(b)
    {
      for x := 0 to RECS_PER_BLOCK
        invariant forall y: nat :: y < x ==> Ref(b, y) in t.recs
      {
        if Ref(b, x) !in t.recs {
          return Some(x);
        }
      }
      return None;
    }

    method FirstFreeCell() returns (r: Option<nat>)
      ensures r.Some? ==> r.value < |t.states| && t.states[r.value] == FREE && forall x :: 0 <= x < r.value ==> t.states[x] != FREE
      ensures r.None? ==> FreeCells(t) == {}
    {
      for c := 0 to |t.states|
        invariant forall x :: 0 <= x < c ==> t.states[x] != FREE
      {
        if t.states[c] == FREE {
          return Some(c);
        }
      }
      return None;
    }

    // --- refinement ------------------------------------------------------------------------------

    /** Refine a FREE cell: its record starts all FREE. */
    method RefineL0(c: nat) returns (r: Option<Ref>, ghost claimed: Option<nat>)
      requires Valid() && c < |t.states| && t.states[c] == FREE
      modifies this`t, this`owner, this`arena, this`arenaHint, this`free, this`rsvd
      ensures r.Some? <==> RecordsFor(old(t), old(arena), 1, |FreeCells(old(t))| - 1)
      ensures r.Some? ==> Refined(old(t), old(owner), r.value, L0(c), claimed)
      ensures r.Some? && claimed.Some? ==> claimed.value < |old(t).states|
      ensures r.Some? && claimed.Some? ==> old(t).states[claimed.value] == FREE && claimed.value != c
      ensures claimed.Some? ==> FreeSlots(old(t), old(arena)) == {}
      ensures r.Some? ==> t == RefineCell(ClaimedBase(old(t), claimed), c, r.value)
      ensures r.Some? ==> Housing(old(t), old(arena), r.value, claimed)
    {
      hide Tidy, Housed, Count, BlockAt, SlotUsed, FreshRef, RefineCell, Claim, RefinedTree, HousedFrom, FreeSlots, FreeCells;
      ghost var before := t;
      ghost var wasOwner := owner;
      ValidFacts(before, owner, {});
      FreeCellsWithout(before, c);
      // the state flips before the record is claimed, so that the arena does not take this very cell
      t := t.(states := t.states[c := REFINED]);
      HousedStill(before, t, c, arena);
      r, claimed := TblAllocRec();
      if r.None? {
        return;
      }
      ghost var after := t;
      ClaimSizes(before.(states := before.states[c := REFINED]), after, r.value, claimed, arena);
      t := t.(refs := t.refs[c := r.value]);
      owner := owner[r.value := L0(c)];
      AfterFlip(before, after, t, c, r.value, claimed, arena);
      RefineCellWhole(before, wasOwner, c, r.value, claimed, t);
      HousingOf(before, before.(states := before.states[c := REFINED]), t, old(arena), r.value, claimed, arena);
    }

    /** Hang a record of single blocks below a FREE child, where there was one state for its 16 blocks. */
    method RefineL1(l0: Ref, i: nat) returns (r: Option<Ref>, ghost claimed: Option<nat>)
      requires Tidy(t, owner, {l0}) && Counted() && ArenaOk()
      requires l0 in t.recs && owner[l0].L0? && i < FANOUT && t.recs[l0].states[i] == FREE
      modifies this`t, this`owner, this`arena, this`arenaHint, this`free, this`rsvd
      ensures r.Some? <==> RecordsFor(old(t), old(arena), 1, |FreeCells(old(t))|)
      ensures r.Some? ==> Refined(old(t), old(owner), r.value, L1(old(owner)[l0].c, i), claimed)
      ensures claimed.Some? ==> FreeSlots(old(t), old(arena)) == {}
      ensures r.Some? ==> Housing(old(t), old(arena), r.value, claimed)
      ensures r.Some? ==> if claimed.None? then FreeCells(t) == FreeCells(old(t)) else |FreeCells(old(t))| >= 1
    {
      hide Tidy, Housed, Count, BlockAt, SlotUsed, FreshRef, RefineKid, Claim, RefinedTree, HousedFrom, FreeSlots, FreeCells;
      ghost var before := t;
      ghost var wasOwner := owner;
      ValidFacts(before, owner, {l0});
      CellsCounted(before);
      r, claimed := TblAllocRec();
      if r.None? {
        return;
      }
      ghost var after := t;
      ClaimKeeps(before, after, l0, r.value, claimed, arena);
      var rec := t.recs[l0];
      t := WithRec(t, l0, Rec(rec.states[i := REFINED], rec.refs[i := r.value]));
      owner := owner[r.value := L1(owner[l0].c, i)];
      AfterClaim(before, after, t, l0, i, r.value, claimed, arena);
      RefineKidWhole(before, wasOwner, l0, i, r.value, claimed, t);
      CellsLeft(before, t, l0, i, r.value, claimed);
      HousingOf(before, before, t, old(arena), r.value, claimed, arena);
    }

    // --- allocation --------------------------------------------------------------------------------

    /** k whole cells in a row. */
    method AllocL0(k: nat) returns (lo: Option<nat>)
      requires Valid() && k >= 1
      modifies this`t, this`free, this`full
      ensures lo.Some? <==> HasCellRun(old(t), k)
      ensures lo.Some? ==> Valid() && Handed(old(t), lo.value, k * CELL, None, CELL) && lo.value % CELL == 0
      ensures lo.Some? ==> forall s: nat :: s < lo.value / CELL ==> !CellRunAt(old(t), s, k)
    {
      hide Tidy, Count, BlockAt, SlotUsed, FreeSlots, FreeCells, Allocated;
      var run := 0;
      for c := 0 to |t.states|
        invariant t == old(t) && free == old(free) && full == old(full)
        invariant run <= c && run < k
        invariant forall x :: c - run <= x < c ==> t.states[x] == FREE
        invariant run < c ==> t.states[c - run - 1] != FREE
        invariant forall s: nat :: s + k <= c ==> !CellRunAt(t, s, k)
      {
        if t.states[c] == FREE {
          run := run + 1;
          if run == k {
            assert CellRunAt(t, c + 1 - k, k);
            MarkCells(c + 1 - k, k);
            free := free - k * CELL;
            full := full + k * CELL;
            return Some((c + 1 - k) * CELL);
          }
          forall s: nat | s + k <= c + 1 ensures !CellRunAt(t, s, k) {
            if s + k == c + 1 {
              assert t.states[c + 1 - run - 1] != FREE;
            }
          }
        } else {
          run := 0;
        }
      }
      return None;
    }

    /** Mark a run of FREE cells FULL. */
    method MarkCells(start: nat, k: nat)
      requires Valid() && CellRunAt(t, start, k) && k >= 1
      modifies this`t
      ensures Tidy(t, owner, {}) && ArenaOk() && Handed(old(t), start * CELL, k * CELL, None, CELL)
      ensures CountsTaken(old(t), t, None, k * CELL)
    {
      hide Tidy, Count, BlockAt, SlotUsed, MarkCell, Granule;
      for c := start to start + k
        invariant Tidy(t, owner, {}) && ArenaOk() && t.length == old(t).length
        invariant |t.states| == |old(t).states|
        invariant forall x :: 0 <= x < |t.states| ==> t.states[x] == if start <= x < c then FULL else old(t).states[x]
        invariant RangeBecomes(old(t), t, start * CELL, (c - start) * CELL, Full) && SameSlots(old(t), t)
        invariant forall b: nat :: Granule(t, b) == Granule(old(t), b)
      {
        ghost var before := t;
        t := MarkCell(t, c, FULL);
        MarkCellTidy(before, owner, {}, c, FULL);
        MarkCellParts(before, c, FULL);
        TidyParts(before, owner, {});
        MarkCellUnits(before, owner, c, FULL);
      }
      CellsTaken(old(t), owner, t, start, k);
    }

    /** Mark children start..start+m of a record FULL and store it. */
    method MarkRun(r: Ref, start: nat, m: nat)
      requires r in t.recs && t.recs[r].Ok() && start + m <= FANOUT
      modifies this`t
      ensures t == TakeRun(old(t), r, start, m)
    {
      var rec := t.recs[r];
      for i := start to start + m
        invariant rec.Ok() && rec.refs == t.recs[r].refs
        invariant forall x :: 0 <= x < FANOUT ==> rec.states[x] == if start <= x < i then FULL else t.recs[r].states[x]
      {
        rec := Rec(rec.states[i := FULL], rec.refs);
      }
      assert rec.states == MarkKids(t.recs[r], start, m, FULL).states;
      t := WithRec(t, r, rec);
    }

    /** Hand out children start..start+m of record r, together the given number of blocks. */
    method TakeKids(r: Ref, start: nat, m: nat, blocks: nat, ghost before: Tree, ghost claimed: Option<nat>, ghost lo: nat)
      requires Takeable(r, start, m, blocks, lo) && Counted() && ArenaOk()
      requires ClaimedFrom(before, claimed)
      modifies this`t, this`free, this`full
      ensures FreeSlots(t, arena) == FreeSlots(old(t), arena) && FreeCells(t) == FreeCells(old(t))
      ensures r in owner && Handed(before, lo, blocks, claimed, KidBlocks(owner[r]))
      ensures Valid()
    {
      hide Tidy, Count, BlockAt, SlotUsed, RunAt, FirstBlock, Claimed, Allocated, TakenIn;
      ghost var mid := t;
      Take(before, mid, owner, {r}, r, start, m, claimed);
      MarkRun(r, start, m);
      TakenLeaves(mid, r, start, m, arena);
      free := free - blocks;
      full := full + blocks;
    }

    /** A refined cell with m FREE children in a row, scanning from the hint around. */
    method FindInCells(m: nat) returns (r: Option<(nat, nat)>)
      requires Valid() && 1 <= m
      ensures r.None? ==> forall c: nat :: !RunBelow(t, L0(c), m)
      ensures r.Some? ==> CellWithRun(t, r.value.0, r.value.1, m) && RunBelow(t, L0(r.value.0), m)
      ensures r.Some? ==> forall s: nat :: s < r.value.1 ==> !RunAt(t.recs[t.refs[r.value.0]], s, m)
    {
      hide Tidy, HasRun, Count;
      ValidFacts(t, owner, {});
      for k := 0 to |t.states|
        invariant forall x: nat :: x < k ==> !RunBelow(t, L0(WrapAt(cellHint, |t.states|, x)), m)
      {
        var c := WrapAt(cellHint, |t.states|, k);
        if t.states[c] == REFINED {
          CellRecord(t, owner, {}, c);
          var start := FindRun(t.recs[t.refs[c]], m);
          if start.Some? {
            return Some((c, start.value));
          }
        }
      }
      NoCellRoom(t, cellHint, m);
      return None;
    }

    /** A record of single blocks with n FREE ones in a row: its cell, its child index, the start. */
    method FindInKids(n: nat) returns (r: Option<(nat, nat, nat)>)
      requires Valid() && 1 <= n
      ensures r.None? ==> forall c: nat, i: nat :: !RunBelow(t, L1(c, i), n)
      ensures r.Some? ==> KidWithRun(t, r.value.0, r.value.1, r.value.2, n) && RunBelow(t, L1(r.value.0, r.value.1), n)
      ensures r.Some? ==> forall s: nat :: s < r.value.2 ==> !RunAt(t.recs[t.recs[t.refs[r.value.0]].refs[r.value.1]], s, n)
    {
      hide Tidy, HasRun, Count;
      ValidFacts(t, owner, {});
      for k := 0 to |t.states|
        invariant forall x: nat, i: nat :: x < k ==> !RunBelow(t, L1(WrapAt(cellHint, |t.states|, x), i), n)
      {
        var c := WrapAt(cellHint, |t.states|, k);
        if t.states[c] == REFINED {
          var l0 := t.refs[c];
          CellRecord(t, owner, {}, c);
          for i := 0 to FANOUT
            invariant forall x: nat :: x < i ==> !RunBelow(t, L1(c, x), n)
          {
            if t.recs[l0].states[i] == REFINED {
              var l1 := t.recs[l0].refs[i];
              KidRecord(t, owner, {}, c, i);
              var start := FindRun(t.recs[l1], n);
              if start.Some? {
                return Some((c, i, start.value));
              }
            }
          }
          NoMoreKids(t, c, l0, n);
        }
      }
      NoKidRoom(t, cellHint, n);
      return None;
    }

    /** m children of 16 blocks in a row, inside one cell. */
    method AllocL1(m: nat) returns (lo: Option<nat>, ghost claimed: Option<nat>)
      requires Valid() && 1 <= m <= FANOUT
      modifies this`t, this`owner, this`arena, this`arenaHint, this`cellHint, this`free, this`rsvd, this`full
      ensures lo.Some? <==> GroupsObtainable(old(t), old(arena), m * FANOUT)
      ensures lo.Some? ==>
        if HasPartRun(old(t), m * FANOUT) then FirstPartRun(old(t), lo.value, m * FANOUT) && claimed.None? else LowestWhole(old(t), lo.value)
      ensures lo.Some? ==> Valid() && Handed(old(t), lo.value, m * FANOUT, claimed, FANOUT) && lo.value % FANOUT == 0
      ensures lo.Some? && claimed.Some? ==> FreeSlots(t, arena) != {}
      ensures lo.Some? && !HasPartRun(old(t), m * FANOUT) ==> (claimed.Some? <==> |FreeSlots(old(t), old(arena))| < 1)
    {
      hide GroupsObtainable, HasPartRun, FirstPartRun, LowestWhole;
      hide Tidy, Count, BlockAt, SlotUsed, FreeSlots, FreeCells, HousedFrom, RefinedTree, HasRun, Allocated, Claimed, TakenIn;
      PartRunsAgree(t, owner, m);
      GroupsExactlyWhen(t, owner, arena, m);
      ValidFacts(t, owner, {});
      CellsCounted(t);
      var at := FindInCells(m);
      if at.Some? {
        var c, start := at.value.0, at.value.1;
        FoundInCell(t, owner, c, start, m);
        CellRecord(t, owner, {}, c);
        ClaimedNothing(t);
        TidyWeaker(t, owner, {}, {t.refs[c]});
        TakeKids(t.refs[c], start, m, m * FANOUT, t, None, c * CELL + start * FANOUT);
        cellHint := c;
        return Some(c * CELL + start * FANOUT), None;
      }
      // open up a whole FREE cell
      var c := FirstFreeCell();
      if c.None? {
        return None, None;
      }
      FoundWhole(t, owner, c.value);
      FreeCellKnown(t, c.value);
      lo, claimed := FreshKids(c.value, m);
    }

    /** Children of 16 blocks from a FREE cell. */
    method FreshKids(c: nat, m: nat) returns (lo: Option<nat>, ghost claimed: Option<nat>)
      requires Valid() && 1 <= m <= FANOUT && c < |t.states| && t.states[c] == FREE
      modifies this`t, this`owner, this`arena, this`arenaHint, this`free, this`rsvd, this`full
      ensures lo.Some? <==> RecordsFor(old(t), old(arena), 1, |FreeCells(old(t))| - 1)
      ensures lo.Some? ==> lo.value == c * CELL
      ensures lo.Some? ==> Valid() && Handed(old(t), lo.value, m * FANOUT, claimed, FANOUT) && lo.value % FANOUT == 0
      ensures lo.Some? && claimed.Some? ==> FreeSlots(t, arena) != {}
      ensures lo.Some? ==> (claimed.Some? <==> |FreeSlots(old(t), old(arena))| < 1)
    {
      hide Tidy, Count, BlockAt, SlotUsed, FreeSlots, FreeCells, HousedFrom, RefinedTree, HasRun, Allocated, Claimed, TakenIn;
      FreeSlotsFinite(t, arena);
      var r;
      r, claimed := RefineL0(c);
      if r.None? {
        return None, None;
      }
      RefinedFacts(old(t), old(owner), t, r.value, L0(c), claimed);
      RoomLeft(old(t), t, old(arena), r.value, claimed, arena);
      TakeKids(r.value, 0, m, m * FANOUT, old(t), claimed, c * CELL);
      return Some(c * CELL), claimed;
    }

    /** n single blocks in a row, inside one 16-block child. */
    method AllocL2(n: nat) returns (lo: Option<nat>, ghost claimed: Option<nat>)
      requires Valid() && 1 <= n <= FANOUT
      modifies this`t, this`owner, this`arena, this`arenaHint, this`cellHint, this`free, this`rsvd, this`full
      ensures lo.Some? <==> CanAllocate(old(t), old(arena), n)
      ensures lo.Some? ==> Valid() && Handed(old(t), lo.value, n, claimed, 1)
      ensures lo.Some? ==> Preferred(old(t), lo.value, n) && (HasBlockRun(old(t), n) ==> claimed.None?)
      ensures lo.Some? && claimed.Some? ==> FreeSlots(t, arena) != {}
      ensures lo.Some? ==> (RecordLeft(t, arena) <==> OneMore(old(t), old(arena), n))
      ensures lo.Some? ==> (claimed.Some? <==> |FreeSlots(old(t), old(arena))| < RecordsTaken(old(t), n))
    {
      hide Tidy, Count, BlockAt, SlotUsed, FreeSlots, FreeCells, HousedFrom, RefinedTree, HasRun, Allocated, Claimed, TakenIn;
      hide HasPartRun, HasBlockRun, FirstPartRun, FirstBlockRun, LowestWhole;
      PartRunsAgree(t, owner, 1);
      BlockRunsAgree(t, owner, n);
      ValidFacts(t, owner, {});
      CellsCounted(t);
      // first look for m FREE blocks in a row where single blocks are told apart already
      var here := FindInKids(n);
      if here.Some? {
        var c, i, start := here.value.0, here.value.1, here.value.2;
        FoundInKid(t, owner, c, i, start, n);
        TakeBlocks(c, i, start, n);
        return Some(c * CELL + i * FANOUT + start), None;
      }
      // pass 2: refine a FREE child of a refined cell
      var at := FindInCells(1);
      if at.Some? {
        FoundInCell(t, owner, at.value.0, at.value.1, 1);
        lo, claimed := FreshKid(at.value.0, at.value.1, n);
        return;
      }
      // at last open up a whole FREE cell down to the blocks of its first child
      var c := FirstFreeCell();
      if c.None? {
        return None, None;
      }
      FoundWhole(t, owner, c.value);
      FreeCellKnown(t, c.value);
      lo, claimed := FreshCell(c.value, n);
    }

    /** Single blocks where single blocks are told apart already. */
    method TakeBlocks(c: nat, i: nat, start: nat, n: nat)
      requires Valid() && 1 <= n && KidWithRun(t, c, i, start, n)
      modifies this`t, this`cellHint, this`free, this`full
      ensures Valid() && Handed(old(t), c * CELL + i * FANOUT + start, n, None, 1)
      ensures FreeSlots(t, arena) == FreeSlots(old(t), arena) && FreeCells(t) == FreeCells(old(t))
    {
      hide Tidy, Count, BlockAt, SlotUsed, FreeSlots, FreeCells, HasRun, Allocated, Claimed, TakenIn;
      ValidFacts(t, owner, {});
      CellRecord(t, owner, {}, c);
      KidRecord(t, owner, {}, c, i);
      ClaimedNothing(t);
      var l1 := t.recs[t.refs[c]].refs[i];
      TidyWeaker(t, owner, {}, {l1});
      TakeKids(l1, start, n, n, t, None, c * CELL + i * FANOUT + start);
      cellHint := c;
    }

    /** Single blocks from a FREE child of a refined cell. */
    method FreshKid(c: nat, i: nat, n: nat) returns (lo: Option<nat>, ghost claimed: Option<nat>)
      requires Valid() && 1 <= n <= FANOUT && CellWithRun(t, c, i, 1)
      modifies this`t, this`owner, this`arena, this`arenaHint, this`cellHint, this`free, this`rsvd, this`full
      ensures lo.Some? <==> RecordsFor(old(t), old(arena), 1, |FreeCells(old(t))|)
      ensures lo.Some? ==> lo.value == c * CELL + i * FANOUT
      ensures lo.Some? ==> Valid() && Handed(old(t), lo.value, n, claimed, 1)
      ensures lo.Some? && claimed.Some? ==> FreeSlots(t, arena) != {}
      ensures lo.Some? ==> (RecordLeft(t, arena) <==> RecordsFor(old(t), old(arena), 2, |FreeCells(old(t))|))
      ensures lo.Some? ==> (claimed.Some? <==> |FreeSlots(old(t), old(arena))| < 1)
    {
      hide Tidy, Count, BlockAt, SlotUsed, FreeSlots, FreeCells, HousedFrom, RefinedTree, HasRun, Allocated, Claimed, TakenIn;
      ValidFacts(t, owner, {});
      CellRecord(t, owner, {}, c);
      FirstRun(t.recs[t.refs[c]], i);
      TidyWeaker(t, owner, {}, {t.refs[c]});
      var l1;
      l1, claimed := RefineL1(t.refs[c], i);
      if l1.None? {
        return None, None;
      }
      RefinedFacts(old(t), old(owner), t, l1.value, L1(c, i), claimed);
      RoomLeft(old(t), t, old(arena), l1.value, claimed, arena);
      TakeKids(l1.value, 0, n, n, old(t), claimed, c * CELL + i * FANOUT);
      cellHint := c;
      return Some(c * CELL + i * FANOUT), claimed;
    }

    /** Single blocks from a FREE cell: refine it and its first child. */
    method FreshCell(c: nat, n: nat) returns (lo: Option<nat>, ghost claimed: Option<nat>)
      requires Valid() && 1 <= n <= FANOUT && c < |t.states| && t.states[c] == FREE
      modifies this`t, this`owner, this`arena, this`arenaHint, this`free, this`rsvd, this`full
      ensures lo.Some? <==> RecordsFor(old(t), old(arena), 2, |FreeCells(old(t))| - 1)
      ensures lo.Some? ==> lo.value == c * CELL
      ensures lo.Some? ==> Valid() && Handed(old(t), lo.value, n, claimed, 1)
      ensures lo.Some? && claimed.Some? ==> FreeSlots(t, arena) != {}
      ensures lo.Some? ==> (RecordLeft(t, arena) <==> RecordsFor(old(t), old(arena), 3, |FreeCells(old(t))| - 1))
      ensures lo.Some? ==> (claimed.Some? <==> |FreeSlots(old(t), old(arena))| < 2)
    {
      hide Tidy, Count, BlockAt, SlotUsed, FreeSlots, FreeCells, HousedFrom, RefinedTree, HasRun, Allocated, Claimed, TakenIn;
      FreeSlotsFinite(t, arena);
      ValidFacts(t, owner, {});
      var l0;
      l0, claimed := RefineL0(c);
      if l0.None? {
        return None, None;
      }
      ghost var mid, midOwner, first := t, owner, claimed;
      RefinedFacts(old(t), old(owner), mid, l0.value, L0(c), first);
      SecondRecord(old(t), mid, old(arena), arena, c, l0.value, first);
      ghost var midArena := arena;
      var l1;
      l1, claimed := RefineL1(l0.value, 0);
      if l1.None? {
        return None, None;
      }
      RefinedFacts(mid, midOwner, t, l1.value, L1(c, 0), claimed);
      RoomLeft(mid, t, midArena, l1.value, claimed, arena);
      ClaimedTwice(old(t), mid, t, c, l0.value, first, claimed);
      claimed := if first.Some? then first else claimed;
      TakeKids(l1.value, 0, n, n, old(t), claimed, c * CELL);
      return Some(c * CELL), claimed;
    }

    /** Allocate at least n blocks in a row, in units that depend on n only. */
    method AllocExtent(n: nat) returns (lo: Option<nat>, ghost claimed: Option<nat>)
      requires Valid() && n >= 1
      modifies this`t, this`owner, this`arena, this`arenaHint, this`cellHint, this`free, this`rsvd, this`full
      ensures lo.Some? <==> Obtainable(old(t), old(arena), n)
      ensures lo.Some? ==> Valid() && Handed(old(t), lo.value, Rounded(n), claimed, GranuleFor(n))
      ensures lo.Some? ==> Preferred(old(t), lo.value, n)
      ensures lo.Some? ==> Aligned(lo.value, GranuleFor(n))
      ensures lo.Some? ==> Step(old(t), t, Event.Extent(lo.value, n, claimed))
      ensures lo.Some? && claimed.Some? ==> FreeSlots(t, arena) != {}
      ensures lo.Some? && n <= FANOUT ==> (RecordLeft(t, arena) <==> OneMore(old(t), old(arena), n))
      ensures lo.Some? ==> (claimed.Some? <==> |FreeSlots(old(t), old(arena))| < RecordsTaken(old(t), n))
    {
      hide Tidy, Count, Allocated, TakenIn, HasCellRun, CanAllocateKids, FreeSlots, FreeCells, OneMore, RunBelow, Obtainable, GroupsObtainable;
      hide HasPartRun, HasBlockRun, FirstPartRun, FirstBlockRun, LowestWhole, CellsRun;
      ObtainableExactlyWhen(t, owner, arena, n);
      claimed := None;
      if n >= CELL {
        var k := (n + CELL - 1) / CELL;
        lo := AllocL0(k);
        if lo.Some? {
          assert Rounded(n) == k * CELL;
          FoundCells(old(t), old(owner), lo.value / CELL, k);
        }
      } else if n > FANOUT {
        GroupsExactlyWhen(t, owner, arena, (n + FANOUT - 1) / FANOUT);
        lo, claimed := AllocL1((n + FANOUT - 1) / FANOUT);
      } else {
        lo, claimed := AllocL2(n);
      }
    }

    // --- freeing and coarsening --------------------------------------------------------------------

    /**
    Free n blocks from lo on, by whole granules as the tables tell them. It works exactly when
    the range starts on a granule and is allocated throughout; it frees exactly the granules touched.
    */
    method FreeExtent(lo: nat, n: nat) returns (r: Result<(), AllocError>)
      requires Valid() && lo + n <= t.length
      modifies this`t, this`owner, this`free, this`full
      ensures r.Ok? <==> Freeable(old(t), lo, n)
      ensures r.Ok? ==> Valid() && lo <= CoverEnd(old(t), lo, n) && Freed(old(t), t, lo, CoverEnd(old(t), lo, n) - lo)
      ensures r.Ok? ==> Step(old(t), t, Event.Release(lo, n))
    {
      hide Tidy, Count, BlockAt, SlotUsed, Granule;
      var cur := 0;
      ghost var before, wasOwner := t, owner;
      TidyParts(before, owner, {});
      while cur < n
        invariant Valid() && Freed(before, t, lo, cur)
        invariant cur > 0 ==> Aligned(lo, Granule(before, lo))
        invariant cur > 0 ==> Aligned(lo + cur, Granule(before, lo + cur))
        invariant forall b: nat :: lo <= b < lo + cur ==> BlockAt(before, b) == Full
        invariant cur >= n > 0 ==> CoverEnd(before, lo, n) == lo + cur
        invariant n == 0 ==> cur == 0
      {
        var p := lo + cur;
        ghost var mid := t;
        var g := FreeAt(p);
        if g.Err? {
          return Err(g.error);
        }
        assert BlockAt(before, p) == Full && Granule(before, p) == Granule(mid, p);
        GranuleWhole(before, wasOwner, p);
        NextAligned(before, p);
        FreedThen(before, mid, t, lo, cur, g.value);
        cur := cur + g.value;
      }
      return Ok(());
    }

    /** Free the granule that starts at block p. */
    method FreeAt(p: nat) returns (g: Result<nat, AllocError>)
      requires Valid() && p < t.length
      modifies this`t, this`owner, this`free, this`full
      ensures g.Ok? <==> BlockAt(old(t), p) == Full && Aligned(p, Granule(old(t), p))
      ensures g.Ok? ==> g.value == Granule(old(t), p) > 0
      ensures g.Ok? ==> Valid() && Freed(old(t), t, p, g.value)
    {
      hide Tidy, Count, BlockAt, SlotUsed, Granule, At, KidState, Freed, MarkCell;
      ghost var before := t;
      WhatIsAt(t, owner, p);
      TidyParts(t, owner, {});
      var c := p / CELL;
      match t.states[c] {
        case FREE => return Err(NotAllocated);
        case RSVD => return Err(NotAllocated);
        case FULL =>
          if p % CELL != 0 {
            return Err(Misaligned);
          }
          FreeCellStep(t, owner, c);
          MarkCellParts(t, c, FREE);
          t := MarkCell(t, c, FREE);
          g := Ok(CELL);
        case REFINED =>
          g := FreeInCell(c, p);
          if g.Err? {
            return;
          }
      }
      if Aligned(p, Granule(before, p)) {
        GranuleWhole(before, old(owner), p);
        CountsFreed(before, t, p, g.value);
      }
      free := free + g.value;
      full := full - g.value;
    }

    /** The same inside a refined cell, with coarsening; the counters are the caller's. */
    method FreeInCell(c: nat, p: nat) returns (g: Result<nat, AllocError>)
      requires Tidy(t, owner, {}) && ArenaOk() && p < t.length && c == p / CELL < |t.states| && t.states[c] == REFINED
      modifies this`t, this`owner
      ensures g.Ok? <==> BlockAt(old(t), p) == Full && Aligned(p, Granule(old(t), p))
      ensures g.Ok? ==> g.value == Granule(old(t), p) > 0
      ensures g.Ok? ==> Tidy(t, owner, {}) && ArenaOk() && Freed(old(t), t, p, g.value)
    {
      hide Tidy, Count, BlockAt, SlotUsed, Granule, At, KidState, Freed, DropKid;
      ghost var before := t;
      WhatIsAt(t, owner, p);
      var l0, i := t.refs[c], p % CELL / FANOUT;
      match t.recs[l0].states[i] {
        case FREE => return Err(NotAllocated);
        case RSVD => return Err(NotAllocated);
        case FULL =>
          if p % FANOUT != 0 {
            return Err(Misaligned);
          }
          FreeKidStep(t, owner, l0, i);
          t := WithRec(t, l0, MarkKids(t.recs[l0], i, 1, FREE));
          g := Ok(FANOUT);
        case REFINED =>
          var l1, j := t.recs[l0].refs[i], p % FANOUT;
          if t.recs[l1].states[j] != FULL {
            return Err(NotAllocated);
          }
          FreeKidStep(t, owner, l1, j);
          t := WithRec(t, l1, MarkKids(t.recs[l1], j, 1, FREE));
          if t.recs[l1].All(FREE) {
            // coarsen: the child goes back to FREE
            CoarsenKid(c, l0, i, l1, before, p);
          }
          g := Ok(1);
      }
      // with all children FREE the record says no more than the cell can
      CoarsenCell(c, before, p, g.value);
    }

    /** Release an emptied record of single blocks. */
    method CoarsenKid(c: nat, l0: Ref, i: nat, l1: Ref, ghost before: Tree, ghost p: nat)
      requires c < |t.states| == |t.refs| && t.states[c] == REFINED && t.refs[c] == l0 && i < FANOUT
      requires l0 in t.recs && t.recs[l0].Ok() && t.recs[l0].states[i] == REFINED && t.recs[l0].refs[i] == l1
      requires l1 in t.recs && t.recs[l1].All(FREE) && Freed(before, t, p, 1)
      requires Tidy(t, owner, {l1})
      modifies this`t, this`owner
      ensures t.states == old(t).states && t.refs == old(t).refs && l0 in t.recs && t.recs[l0].Ok()
      ensures Tidy(t, owner, if t.recs[l0].All(FREE) then {l0} else {}) && Freed(before, t, p, 1)
    {
      hide Tidy, BlockAt, SlotUsed, Granule, At, KidState, Freed;
      CellRecord(t, owner, {l1}, c);
      KidRecord(t, owner, {l1}, c, i);
      ghost var mid := t;
      ValidFacts(t, owner, {l1});
      DropKidStep(t, owner, l0, i, l1);
      t := DropKid(t, l0, i, l1, FREE);
      owner := owner - {l1};
      FreedNothing(mid, t, FirstBlock(L0(c), i), p + 1);
      FreedThen(before, mid, t, p, 1, 0);
    }

    /** Release the record of a cell if it is empty. */
    method CoarsenCell(c: nat, ghost before: Tree, ghost p: nat, ghost n: nat)
      requires ArenaOk() && c < |t.states| == |t.refs| && t.states[c] == REFINED && t.refs[c] in t.recs
      requires t.recs[t.refs[c]].Ok() && Freed(before, t, p, n)
      requires Tidy(t, owner, if t.recs[t.refs[c]].All(FREE) then {t.refs[c]} else {})
      modifies this`t, this`owner
      ensures Tidy(t, owner, {}) && ArenaOk() && Freed(before, t, p, n)
    {
      hide Tidy, BlockAt, SlotUsed, Granule, At, KidState, Freed;
      var l0 := t.refs[c];
      if t.recs[l0].All(FREE) {
        ghost var mid := t;
        CellRecord(t, owner, {l0}, c);
        DropCellStep(t, owner, c, l0);
        t := DropCell(t, c, l0, FREE);
        owner := owner - {l0};
        FreedNothing(mid, t, 0, p + n);
        FreedThen(before, mid, t, p, n, 0);
      }
    }

    // --- inode slots ---------------------------------------------------------------------------------

    /** Allocate an inode slot: one of the hinted slot block, or the first of a new one. */
    method AllocInode() returns (ino: Option<nat>, ghost claimed: Option<nat>)
      requires Valid()
      modifies this
      ensures ino.Some? <==> (old(inoHint) != 0 && SlotLeft(old(t), old(inoHint))) || SlotBlockObtainable(old(t), old(arena))
      ensures ino.Some? ==> Valid() && t.length == old(t).length
      ensures ino.Some? ==> !SlotUsed(old(t), ino.value) && SlotSet(old(t), t, ino.value, true)
      ensures ino.Some? ==> SlotBlockAt(old(t), t, ino.value / FANOUT, claimed)
      ensures ino.Some? ==> inoHint == ino.value / FANOUT
      ensures ino.Some? && old(inoHint) != 0 && SlotLeft(old(t), old(inoHint)) ==>
        inoHint == old(inoHint) && claimed.None? && FirstSlotLeft(old(t), ino.value) && arena == old(arena)
      ensures ino.Some? && !(old(inoHint) != 0 && SlotLeft(old(t), old(inoHint))) ==>
        ino.value % FANOUT == 0 && Preferred(old(t), ino.value / FANOUT, 1)
      ensures ino.Some? ==> Step(old(t), t, Event.Inode(ino.value, claimed))
    {
      hide Tidy, Count, BlockAt, SlotUsed, Granule, SlotRec, SlotFree, FreeSlots, FreeCells, CanAllocate, OneMore, Allocated, TakenIn, SlotSet;
      hide SlotLeft, SlotBlockObtainable, Obtainable, FirstSlotLeft, Preferred, RecordsTaken;
      SlotFreeExactlyWhen(t, owner, inoHint);
      SlotBlockExactlyWhen(t, owner, arena);
      ObtainableExactlyWhen(t, owner, arena, 1);
      claimed := None;
      if inoHint != 0 {
        ino := SlotInHint();
        if ino.Some? {
          return;
        }
      }
      // no slot block has a slot left: a single block becomes one
      var lo;
      lo, claimed := AllocExtent(1);
      if lo.None? {
        return None, claimed;
      }
      ghost var mid := t;
      ghost var took := claimed;
      TookOne(old(t), mid, lo.value, took);
      ino, claimed := RefineBlock(lo.value);
      NewSlotBlock(old(t), old(owner), mid, t, lo.value, took, claimed);
      if ino.Some? {
        inoHint := lo.value;
      }
      claimed := if took.Some? then took else claimed;
    }

    /** A FREE slot of the hinted block. */
    method SlotInHint() returns (ino: Option<nat>)
      requires Valid()
      modifies this`t
      ensures ino.None? ==> t == old(t)
      ensures ino.Some? <==> SlotFree(old(t), inoHint)
      ensures ino.Some? ==> Valid() && t.length == old(t).length && SlotBlockAt(old(t), t, ino.value / FANOUT, None)
      ensures ino.Some? ==> !SlotUsed(old(t), ino.value) && SlotSet(old(t), t, ino.value, true)
      ensures ino.Some? ==> ino.value / FANOUT == inoHint && FirstSlotLeft(old(t), ino.value)
    {
      hide Tidy, Count, BlockAt, Granule, SlotRec, SlotFree, SlotSet, At, FirstSlotLeft;
      var l3 := SlotRec(t, inoHint);
      SlotFreeMeans(t, inoHint);
      if l3.None? {
        return None;
      }
      SlotRecInside(t, owner, inoHint);
      SlotPlace(t, owner, inoHint);
      var s := FindRun(t.recs[l3.value], 1);
      if s.None? {
        return None;
      }
      FirstRun(t.recs[l3.value], s.value);
      ino := Some(SlotNumber(inoHint, s.value));
      SlotsBefore(t, owner, inoHint, s.value);
      TidyParts(t, owner, {});
      OwnKid(t, owner, l3.value, s.value);
      MarkSlot(t, owner, ino.value, l3.value, FULL);
      ghost var before := t;
      MarkRun(l3.value, s.value, 1);
      assert !t.recs[l3.value].All(FREE) by { assert t.recs[l3.value].states[s.value] == FULL; }
      CountSame3(before, t);
    }

    /** Give a FULL single block a slot record with its first slot in use. */
    method RefineBlock(b: nat) returns (ino: Option<nat>, ghost claimed: Option<nat>)
      requires Valid() && b < t.length && BlockAt(t, b) == Full && Granule(t, b) == 1
      modifies this`t, this`owner, this`arena, this`arenaHint, this`free, this`rsvd
      ensures claimed.Some? ==> FreeSlots(old(t), old(arena)) == {}
      ensures ino.Some? <==> RecordLeft(old(t), old(arena))
      ensures ino.Some? ==> ino.value == b * FANOUT && Valid() && SlotsMade(old(t), t, b, claimed)
    {
      hide Tidy, Housed, Count, BlockAt, SlotUsed, Granule, At, FreshRef, RefineKid, Claim, FreeSlots, FreeCells, SlotSet, Claimed;
      ghost var before := t;
      CellsCounted(t);
      FreeSlotsFinite(t, arena);
      ValidFacts(t, owner, {});
      WhatIsAt(t, owner, b);
      var l1, j := t.recs[t.refs[b / CELL]].refs[b % CELL / FANOUT], b % FANOUT;
      var r;
      r, claimed := TblAllocRec();
      if r.None? {
        return None, claimed;
      }
      ghost var after := t;
      ClaimKeeps(before, after, l1, r.value, claimed, arena);
      var rec := t.recs[l1];
      t := WithRec(t, l1, Rec(rec.states[j := REFINED], rec.refs[j := r.value]));
      t := WithRec(t, r.value, FirstSlot());
      owner := owner[r.value := L3(b / CELL, b % CELL / FANOUT, b % FANOUT)];
      SlotClaim(before, after, t, l1, j, r.value, claimed, arena);
      SlotsWhole(before, old(owner), b, l1, r.value, claimed, t);
      ino := Some(b * FANOUT);
    }

    /** The slot becomes FREE, and with the last used slot of its block the block does. */
    method FreeInode(ino: nat) returns (r: Result<(), AllocError>)
      requires Valid() && ino / FANOUT < t.length
      modifies this`t, this`owner, this`free, this`full, this`inoHint
      ensures r.Ok? <==> BlockAt(old(t), ino / FANOUT) == Slots
      ensures r.Ok? ==> Valid() && t.length == old(t).length && SlotSet(old(t), t, ino, false) && SameUnits(old(t), t)
      ensures r.Ok? ==> if LastSlot(old(t), ino) then RangeBecomes(old(t), t, ino / FANOUT, 1, Free) else SameBlocks(old(t), t)
      ensures r.Ok? ==>
        inoHint == if !LastSlot(old(t), ino) then ino / FANOUT else if old(inoHint) == ino / FANOUT then 0 else old(inoHint)
      ensures r.Ok? ==> Step(old(t), t, Event.Forget(ino))
    {
      hide Tidy, Count, BlockAt, SlotUsed, Granule, SlotRec, KidRec, At, SlotSet, DropKid, Freed, LastSlot, Freeable, CoverEnd;
      var b, s := ino / FANOUT, ino % FANOUT;
      SlotPlace(t, owner, b);
      TidyParts(t, owner, {});
      if SlotRec(t, b).None? {
        return Err(NotASlotBlock);
      }
      var l3, l1 := SlotRec(t, b).value, KidRec(t, b).value;
      ghost var before := t;
      MarkSlot(t, owner, ino, l3, FREE);
      LastSlotMeans(t, owner, ino, l3);
      t := WithRec(t, l3, MarkKids(t.recs[l3], s, 1, FREE));
      ghost var marked := t;
      if t.recs[l3].All(FREE) {
        // drop the slot record, return the block to the allocator as a plain one
        MarkedPlace(before, marked, owner, b, l3, l1);
        DropSlots(t, owner, b, l1, l3);
        t := DropKid(t, l1, b % FANOUT, l3, FULL);
        owner := owner - {l3};
        SlotBlockCounts(before, marked, t, b);
        ghost var dropped := t;
        SingleIsFreeable(t, b);
        r := FreeExtent(b, 1);
        SlotGone(before, marked, dropped, t, b, ino);
        if inoHint == b {
          inoHint := 0;
        }
      } else {
        CountSame3(before, t);
        inoHint := b;
        r := Ok(());
      }
    }

    /** The unit the run starting at a block was allocated in. */
    method GranuleAt(b: nat) returns (g: Result<nat, AllocError>)
      requires Valid() && b < t.length
      ensures g.Ok? ==> g.value == Granule(t, b)
      ensures g.Ok? <==> BlockAt(t, b) == Full || BlockAt(t, b) == Slots || Granule(t, b) == 1
      ensures g.Ok? && g.value > 1 ==> BlockAt(t, b) == Full
    {
      hide Tidy, Count;
      WhatIsAt(t, owner, b);
      var c, i := b / CELL, b % CELL / FANOUT;
      match t.states[c] {
        case FULL => return Ok(CELL);
        case REFINED =>
          match t.recs[t.refs[c]].states[i] {
            case FULL => return Ok(FANOUT);
            case REFINED => return Ok(1);
            case _ => return Err(NotAllocated);
          }
        case _ => return Err(NotAllocated);
      }
    }

    /** The place is refined with the empty record r; only a claimed cell changed otherwise. */
    ghost predicate Refined(before: Tree, o: map<Ref, Place>, r: Ref, p: Place, claimed: Option<nat>)
      reads this
    {
      RefinedTree(before, o, t, r, p, claimed) && owner == o[r := p] && Counted() && ArenaOk()
    }

    /** Blocks lo..lo+n were handed out in units of g, and nothing but a claimed cell moved besides. */
    ghost predicate Handed(before: Tree, lo: nat, n: nat, claimed: Option<nat>, g: nat)
      reads this`t
    {
      Allocated(before, t, lo, n, claimed) && TakenIn(t, lo, n, g) && t.length == before.length
    }

    /** Children start..start+m of record r are FREE and cover the given number of blocks from lo on. */
    ghost predicate Takeable(r: Ref, start: nat, m: nat, blocks: nat, lo: nat)
      reads this`t, this`owner
    {
      && r in t.recs && r in owner && t.recs[r].Ok() && !owner[r].L3? && blocks == Span(owner[r], m)
      && 1 <= m && start + m <= FANOUT && RunAt(t.recs[r], start, m) && lo == FirstBlock(owner[r], start)
      && Tidy(t, owner, {r})
    }

    ghost predicate ClaimedFrom(before: Tree, claimed: Option<nat>)
      reads this`t
    {
      Claimed(before, t, claimed) && t.length == before.length
    }

    ghost predicate Housing(before: Tree, wasArena: nat, r: Ref, claimed: Option<nat>)
      reads this`t, this`arena
    {
      HousedFrom(before, t, wasArena, r, claimed, arena)
    }
  }
}
