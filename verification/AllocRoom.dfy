/**
When an allocation can be had, told from the states of blocks alone: which runs of free blocks count,
and when the records that a refinement needs can be had as well.
*/
module AllocRoom {
  import opened Wrappers
  import opened AllocTree
  import opened AllocOps
  import opened AllocCount
  import opened AllocSpec
  import opened FreeSpec
  import opened SlotSpec

  /** n free blocks from b on. */
  ghost predicate FreeRun(t: Tree, b: nat, n: nat) {
    forall x: nat :: b <= x < b + n ==> BlockAt(t, x) == Free
  }

  /** Whole free cells from c on, as many as len blocks take. */
  ghost predicate CellsRun(t: Tree, c: nat, len: nat) {
    FreeRun(t, c * CELL, len)
  }

  ghost predicate FreeCellAt(t: Tree, c: nat) {
    FreeRun(t, c * CELL, CELL)
  }

  /** Aligned stretches of 256 free blocks. */
  ghost function WholeCells(t: Tree): set<nat> {
    set c | 0 <= c < Cells(t.length) && FreeCellAt(t, c)
  }

  /** Free blocks from a multiple of 16 on, inside one cell that is in use elsewhere. */
  ghost predicate PartRun(t: Tree, b: nat, len: nat) {
    b % FANOUT == 0 && b % CELL + len <= CELL && FreeRun(t, b, len) && !FreeCellAt(t, b / CELL)
  }

  ghost predicate HasPartRun(t: Tree, len: nat) {
    exists b: nat :: PartRun(t, b, len)
  }

  /** Free blocks inside one aligned group of 16 that is in use elsewhere. */
  ghost predicate BlockRun(t: Tree, b: nat, n: nat) {
    b % FANOUT + n <= FANOUT && FreeRun(t, b, n) && !FreeRun(t, b / FANOUT * FANOUT, FANOUT)
  }

  ghost predicate HasBlockRun(t: Tree, n: nat) {
    exists b: nat :: BlockRun(t, b, n)
  }

  /** Records to be had: unused ones of the arena, or a whole free cell to become the next arena. */
  ghost predicate Records(t: Tree, arena: nat, k: nat, cells: int) {
    cells >= 1 || |FreeSlots(t, arena)| >= k
  }

  /** Whole groups of 16 can be had: in a cell in use, or in a whole free one, which takes a record. */
  ghost predicate GroupsObtainable(t: Tree, arena: nat, len: nat) {
    var whole := |WholeCells(t)|;
    HasPartRun(t, len) || (whole >= 1 && Records(t, arena, 1, whole - 1))
  }

  /**
  An allocation of n can be had. 256 blocks or more take whole free cells in a row. Fewer take part of a
  cell in use, or open up a whole free one, which takes a record; 16 or fewer take part of a group of
  blocks in use, or open up a free group, or a whole cell and then a group.
  */
  ghost predicate Obtainable(t: Tree, arena: nat, n: nat) {
    var whole := |WholeCells(t)|;
    if n >= CELL then exists c: nat :: CellsRun(t, c, Rounded(n))
    else if n > FANOUT then GroupsObtainable(t, arena, Rounded(n))
    else if HasBlockRun(t, n) then true
    else if HasPartRun(t, FANOUT) then Records(t, arena, 1, whole)
    else whole >= 1 && Records(t, arena, 2, whole - 1)
  }

  // --- which of the runs is taken -----------------------------------------------------------------

  /** The first such run of its cell. */
  ghost predicate FirstPartRun(t: Tree, b: nat, len: nat) {
    PartRun(t, b, len) && forall x: nat :: x < b && x / CELL == b / CELL ==> !PartRun(t, x, len)
  }

  /** The first such run of its group. */
  ghost predicate FirstBlockRun(t: Tree, b: nat, n: nat) {
    BlockRun(t, b, n) && forall x: nat :: x < b && x / FANOUT == b / FANOUT ==> !BlockRun(t, x, n)
  }

  ghost predicate LowestWhole(t: Tree, b: nat) {
    b % CELL == 0 && FreeCellAt(t, b / CELL) && forall x: nat :: x < b / CELL ==> !FreeCellAt(t, x)
  }

  /**
  What is in use already is filled up before anything is opened: a free group or cell stays whole as
  long as a smaller place does. Which of several cells in use it is depends on the scan hint.
  */
  ghost predicate Preferred(t: Tree, lo: nat, n: nat) {
    if n >= CELL then lo % CELL == 0 && forall c: nat :: c < lo / CELL ==> !CellsRun(t, c, Rounded(n))
    else if n > FANOUT then
      if HasPartRun(t, Rounded(n)) then FirstPartRun(t, lo, Rounded(n)) else LowestWhole(t, lo)
    else if HasBlockRun(t, n) then FirstBlockRun(t, lo, n)
    else if HasPartRun(t, FANOUT) then FirstPartRun(t, lo, FANOUT)
    else LowestWhole(t, lo)
  }

  /** The records an allocation needs: none where there is room already, two for blocks of a whole free cell. */
  ghost function RecordsTaken(t: Tree, n: nat): nat {
    if n >= CELL then 0
    else if n > FANOUT then (if HasPartRun(t, Rounded(n)) then 0 else 1)
    else if HasBlockRun(t, n) then 0
    else if HasPartRun(t, FANOUT) then 1
    else 2
  }

  /** One of the sixteen slots of a slot block is not in use. */
  ghost predicate SlotLeft(t: Tree, b: nat) {
    b < t.length && BlockAt(t, b) == Slots && exists k: nat :: k < FANOUT && !SlotUsed(t, SlotNumber(b, k))
  }

  /** The slots of its block before this one are in use. */
  ghost predicate FirstSlotLeft(t: Tree, ino: nat) {
    forall k: nat :: k < ino % FANOUT ==> SlotUsed(t, SlotNumber(ino / FANOUT, k))
  }

  /** A single block can be had, and one more record to divide it into slots. */
  ghost predicate SlotBlockObtainable(t: Tree, arena: nat) {
    var whole := |WholeCells(t)|;
    if HasBlockRun(t, 1) then Records(t, arena, 1, whole)
    else if HasPartRun(t, FANOUT) then Records(t, arena, 2, whole)
    else whole >= 1 && Records(t, arena, 3, whole - 1)
  }

  // --- blocks and coordinates -----------------------------------------------------------------------

  function Number(c: nat, i: nat, j: nat): nat {
    c * CELL + i * FANOUT + j
  }

  lemma Coords(c: nat, i: nat, j: nat)
    requires i < FANOUT && j < FANOUT
    ensures var b := Number(c, i, j);
      b / CELL == c && b % CELL == i * FANOUT + j && b % CELL / FANOUT == i && b % FANOUT == j && b / FANOUT * FANOUT == Number(c, i, 0)
  {
    InSixteen(16 * c + i, j);
    InSixteen(i, j);
    InCell(c, i * FANOUT + j);
    assert Number(c, i, j) == 16 * (16 * c + i) + j == 256 * c + (i * 16 + j);
  }

  lemma InSixteen(q: nat, j: nat)
    requires j < 16
    ensures (16 * q + j) / 16 == q && (16 * q + j) % 16 == j
  {
  }

  lemma InCell(c: nat, x: nat)
    requires x < 256
    ensures (256 * c + x) / 256 == c && (256 * c + x) % 256 == x
  {
  }

  lemma NumberOf(b: nat)
    ensures var c, i, j := b / CELL, b % CELL / FANOUT, b % FANOUT;
      i < FANOUT && j < FANOUT && b == Number(c, i, j) && b / FANOUT * FANOUT == Number(c, i, 0)
      && b % CELL == i * FANOUT + j
  {
    Coordinates(b);
    Coords(b / CELL, b % CELL / FANOUT, b % FANOUT);
  }

  // --- what free stretches say about the states ---------------------------------------------------

  /** A record of single blocks or of groups that hangs in the tree is not all FREE. */
  lemma SomeUsed(t: Tree, owner: map<Ref, Place>, r: Ref) returns (k: nat)
    requires Tidy(t, owner, {}) && r in t.recs
    ensures t.recs[r].Ok() && k < FANOUT && t.recs[r].states[k] != FREE && t.recs[r].states[k] != RSVD
  {
    k :| 0 <= k < FANOUT && t.recs[r].states[k] != FREE;
  }

  lemma KidIs(t: Tree, owner: map<Ref, Place>, c: nat, i: nat)
    requires Tidy(t, owner, {}) && c < |t.states| && t.states[c] == REFINED && i < FANOUT
    ensures |t.refs| == |t.states| && t.refs[c] in t.recs && t.recs[t.refs[c]].Ok()
    ensures FreeRun(t, Number(c, i, 0), FANOUT) <==> t.recs[t.refs[c]].states[i] == FREE
  {
    hide At, BlockAt, Granule;
    Coords(c, i, 0);
    InsideCell(t, owner, c, Number(c, i, 0));
    WhatIsAt(t, owner, Number(c, i, 0));
    var s := t.recs[t.refs[c]].states[i];
    if s == FREE {
      forall x: nat | Number(c, i, 0) <= x < Number(c, i, 0) + FANOUT ensures BlockAt(t, x) == Free {
        Coords(c, i, x - Number(c, i, 0));
        InsideCell(t, owner, c, x);
        WhatIsAt(t, owner, x);
      }
    } else if s == REFINED {
      var j := SomeUsed(t, owner, t.recs[t.refs[c]].refs[i]);
      Coords(c, i, j);
      InsideCell(t, owner, c, Number(c, i, j));
      WhatIsAt(t, owner, Number(c, i, j));
    }
  }

  lemma InsideCell(t: Tree, owner: map<Ref, Place>, c: nat, b: nat)
    requires Tidy(t, owner, {}) && c < |t.states| && t.states[c] != RSVD && c * CELL <= b < c * CELL + CELL
    ensures b < t.length
  {
    ValidFacts(t, owner, {});
  }

  lemma CellIs(t: Tree, owner: map<Ref, Place>, c: nat)
    requires Tidy(t, owner, {})
    ensures FreeCellAt(t, c) <==> c < |t.states| && t.states[c] == FREE
  {
    hide Tidy, KidState, Granule;
    Coords(c, 0, 0);
    if c >= |t.states| {
      assert BlockAt(t, Number(c, 0, 0)) == Reserved;
    } else {
      if t.states[c] == REFINED {
        KidIs(t, owner, c, 0);
        var i := SomeUsed(t, owner, t.refs[c]);
        KidIs(t, owner, c, i);
        assert !FreeRun(t, Number(c, i, 0), FANOUT);
      } else {
        NotInPlainCell(t, owner, c, 0, 0);
        assert Number(c, 0, 0) == c * CELL;
        if t.states[c] == FREE {
          forall x: nat | c * CELL <= x < c * CELL + CELL ensures BlockAt(t, x) == Free {
            assert x / CELL == c;
          }
        }
      }
    }
  }

  /** Groups in a row are free exactly if each is. */
  lemma RowOfKids(t: Tree, c: nat, i: nat, m: nat)
    ensures FreeRun(t, Number(c, i, 0), m * FANOUT) <==> forall k: nat :: i <= k < i + m ==> FreeRun(t, Number(c, k, 0), FANOUT)
  {
    hide BlockAt;
    if forall k: nat :: i <= k < i + m ==> FreeRun(t, Number(c, k, 0), FANOUT) {
      forall x: nat | Number(c, i, 0) <= x < Number(c, i, 0) + m * FANOUT ensures BlockAt(t, x) == Free {
        var k := i + (x - Number(c, i, 0)) / FANOUT;
        assert FreeRun(t, Number(c, k, 0), FANOUT) && Number(c, k, 0) <= x < Number(c, k, 0) + FANOUT;
      }
    }
  }

  lemma RunInCell(t: Tree, owner: map<Ref, Place>, c: nat, m: nat)
    requires Tidy(t, owner, {}) && 1 <= m <= FANOUT
    ensures RunBelow(t, L0(c), m) <==>
      !FreeCellAt(t, c) && exists i: nat :: i + m <= FANOUT && FreeRun(t, Number(c, i, 0), m * FANOUT)
  {
    hide Tidy, BlockAt, FreeCellAt;
    CellIs(t, owner, c);
    ValidFacts(t, owner, {});
    if c < |t.states| && t.states[c] == REFINED {
      KidIs(t, owner, c, 0);
      forall i: nat | i < FANOUT ensures FreeRun(t, Number(c, i, 0), FANOUT) <==> t.recs[t.refs[c]].states[i] == FREE {
        KidIs(t, owner, c, i);
      }
      var rec := t.recs[t.refs[c]];
      forall i: nat | i + m <= FANOUT ensures RunAt(rec, i, m) <==> FreeRun(t, Number(c, i, 0), m * FANOUT) {
        RowOfKids(t, c, i, m);
      }
      if i: nat :| RunAt(rec, i, m) {
        assert i + m <= FANOUT;
      }
    } else if i: nat :| i + m <= FANOUT && FreeRun(t, Number(c, i, 0), m * FANOUT) {
      NotInPlainCell(t, owner, c, i, 0);
      assert BlockAt(t, Number(c, i, 0)) == Free;
    }
  }

  /** Where a cell is not refined, its blocks are all as its state says. */
  lemma NotInPlainCell(t: Tree, owner: map<Ref, Place>, c: nat, i: nat, j: nat)
    requires Tidy(t, owner, {}) && i < FANOUT && j < FANOUT && (c < |t.states| ==> t.states[c] != REFINED)
    ensures BlockAt(t, Number(c, i, j)) == Free <==> c < |t.states| && t.states[c] == FREE
  {
    hide KidState;
    Coords(c, i, j);
  }

  lemma RunInKid(t: Tree, owner: map<Ref, Place>, c: nat, i: nat, n: nat)
    requires Tidy(t, owner, {}) && 1 <= n <= FANOUT && i < FANOUT
    ensures RunBelow(t, L1(c, i), n) <==>
      !FreeRun(t, Number(c, i, 0), FANOUT) && exists j: nat :: j + n <= FANOUT && FreeRun(t, Number(c, i, j), n)
  {
    hide Tidy, BlockAt;
    ValidFacts(t, owner, {});
    if c < |t.states| && t.states[c] == REFINED {
      KidIs(t, owner, c, i);
      var s := t.recs[t.refs[c]].states[i];
      if s == REFINED {
        KidRecord(t, owner, {}, c, i);
        var rec := t.recs[t.recs[t.refs[c]].refs[i]];
        forall j: nat | j < FANOUT ensures BlockAt(t, Number(c, i, j)) == Free <==> rec.states[j] == FREE {
          SingleBlock(t, owner, c, i, j);
        }
        forall j: nat | j + n <= FANOUT ensures RunAt(rec, j, n) <==> FreeRun(t, Number(c, i, j), n) {
          SinglesInRow(t, c, i, j, n, rec);
        }
        if j: nat :| RunAt(rec, j, n) {
          assert j + n <= FANOUT;
        }
      } else if j: nat :| j + n <= FANOUT && FreeRun(t, Number(c, i, j), n) {
        assert BlockAt(t, Number(c, i, j)) == Free;
        PlainKid(t, owner, c, i, j);
      }
    } else if j: nat :| j + n <= FANOUT && FreeRun(t, Number(c, i, j), n) {
      assert BlockAt(t, Number(c, i, j)) == Free;
      NotInPlainCell(t, owner, c, i, j);
      forall x: nat | Number(c, i, 0) <= x < Number(c, i, 0) + FANOUT ensures BlockAt(t, x) == Free {
        NotInPlainCell(t, owner, c, i, x - Number(c, i, 0));
      }
    }
  }

  lemma SingleBlock(t: Tree, owner: map<Ref, Place>, c: nat, i: nat, j: nat)
    requires Tidy(t, owner, {}) && c < |t.states| && t.states[c] == REFINED && i < FANOUT && j < FANOUT
    requires |t.refs| == |t.states| && t.refs[c] in t.recs && t.recs[t.refs[c]].Ok() && t.recs[t.refs[c]].states[i] == REFINED
    ensures var r := t.recs[t.refs[c]].refs[i];
      r in t.recs && t.recs[r].Ok() && (BlockAt(t, Number(c, i, j)) == Free <==> t.recs[r].states[j] == FREE)
  {
    hide At, BlockAt, Granule;
    Coords(c, i, j);
    InsideCell(t, owner, c, Number(c, i, j));
    WhatIsAt(t, owner, Number(c, i, j));
  }

  /** The blocks of a group that is not divided are as its state says. */
  lemma PlainKid(t: Tree, owner: map<Ref, Place>, c: nat, i: nat, j: nat)
    requires Tidy(t, owner, {}) && c < |t.states| && t.states[c] == REFINED && i < FANOUT && j < FANOUT
    requires |t.refs| == |t.states| && t.refs[c] in t.recs && t.recs[t.refs[c]].Ok() && t.recs[t.refs[c]].states[i] != REFINED
    ensures BlockAt(t, Number(c, i, j)) == Free <==> t.recs[t.refs[c]].states[i] == FREE
  {
    hide At, BlockAt, Granule;
    Coords(c, i, j);
    InsideCell(t, owner, c, Number(c, i, j));
    WhatIsAt(t, owner, Number(c, i, j));
  }

  lemma SinglesInRow(t: Tree, c: nat, i: nat, j: nat, n: nat, rec: Rec)
    requires rec.Ok() && j + n <= FANOUT
    requires forall k: nat :: k < FANOUT ==> (BlockAt(t, Number(c, i, k)) == Free <==> rec.states[k] == FREE)
    ensures RunAt(rec, j, n) <==> FreeRun(t, Number(c, i, j), n)
  {
    hide BlockAt;
    if RunAt(rec, j, n) {
      forall x: nat | Number(c, i, j) <= x < Number(c, i, j) + n ensures BlockAt(t, x) == Free {
        assert x == Number(c, i, j + (x - Number(c, i, j)));
      }
    }
    if FreeRun(t, Number(c, i, j), n) {
      forall k | j <= k < j + n ensures rec.states[k] == FREE {
        assert Number(c, i, k) == Number(c, i, j) + (k - j);
      }
    }
  }

  // --- the runs that are found ----------------------------------------------------------------------

  lemma KidRuns(t: Tree, owner: map<Ref, Place>, c: nat, i: nat, m: nat)
    requires Tidy(t, owner, {}) && c < |t.states| && t.states[c] == REFINED && i + m <= FANOUT
    ensures |t.refs| == |t.states| && t.refs[c] in t.recs
    ensures RunAt(t.recs[t.refs[c]], i, m) <==> FreeRun(t, Number(c, i, 0), m * FANOUT)
  {
    hide Tidy, BlockAt;
    KidIs(t, owner, c, 0);
    forall k: nat | k < FANOUT ensures FreeRun(t, Number(c, k, 0), FANOUT) <==> t.recs[t.refs[c]].states[k] == FREE {
      KidIs(t, owner, c, k);
    }
    RowOfKids(t, c, i, m);
  }

  lemma FoundInCell(t: Tree, owner: map<Ref, Place>, c: nat, i: nat, m: nat)
    requires Tidy(t, owner, {}) && CellWithRun(t, c, i, m) && 1 <= m
    requires forall s: nat :: s < i ==> !RunAt(t.recs[t.refs[c]], s, m)
    ensures HasPartRun(t, m * FANOUT) && FirstPartRun(t, c * CELL + i * FANOUT, m * FANOUT)
  {
    hide Tidy, BlockAt, FreeRun, FreeCellAt, RunAt;
    Coords(c, i, 0);
    KidRuns(t, owner, c, i, m);
    CellIs(t, owner, c);
    var b := Number(c, i, 0);
    assert PartRun(t, b, m * FANOUT);
    forall x: nat | x < b && x / CELL == b / CELL ensures !PartRun(t, x, m * FANOUT) {
      NumberOf(x);
      var k := x % CELL / FANOUT;
      if PartRun(t, x, m * FANOUT) {
        KidRuns(t, owner, c, k, m);
      }
    }
  }

  lemma FoundInKid(t: Tree, owner: map<Ref, Place>, c: nat, i: nat, j: nat, n: nat)
    requires Tidy(t, owner, {}) && KidWithRun(t, c, i, j, n) && 1 <= n
    requires forall s: nat :: s < j ==> !RunAt(t.recs[t.recs[t.refs[c]].refs[i]], s, n)
    ensures HasBlockRun(t, n) && FirstBlockRun(t, c * CELL + i * FANOUT + j, n)
  {
    hide Tidy, BlockAt, RunAt, FreeRun;
    ValidFacts(t, owner, {});
    Coords(c, i, j);
    KidIs(t, owner, c, i);
    var rec := t.recs[t.recs[t.refs[c]].refs[i]];
    forall k: nat | k < FANOUT ensures rec.Ok() && (BlockAt(t, Number(c, i, k)) == Free <==> rec.states[k] == FREE) {
      SingleBlock(t, owner, c, i, k);
    }
    SinglesInRow(t, c, i, j, n, rec);
    var b := Number(c, i, j);
    assert BlockRun(t, b, n);
    forall x: nat | x < b && x / FANOUT == b / FANOUT ensures !BlockRun(t, x, n) {
      NumberOf(x);
      assert x / FANOUT * FANOUT == Number(c, i, 0);
      if BlockRun(t, x, n) {
        SinglesInRow(t, c, i, x - Number(c, i, 0), n, rec);
      }
    }
  }

  lemma FoundWhole(t: Tree, owner: map<Ref, Place>, c: nat)
    requires Tidy(t, owner, {}) && c < |t.states| && t.states[c] == FREE && forall x :: 0 <= x < c ==> t.states[x] != FREE
    ensures LowestWhole(t, c * CELL)
  {
    hide Tidy, FreeCellAt;
    Coords(c, 0, 0);
    forall x: nat | x <= c ensures FreeCellAt(t, x) <==> x == c {
      CellIs(t, owner, x);
    }
  }

  lemma FoundCells(t: Tree, owner: map<Ref, Place>, s: nat, k: nat)
    requires Tidy(t, owner, {}) && k >= 1 && forall x: nat :: x < s ==> !CellRunAt(t, x, k)
    ensures forall c: nat :: c < s ==> !CellsRun(t, c, k * CELL)
  {
    hide Tidy, CellRunAt, CellsRun;
    forall c: nat | c < s ensures !CellsRun(t, c, k * CELL) {
      CellRunIs(t, owner, c, k);
    }
  }

  // --- the conditions agree ------------------------------------------------------------------------

  lemma CellsAgree(t: Tree, owner: map<Ref, Place>)
    requires Tidy(t, owner, {})
    ensures FreeCells(t) == WholeCells(t)
  {
    hide Tidy, FreeCellAt;
    ValidFacts(t, owner, {});
    forall c: nat ensures c in FreeCells(t) <==> c in WholeCells(t) {
      CellIs(t, owner, c);
    }
  }

  lemma PartRunsAgree(t: Tree, owner: map<Ref, Place>, m: nat)
    requires Tidy(t, owner, {}) && 1 <= m <= FANOUT
    ensures (exists c: nat :: RunBelow(t, L0(c), m)) <==> HasPartRun(t, m * FANOUT)
  {
    hide Tidy, FreeRun, FreeCellAt, RunBelow;
    if c: nat :| RunBelow(t, L0(c), m) {
      RunInCell(t, owner, c, m);
      var i: nat :| i + m <= FANOUT && FreeRun(t, Number(c, i, 0), m * FANOUT);
      Coords(c, i, 0);
      assert PartRun(t, Number(c, i, 0), m * FANOUT);
    }
    if b: nat :| PartRun(t, b, m * FANOUT) {
      NumberOf(b);
      RunInCell(t, owner, b / CELL, m);
    }
  }

  lemma BlockRunsAgree(t: Tree, owner: map<Ref, Place>, n: nat)
    requires Tidy(t, owner, {}) && 1 <= n <= FANOUT
    ensures (exists c: nat, i: nat :: RunBelow(t, L1(c, i), n)) <==> HasBlockRun(t, n)
  {
    hide Tidy, FreeRun, RunBelow;
    if c: nat, i: nat :| RunBelow(t, L1(c, i), n) {
      KidInRange(t, owner, c, i, n);
      RunInKid(t, owner, c, i, n);
      var j: nat :| j + n <= FANOUT && FreeRun(t, Number(c, i, j), n);
      Coords(c, i, j);
      assert BlockRun(t, Number(c, i, j), n);
    }
    if b: nat :| BlockRun(t, b, n) {
      NumberOf(b);
      RunInKid(t, owner, b / CELL, b % CELL / FANOUT, n);
    }
  }

  lemma KidInRange(t: Tree, owner: map<Ref, Place>, c: nat, i: nat, n: nat)
    requires Tidy(t, owner, {}) && RunBelow(t, L1(c, i), n)
    ensures i < FANOUT
  {
    ValidFacts(t, owner, {});
    assert At(t, L0(c)).Some? && At(t, L0(c)).value in t.recs && t.recs[At(t, L0(c)).value].Ok();
  }

  lemma CellRunsAgree(t: Tree, owner: map<Ref, Place>, k: nat)
    requires Tidy(t, owner, {}) && k >= 1
    ensures HasCellRun(t, k) <==> exists c: nat :: CellsRun(t, c, k * CELL)
  {
    hide Tidy, CellRunAt, CellsRun;
    forall c: nat ensures CellRunAt(t, c, k) <==> CellsRun(t, c, k * CELL) {
      CellRunIs(t, owner, c, k);
    }
  }

  lemma CellRunIs(t: Tree, owner: map<Ref, Place>, c: nat, k: nat)
    requires Tidy(t, owner, {}) && k >= 1
    ensures CellRunAt(t, c, k) <==> CellsRun(t, c, k * CELL)
  {
    hide Tidy, FreeCellAt;
    RowOfCells(t, c, k);
    forall x: nat ensures FreeCellAt(t, x) <==> x < |t.states| && t.states[x] == FREE {
      CellIs(t, owner, x);
    }
    if forall x: nat :: c <= x < c + k ==> FreeCellAt(t, x) {
      assert FreeCellAt(t, c + k - 1);
    }
  }

  lemma RowOfCells(t: Tree, c: nat, k: nat)
    ensures CellsRun(t, c, k * CELL) <==> forall x: nat :: c <= x < c + k ==> FreeCellAt(t, x)
  {
    hide BlockAt;
    if forall x: nat :: c <= x < c + k ==> FreeCellAt(t, x) {
      forall b: nat | c * CELL <= b < c * CELL + k * CELL ensures BlockAt(t, b) == Free {
        assert FreeCellAt(t, b / CELL) && b / CELL * CELL <= b < b / CELL * CELL + CELL;
      }
    }
  }

  lemma GroupsExactlyWhen(t: Tree, owner: map<Ref, Place>, arena: nat, m: nat)
    requires Tidy(t, owner, {}) && 1 <= m <= FANOUT
    ensures CanAllocateKids(t, arena, m) <==> GroupsObtainable(t, arena, m * FANOUT)
  {
    hide Tidy, FreeCells, FreeSlots, RunBelow, HasPartRun, WholeCells;
    CellsAgree(t, owner);
    PartRunsAgree(t, owner, m);
  }

  /** Whether an allocation can be had follows from the states of the blocks and what the arena has left. */
  lemma ObtainableExactlyWhen(t: Tree, owner: map<Ref, Place>, arena: nat, n: nat)
    requires Tidy(t, owner, {}) && n >= 1
    ensures CanAllocate(t, arena, n) <==> Obtainable(t, arena, n)
  {
    hide Tidy, FreeRun, CellsRun, FreeCells, FreeSlots, RunBelow, HasPartRun, HasBlockRun, WholeCells, HasCellRun, GroupsObtainable, CanAllocateKids;
    CellsAgree(t, owner);
    if n >= CELL {
      var k := (n + CELL - 1) / CELL;
      assert Rounded(n) == k * CELL;
      CellRunsAgree(t, owner, k);
    } else if n > FANOUT {
      GroupsExactlyWhen(t, owner, arena, (n + FANOUT - 1) / FANOUT);
    } else {
      PartRunsAgree(t, owner, 1);
      BlockRunsAgree(t, owner, n);
    }
  }

  lemma SlotBlockExactlyWhen(t: Tree, owner: map<Ref, Place>, arena: nat)
    requires Tidy(t, owner, {})
    ensures CanAllocate(t, arena, 1) && OneMore(t, arena, 1) <==> SlotBlockObtainable(t, arena)
  {
    hide Tidy, FreeRun, FreeCells, FreeSlots, RunBelow, HasPartRun, HasBlockRun, WholeCells;
    CellsAgree(t, owner);
    PartRunsAgree(t, owner, 1);
    BlockRunsAgree(t, owner, 1);
  }

  /** A slot block has a slot to give exactly if one of its sixteen is not in use. */
  lemma SlotFreeExactlyWhen(t: Tree, owner: map<Ref, Place>, b: nat)
    requires Tidy(t, owner, {})
    ensures SlotFree(t, b) <==> SlotLeft(t, b)
  {
    hide Tidy, BlockAt, At;
    SlotFreeMeans(t, b);
    if SlotRec(t, b).Some? {
      SlotRecInside(t, owner, b);
    }
    if b < t.length {
      SlotPlace(t, owner, b);
      if SlotRec(t, b).Some? {
        var r := SlotRec(t, b).value;
        var rec := t.recs[r];
        SlotsTold(t, owner, b);
        if k: nat :| k < FANOUT && !SlotUsed(t, SlotNumber(b, k)) {
          assert RunAt(rec, k, 1);
        }
        if s: nat :| RunAt(rec, s, 1) {
          assert rec.states[s] == FREE;
        }
      }
    }
  }

  lemma SlotsTold(t: Tree, owner: map<Ref, Place>, b: nat)
    requires Tidy(t, owner, {}) && b < t.length && SlotRec(t, b).Some?
    ensures SlotRec(t, b).value in t.recs && t.recs[SlotRec(t, b).value].Ok()
    ensures forall k: nat :: k < FANOUT ==> (t.recs[SlotRec(t, b).value].states[k] == FREE <==> !SlotUsed(t, SlotNumber(b, k)))
  {
    hide Tidy, BlockAt, At;
    SlotRecInside(t, owner, b);
    SlotPlace(t, owner, b);
    var r := SlotRec(t, b).value;
    var rec := t.recs[r];
    TidyParts(t, owner, {});
    forall k: nat | k < FANOUT ensures rec.states[k] == FREE <==> !SlotUsed(t, SlotNumber(b, k)) {
      OwnKid(t, owner, r, k);
    }
  }

  lemma SlotsBefore(t: Tree, owner: map<Ref, Place>, b: nat, s: nat)
    requires Tidy(t, owner, {}) && b < t.length && SlotRec(t, b).Some? && SlotRec(t, b).value in t.recs && s < FANOUT
    requires forall k: nat :: k < s ==> !RunAt(t.recs[SlotRec(t, b).value], k, 1)
    ensures FirstSlotLeft(t, SlotNumber(b, s))
  {
    hide Tidy, BlockAt, At, SlotUsed, SlotRec;
    SlotsTold(t, owner, b);
    var rec := t.recs[SlotRec(t, b).value];
    forall k: nat | k < s ensures SlotUsed(t, SlotNumber(b, k)) {
      assert !RunAt(rec, k, 1);
    }
  }
}
