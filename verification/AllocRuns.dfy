/** Whole runs of one group: what is allocated is what was handed out and not yet returned. */
module AllocRuns {
  import opened Wrappers
  import opened Intervals
  import opened AllocTree
  import opened AllocOps
  import opened AllocCount
  import opened AllocSpec
  import opened FreeSpec
  import opened SlotSpec

  /** A successful operation: what it asked for and what it was given. */
  datatype Event =
    | Extent(lo: nat, n: nat, claimed: Option<nat>)
    | Release(lo: nat, n: nat)
    | Inode(ino: nat, taken: Option<nat>)
    | Forget(ino: nat)

  /** What callers hold: blocks, each with the unit it was handed out in, and inode slots. */
  datatype Held = Held(blocks: map<nat, nat>, inodes: set<nat>)

  /** Where a release that ends with block b really ends, by the units handed out. */
  function ReleaseEnd(h: Held, lo: nat, n: nat): nat {
    if n >= 1 && lo + n - 1 in h.blocks then UpTo(lo + n - 1, h.blocks[lo + n - 1]) else lo + n
  }

  /** Blocks from lo up to hi, all in one unit. */
  function Handout(lo: nat, n: nat, unit: nat): map<nat, nat> {
    map b | b in Interval(lo, n) :: unit
  }

  /** Any range may be released: part of an extent, or several that lie side by side. */
  function After(h: Held, e: Event): Held {
    match e
    case Extent(lo, n, _) => h.(blocks := h.blocks + Handout(lo, Rounded(n), GranuleFor(n)))
    case Release(lo, n) => h.(blocks := map b | b in h.blocks && !(lo <= b < ReleaseEnd(h, lo, n)) :: h.blocks[b])
    case Inode(ino, _) => h.(inodes := h.inodes + {ino})
    case Forget(ino) => h.(inodes := h.inodes - {ino})
  }

  /** The contract of each operation of the group, as a step from tree to tree. */
  ghost predicate Step(t: Tree, u: Tree, e: Event) {
    u.length == t.length
    && match e
    case Extent(lo, n, claimed) =>
      && n >= 1 && Allocated(t, u, lo, Rounded(n), claimed) && TakenIn(u, lo, Rounded(n), GranuleFor(n))
      && Aligned(lo, GranuleFor(n))
    case Release(lo, n) =>
      Freeable(t, lo, n) && lo <= CoverEnd(t, lo, n) && Freed(t, u, lo, CoverEnd(t, lo, n) - lo)
    case Inode(ino, taken) =>
      !SlotUsed(t, ino) && SlotSet(t, u, ino, true) && SlotBlockAt(t, u, ino / FANOUT, taken)
    case Forget(ino) =>
      && SlotSet(t, u, ino, false) && SameUnits(t, u)
      && BlockAt(t, ino / FANOUT) == Slots
      && if LastSlot(t, ino) then RangeBecomes(t, u, ino / FANOUT, 1, Free) else SameBlocks(t, u)
  }

  /** The tree accounts for exactly what is held: no block lost, none too many, units as handed out. */
  ghost predicate Accounts(t: Tree, h: Held) {
    && (forall b: nat :: BlockAt(t, b) == Full <==> b in h.blocks)
    && (forall b: nat :: b in h.blocks ==> Granule(t, b) == h.blocks[b])
    && (forall s: nat :: SlotUsed(t, s) <==> s in h.inodes)
  }

  /** What is handed out was held by nobody. */
  lemma HandedOutOnce(t: Tree, u: Tree, h: Held, lo: nat, n: nat, claimed: Option<nat>)
    requires Accounts(t, h) && Step(t, u, Extent(lo, n, claimed))
    ensures n >= 1 && Interval(lo, n) !! h.blocks.Keys && Interval(lo, n) <= After(h, Extent(lo, n, claimed)).blocks.Keys
  {
    hide BlockAt, Granule, SlotUsed;
  }

  ghost predicate Placed(t: Tree, lo: nat, n: nat) {
    && n >= 1 && Aligned(lo, GranuleFor(n)) && TakenIn(t, lo, Rounded(n), GranuleFor(n))
    && forall b: nat :: lo <= b < lo + Rounded(n) ==> BlockAt(t, b) == Full
  }

  /** What was handed out in one piece can be returned in one piece. */
  lemma HeldIsFreeable(t: Tree, lo: nat, n: nat)
    requires Placed(t, lo, n)
    ensures Freeable(t, lo, n) && CoverEnd(t, lo, n) == lo + Rounded(n) && Rounded(n) >= n
  {
    hide BlockAt, Granule;
    assert Granule(t, lo) == GranuleFor(n);
    assert Granule(t, lo + n - 1) == GranuleFor(n);
  }

  /** Whether a range can be released, and how far that goes, can be told from what is held. */
  lemma ReleaseByHeld(t: Tree, h: Held, lo: nat, n: nat)
    requires Accounts(t, h)
    ensures Freeable(t, lo, n) <==>
      n == 0 || (Interval(lo, n) <= h.blocks.Keys && Aligned(lo, h.blocks[lo]))
    ensures Freeable(t, lo, n) ==> CoverEnd(t, lo, n) == ReleaseEnd(h, lo, n)
  {
    hide BlockAt, Granule, SlotUsed, UpTo, Aligned;
    if n >= 1 {
      assert lo in Interval(lo, n) && lo + n - 1 in Interval(lo, n);
    }
  }

  lemma ExtentKeeps(t: Tree, u: Tree, h: Held, e: Event)
    requires Accounts(t, h) && Step(t, u, e) && e.Extent?
    ensures Accounts(u, After(h, e))
  {
    hide BlockAt, Granule, SlotUsed, Rounded, GranuleFor;
    var g := After(h, e).blocks;
    assert forall b: nat :: b in g <==> b in h.blocks || e.lo <= b < e.lo + Rounded(e.n);
  }

  lemma ReleaseKeeps(t: Tree, u: Tree, h: Held, e: Event)
    requires Accounts(t, h) && Step(t, u, e) && e.Release?
    ensures Accounts(u, After(h, e))
  {
    hide BlockAt, Granule, SlotUsed, CoverEnd, ReleaseEnd, Freeable;
    ReleaseByHeld(t, h, e.lo, e.n);
  }

  /** Inode slots come and go without touching what is FULL. */
  lemma SlotStepKeeps(t: Tree, u: Tree, h: Held, e: Event)
    requires Accounts(t, h) && Step(t, u, e) && (e.Inode? || e.Forget?)
    ensures Accounts(u, After(h, e))
  {
    hide BlockAt, Granule, SlotUsed, LastSlot;
    forall b: nat ensures BlockAt(u, b) == Full <==> BlockAt(t, b) == Full {
    }
  }

  // --- how runs start -------------------------------------------------------------------------

  lemma NothingHeld(t: Tree)
    requires (forall b: nat :: BlockAt(t, b) != Full) && forall s: nat :: !SlotUsed(t, s)
    ensures Accounts(t, Held(map[], {}))
  {
  }

  /** One slot block is all that counts as full: nothing else is. */
  lemma OnlySlotsHeld(t: Tree, owner: map<Ref, Place>, x: nat, inodes: set<nat>)
    requires Tidy(t, owner, {}) && Count(t, KFull) == 1 && x < t.length && BlockAt(t, x) == Slots
    requires forall s: nat :: SlotUsed(t, s) <==> s in inodes
    ensures Accounts(t, Held(map[], inodes))
  {
    var full := KindBelow(t, KFull, t.length);
    assert x in full;
    forall b: nat ensures BlockAt(t, b) != Full {
      if b < t.length {
        if BlockAt(t, b) == Full {
          assert b in full && {b, x} <= full && |{b, x}| == 2;
          Fewer({b, x}, full);
        }
      } else {
        BeyondTheEnd(t, owner, b);
      }
    }
  }

  /**
  What retiring a group relies on: the header counts no full block exactly when nobody holds a block
  or an inode of the group.
  */
  lemma EmptyExactlyWhen(t: Tree, owner: map<Ref, Place>, h: Held)
    requires Tidy(t, owner, {}) && Accounts(t, h)
    ensures Count(t, KFull) == 0 <==> h.blocks == map[] && h.inodes == {}
  {
    hide BlockAt, SlotUsed, Granule, Tidy;
    var full := KindBelow(t, KFull, t.length);
    forall b | b in h.blocks ensures b in full {
      HeldInside(t, owner, b);
    }
    forall s | s in h.inodes ensures s / FANOUT in full {
      UsedMeansSlots(t, s);
      HeldInside(t, owner, s / FANOUT);
    }
    forall b | b in full ensures b in h.blocks || h.inodes != {} {
      if BlockAt(t, b) == Slots {
        var s := SomeSlotUsed(t, owner, b);
        assert s in h.inodes;
      }
    }
  }

  lemma HeldInside(t: Tree, owner: map<Ref, Place>, b: nat)
    requires Tidy(t, owner, {}) && BlockAt(t, b) != Reserved
    ensures b < t.length
  {
    hide BlockAt, Tidy;
    if b >= t.length {
      BeyondTheEnd(t, owner, b);
    }
  }

  /** A slot block has a slot in use. */
  lemma SomeSlotUsed(t: Tree, owner: map<Ref, Place>, b: nat) returns (s: nat)
    requires Tidy(t, owner, {}) && b < t.length && BlockAt(t, b) == Slots
    ensures s / FANOUT == b && SlotUsed(t, s)
  {
    hide At;
    SlotPlace(t, owner, b);
    var r := SlotRec(t, b).value;
    var rec := t.recs[r];
    var k :| 0 <= k < FANOUT && rec.states[k] != FREE;
    assert rec.states[k] == FULL;
    s := SlotNumber(b, k);
    OwnKid(t, owner, r, k);
  }

  lemma BeyondTheEnd(t: Tree, owner: map<Ref, Place>, b: nat)
    requires Tidy(t, owner, {}) && b >= t.length
    ensures BlockAt(t, b) == Reserved
  {
    hide KidState;
    assert b < (b / CELL + 1) * CELL;
  }

  // --- runs ------------------------------------------------------------------------------------

  function HeldAfter(h: Held, events: seq<Event>): Held {
    if events == [] then h else After(HeldAfter(h, events[..|events| - 1]), events[|events| - 1])
  }

  /** trees[k] is the tree after k events. */
  ghost predicate Run(trees: seq<Tree>, events: seq<Event>) {
    && |trees| == |events| + 1
    && forall k :: 0 <= k < |events| ==> Step(trees[k], trees[k + 1], events[k])
  }

  /**
  Over any run of successful operations the FULL blocks are exactly those handed out and not yet
  returned, in the units they were handed out in, and the used slots exactly the inodes held.
  */
  lemma {:induction false} RunAccounts(trees: seq<Tree>, h: Held, events: seq<Event>)
    requires Run(trees, events) && Accounts(trees[0], h)
    ensures Accounts(trees[|events|], HeldAfter(h, events))
  {
    hide Accounts, Step;
    if events != [] {
      var n := |events| - 1;
      var before, e := HeldAfter(h, events[..n]), events[n];
      RunAccounts(trees[..n + 1], h, events[..n]);
      match e {
        case Extent(_, _, _) => ExtentKeeps(trees[n], trees[n + 1], before, e);
        case Release(_, _) => ReleaseKeeps(trees[n], trees[n + 1], before, e);
        case Inode(_, _) => SlotStepKeeps(trees[n], trees[n + 1], before, e);
        case Forget(_) => SlotStepKeeps(trees[n], trees[n + 1], before, e);
      }
    }
  }

  /** Allocating and freeing again restores every block, apart from a cell claimed for the arena. */
  lemma AllocThenFree(t: Tree, mid: Tree, u: Tree, lo: nat, n: nat, claimed: Option<nat>)
    requires n >= 1 && Allocated(t, mid, lo, Rounded(n), claimed) && TakenIn(mid, lo, Rounded(n), GranuleFor(n))
    requires Aligned(lo, GranuleFor(n))
    ensures Freeable(mid, lo, n) && lo <= CoverEnd(mid, lo, n)
    ensures Freed(mid, u, lo, CoverEnd(mid, lo, n) - lo) ==>
      && (forall b: nat :: BlockAt(u, b) == if claimed == Some(b / CELL) then Reserved else BlockAt(t, b))
      && SameSlots(t, u)
  {
    hide BlockAt, Granule, SlotUsed, Rounded, GranuleFor, CoverEnd;
    HeldIsFreeable(mid, lo, n);
  }
}
