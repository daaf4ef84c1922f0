/**
Growing a file's mapping: allocating for writes, refining children that cannot take a
run as a whole, raising the root, and turning inline extents into a tree.
*/
module Extents {
  import opened Wrappers
  import opened Intervals
  import opened Radix
  import opened ExtentTree
  import opened ExtentSpec
  import opened ExtentLookup
  import opened ExtentTrim
  import opened ExtentCost
  import S = AllocSpec

  datatype MapError = NoRoom | LevelZero | HoleLeft | NotAllocated

  class File {
    var mapping: FileMap
    /** The blocks the allocator still has to give. */
    var pool: set<nat>
    /** The units blocks were handed out in. Nothing is given back twice, so given-back blocks may stay listed. */
    var unitOf: Units
    /** Blocks that left the pool besides those asked for. */
    ghost var slack: multiset<nat>
    /** The runs given back to the allocator, in order. */
    var handed: seq<Extent>

    ghost function Now(): Stock
      reads this`pool, this`unitOf, this`slack
    {
      Stock(pool, unitOf, slack)
    }

    ghost predicate Valid()
      reads this`mapping
    {
      Well(mapping)
    }

    // --- the allocator as seen from here ------------------------------------------------------

    /** Which requests the allocator meets when a run is there; its records may not do for all of them. */
    const gives: (set<nat>, nat) -> bool
    /** It meets every request for a single block while one is left, and takes no more than rounding up does. */
    const fair: bool

    /** A run of n blocks on a unit of its size, and as many more as rounding takes. */
    ghost predicate RunIn(p: set<nat>, b: nat, n: nat) {
      b % S.GranuleFor(n) == 0 && Interval(b, S.Rounded(n)) <= p
    }

    ghost predicate CanGive(p: set<nat>, n: nat) {
      (gives(p, n) || (fair && n == 1)) && exists b: nat :: RunIn(p, b, n)
    }

    /** n blocks in a row from the pool, rounded up to whole units, or nothing at all. */
    method Alloc(n: nat) returns (lo: Option<nat>)
      requires n >= 1
      modifies this`pool, this`unitOf, this`slack
      ensures lo.Some? <==> CanGive(old(pool), n)
      ensures lo.None? ==> Now() == old(Now())
      ensures lo.Some? ==> Took(old(Now()), lo.value, n, Now())
      ensures lo.Some? ==> InOneUnit(unitOf, lo.value, n) && unitOf[lo.value] == S.GranuleFor(n)
      ensures lo.Some? && fair ==> pool == old(pool) - Interval(lo.value, S.Rounded(n))
      ensures Drawn(fair, old(Now()), Now(), if n == 1 then 1 else 2 * n)
    {
      hide Drawn, Took, InOneUnit, Interval, S.Rounded, S.GranuleFor;
      S.RoundedLess(n);
      DrawnNothing(fair, Now(), if n == 1 then 1 else 2 * n);
      var len := S.Rounded(n);
      if (gives(pool, n) || (fair && n == 1)) && exists b :: b in pool && b % S.GranuleFor(n) == 0 && Interval(b, len) <= pool {
        var b :| b in pool && b % S.GranuleFor(n) == 0 && Interval(b, len) <= pool;
        assert RunIn(pool, b, n);
        var claimed: set<nat> := *;
        var left := if fair then pool - Interval(b, len) else pool - Interval(b, len) - claimed;
        var unit: Unit := S.GranuleFor(n);
        unitOf := unitOf + map x | x in pool - left :: unit;
        slack := slack + multiset(pool - left - Interval(b, n));
        HandedOut(fair, old(Now()), b, n, len, unit, Stock(left, unitOf, slack));
        pool := left;
        return Some(b);
      }
      if b: nat :| RunIn(pool, b, n) {
        assert b in Interval(b, len);
      }
      return None;
    }

    lemma SingleRefused(p: set<nat>)
      requires !CanGive(p, 1)
      ensures fair ==> p == {}
    {
      if b :| b in p {
        assert RunIn(p, b, 1);
      }
    }

    method NodeAlloc() returns (at: Option<nat>)
      modifies this`pool, this`unitOf, this`slack
      ensures at.Some? <==> CanGive(old(pool), 1)
      ensures at.None? ==> Now() == old(Now())
      ensures at.None? && fair ==> pool == {}
      ensures at.Some? ==> at.value in old(pool) && Kept(multiset{}, old(Now()), multiset{at.value}, Now())
      ensures at.Some? ==> at.value in unitOf && unitOf[at.value] == 1
      ensures Drawn(fair, old(Now()), Now(), 1)
    {
      hide Drawn;
      at := Alloc(1);
      if at.Some? {
        assert at.value in Interval(at.value, 1);
        TakenKept(multiset{}, old(Now()), at.value, 1, Now());
        OneBlock(at.value);
      } else {
        SingleRefused(pool);
      }
    }

    // --- ensuring ---------------------------------------------------------------------------------

    /** Spread a run over a fresh node's children. */
    method Redistribute(blocks: nat, addr: nat, level: nat) returns (kids: seq<Child>)
      requires 1 <= blocks <= Cov(level + 1)
      ensures |kids| == NODE_FANOUT && forall i :: 0 <= i < NODE_FANOUT ==> kids[i] == Piece(blocks, addr, Cov(level), i)
    {
      hide Start;
      kids := FreeKids(NODE_FANOUT);
      var c, taken, i := Cov(level), 0, 0;
      StartNext(0, c);
      StartTop(c);
      CovUp(level);
      while taken < blocks
        invariant i <= NODE_FANOUT && |kids| == NODE_FANOUT
        invariant taken == if Start(i, c) < blocks then Start(i, c) else blocks
        invariant forall k :: 0 <= k < i ==> kids[k] == Piece(blocks, addr, c, k)
        invariant forall k :: i <= k < NODE_FANOUT ==> kids[k] == Free
      {
        var take := if c < blocks - taken then c else blocks - taken;
        kids := kids[i := Full(take, addr + taken)];
        taken := taken + take;
        StartNext(i, c);
        i := i + 1;
      }
      forall k | i <= k < NODE_FANOUT ensures kids[k] == Piece(blocks, addr, c, k) {
        if i < k {
          StartUp(i, k, c);
        }
      }
    }

    /** Turn a hole or a run into a node one level down with the same answers. */
    method Refine(ch: Child, level: nat) returns (r: Option<(nat, seq<Child>)>)
      requires WF(ch, level) && !ch.Refined? && level > 0
      modifies this`pool, this`unitOf, this`slack
      ensures r.Some? <==> CanGive(old(pool), 1)
      ensures r.None? ==> pool == old(pool) && (fair ==> pool == {})
      ensures Drawn(fair, old(Now()), Now(), 1)
      ensures r.Some? ==> |r.value.1| == NODE_FANOUT && AllWF(r.value.1, level - 1) && pool <= old(pool)
      ensures r.Some? ==> SameLook(ch, level, r.value.1, level - 1)
      ensures r.Some? ==> Kept(Bag(ch, level), old(Now()), multiset{r.value.0} + BagKids(r.value.1, level - 1), Now())
    {
      hide Look, LookKids, Bag, BagKids, WF, AllWF, Drawn, CanGive;
      var node := NodeAlloc();
      if node.None? {
        return None;
      }
      var kids := FreeKids(NODE_FANOUT);
      if ch.Full? {
        RunFits(ch, level);
        kids := Redistribute(ch.blocks, ch.addr, level - 1);
        RefinedRun(ch, level, kids);
      } else {
        RefinedHoleIs(level, kids);
      }
      KeptPart(multiset{}, old(Now()), multiset{node.value}, Now(), Bag(ch, level), multiset{node.value} + BagKids(kids, level - 1));
      return Some((node.value, kids));
    }

    /** Make blocks from..to of a child's range mapped. */
    method ChildEnsure(ch: Child, level: nat, from: nat, to: nat) returns (r: Result<Child, MapError>)
      requires WF(ch, level) && from < to <= Cov(level)
      modifies this`pool, this`unitOf, this`slack
      ensures r.Ok? ==> WF(r.value, level) && Ensured(ch, r.value, level, from, to, old(pool))
      ensures r.Ok? ==> Kept(Bag(ch, level), old(Now()), Bag(r.value, level), Now())
      ensures r.Err? ==> r.error == NoRoom && !CanGive(pool, 1)
      ensures ch.Full? && to <= ch.blocks ==> r == Ok(ch) && pool == old(pool)
      ensures ch.Free? && from == 0 && CanGive(old(pool), to) ==> r.Ok? && r.value.Full? && r.value.blocks == to
      ensures Drawn(fair, old(Now()), Now(), 2 * HolesIn(ch, level, from, to) + Nodes(level, to - from))
      ensures r.Err? && fair ==> |old(pool)| < 2 * HolesIn(ch, level, from, to) + Nodes(level, to - from)
      decreases level, 0
    {
      hide Look, LookKids, Bag, BagKids, AllWF, WF, Kept, Ensured, Drawn, HolesIn, CanGive, Interval, InOneUnit;
      ghost var need := 2 * HolesIn(ch, level, from, to) + Nodes(level, to - from);
      DrawnNothing(fair, Now(), need);
      if ch.Refined? {
        NodeParts(ch, level);
        r := NodeEnsure(ch, ch.at, ch.kids, level, from, to);
        DrawnMore(fair, old(Now()), Now(), need - (to - from), need);
      } else {
        if ch.Full? && to <= ch.blocks {
          AlreadyThere(ch, level, from, to, Now());
          return Ok(ch); // nothing left to do here
        }
        if ch.Free? && from == 0 {
          // the child is a hole up to its start: one run may cover what is asked of it
          AllHole(level, to);
          var blk := Alloc(to);
          if blk.Some? {
            TookRun(level, from, to, blk.value, old(Now()), Now());
            DrawnMore(fair, old(Now()), Now(), if to == 1 then 1 else 2 * to, need);
            return Ok(Full(to, blk.value));
          }
          // no run of that length is free: below, shorter ones will do
          if level == 0 {
            SingleRefused(pool);
            return Err(NoRoom);
          }
        } else {
          LevelZeroFits(ch, level, from, to);
          if level == 0 {
            return Err(LevelZero);
          }
        }
        r := RefineEnsure(ch, level, from, to);
      }
    }

    /** The same for a hole or a run, by a node in its place. */
    method RefineEnsure(ch: Child, level: nat, from: nat, to: nat) returns (r: Result<Child, MapError>)
      requires WF(ch, level) && !ch.Refined? && level > 0 && from < to <= Cov(level)
      modifies this`pool, this`unitOf, this`slack
      ensures r.Ok? ==> WF(r.value, level) && Ensured(ch, r.value, level, from, to, old(pool))
      ensures r.Ok? ==> Kept(Bag(ch, level), old(Now()), Bag(r.value, level), Now())
      ensures r.Err? ==> r.error == NoRoom && !CanGive(pool, 1)
      ensures Drawn(fair, old(Now()), Now(), 2 * HolesIn(ch, level, from, to) + Nodes(level, to - from))
      ensures r.Err? && fair ==> |old(pool)| < 2 * HolesIn(ch, level, from, to) + Nodes(level, to - from)
      decreases level - 1, 3
    {
      hide Look, LookKids, Bag, BagKids, AllWF, WF, Kept, Ensured, Drawn, HolesIn, CanGive;
      ghost var need := 2 * HolesIn(ch, level, from, to) + Nodes(level, to - from);
      var node := Refine(ch, level);
      DrawnMore(fair, old(Now()), Now(), 1, need);
      if node.None? {
        return Err(NoRoom);
      }
      ghost var k1 := Now();
      DrawnSize(fair, old(Now()), Now(), 1);
      var at, kids := node.value.0, node.value.1;
      r := NodeEnsure(ch, at, kids, level, from, to);
      DrawnThen(fair, old(Now()), k1, 1, Now(), need - (to - from), need);
      if r.Ok? {
        KeptChild(ch, at, kids, r.value, level, old(Now()), k1, Now());
      }
    }

    /** The same below a node whose children answer like ch. */
    method NodeEnsure(ghost ch: Child, at: nat, kids: seq<Child>, level: nat, from: nat, to: nat) returns (r: Result<Child, MapError>)
      requires level > 0 && |kids| == NODE_FANOUT && AllWF(kids, level - 1) && from < to <= Cov(level)
      requires SameLook(ch, level, kids, level - 1)
      modifies this`pool, this`unitOf, this`slack
      ensures r.Ok? ==> r.value.Refined? && WF(r.value, level)
      ensures forall p :: old(pool) <= p && r.Ok? ==> Ensured(ch, r.value, level, from, to, p)
      ensures r.Ok? ==> Kept(Bag(Refined(at, level - 1, kids), level), old(Now()), Bag(r.value, level), Now())
      ensures r.Err? ==> r.error == NoRoom && !CanGive(pool, 1)
      ensures Drawn(fair, old(Now()), Now(), 2 * HolesIn(ch, level, from, to) + Nodes(level - 1, to - from))
      ensures r.Err? && fair ==> |old(pool)| < 2 * HolesIn(ch, level, from, to) + Nodes(level - 1, to - from)
      decreases level - 1, 2
    {
      hide Look, LookKids, Bag, BagKids, WF, AllWF, Kept, Ensured, KidsEnsured, Drawn, HolesIn, HolesKids, CanGive;
      SameHoles(ch, level, kids, level - 1, from, to);
      CovUp(level - 1);
      StartTop(Cov(level - 1));
      var below := KidsEnsure(kids, level - 1, from, to);
      if below.Err? {
        return Err(below.error);
      }
      SomethingThere(kids, below.value, level - 1, from, to, old(pool));
      NodeOf(at, kids, below.value, level, old(Now()), Now());
      forall p | old(pool) <= p ensures Ensured(ch, Refined(at, level - 1, below.value), level, from, to, p) {
        PoolWider(kids, below.value, level - 1, from, to, old(pool), p);
        RefineEnsured(ch, kids, below.value, level, level - 1, at, from, to, p);
      }
      r := Ok(Refined(at, level - 1, below.value));
    }

    /** Make blocks from..to under a row of children mapped, child by child. */
    method KidsEnsure(kids0: seq<Child>, level: nat, from: nat, to: nat) returns (r: Result<seq<Child>, MapError>)
      requires AllWF(kids0, level) && from <= to <= Start(|kids0|, Cov(level))
      modifies this`pool, this`unitOf, this`slack
      ensures r.Ok? ==> |r.value| == |kids0| && AllWF(r.value, level)
      ensures r.Ok? ==> KidsEnsured(kids0, r.value, level, from, to, old(pool))
      ensures r.Ok? ==> Kept(BagKids(kids0, level), old(Now()), BagKids(r.value, level), Now())
      ensures r.Err? ==> r.error == NoRoom && !CanGive(pool, 1)
      ensures Drawn(fair, old(Now()), Now(), 2 * HolesKids(kids0, level, from, to) + Nodes(level, to - from))
      ensures r.Err? && fair ==> |old(pool)| < 2 * HolesKids(kids0, level, from, to) + Nodes(level, to - from)
      decreases level, 1
    {
      hide Look, LookKids, Bag, BagKids, WF, Kept, Ensured, KidsEnsured, Start, Slot, Drawn, HolesIn, HolesKids, Nodes, CanGive;
      ghost var need := 2 * HolesKids(kids0, level, from, to) + Nodes(level, to - from);
      DrawnNothing(fair, Now(), CostOf(kids0, level, from, from));
      var kids, pos, c := kids0, from, Cov(level);
      NothingAsked(kids, level, from, Now());
      while pos < to
        invariant from <= pos <= to && |kids| == |kids0| && AllWF(kids, level) && pool <= old(pool)
        invariant Drawn(fair, old(Now()), Now(), CostOf(kids0, level, from, pos))
        invariant KidsEnsured(kids0, kids, level, from, pos, old(pool))
        invariant Kept(BagKids(kids0, level), old(Now()), BagKids(kids, level), Now())
      {
        var i := Slot(pos, c);
        SlotIff(pos, i, c);
        SlotBelow(pos, |kids|, c);
        var start := Start(i, c);
        var wantEnd := if to < start + c then to else start + c;
        ghost var was, k0 := kids, Now();
        CostHere(kids0, was, level, from, pos, wantEnd, to, i, old(pool));
        DrawnSize(fair, old(Now()), Now(), CostOf(kids0, level, from, pos));
        var ch := ChildEnsure(kids[i], level, pos - start, wantEnd - start);
        DrawnThen(fair, old(Now()), k0, CostOf(kids0, level, from, pos), Now(),
          2 * HolesIn(kids[i], level, pos - start, wantEnd - start) + Nodes(level, wantEnd - pos), CostOf(kids0, level, from, wantEnd));
        if ch.Err? {
          DrawnMore(fair, old(Now()), Now(), CostOf(kids0, level, from, wantEnd), need);
          return Err(ch.error);
        }
        kids := kids[i := ch.value];
        KidEnsured(was, i, ch.value, level, pos, wantEnd, k0.pool);
        EnsuredTrans(kids0, was, kids, level, from, pos, wantEnd, old(pool), k0.pool);
        KidKept(was, level, i, ch.value, k0, Now());
        KeptTrans(BagKids(kids0, level), old(Now()), BagKids(was, level), k0, BagKids(kids, level), Now());
        KeptShrinks(BagKids(kids0, level), old(Now()), BagKids(kids, level), Now());
        pos := wantEnd;
      }
      r := Ok(kids);
    }

    // --- inserting ------------------------------------------------------------------------------

    /** Record an already allocated run in the hole at block f of a child's range. */
    method InsertInChild(ch: Child, level: nat, f: nat, blk: nat, len: nat) returns (r: Result<Child, MapError>)
      requires WF(ch, level) && len >= 1 && f + len <= Cov(level) && HoleIn(ch, level, f, f + len)
      modifies this`pool, this`unitOf, this`slack
      ensures r.Ok? ==> WF(r.value, level) && Inserted(ch, r.value, level, f, blk, len)
      ensures r.Ok? ==> Kept(Bag(ch, level) + RunBag(blk, len), old(Now()), Bag(r.value, level), Now())
      ensures r.Err? ==> r.error == NoRoom && !CanGive(pool, 1)
      ensures Drawn(fair, old(Now()), Now(), Nodes(level, len))
      ensures r.Err? && fair ==> |old(pool)| < Nodes(level, len)
      decreases level, 0
    {
      hide Look, LookKids, Bag, BagKids, AllWF, Kept, Inserted, HoleIn, RunBag, Drawn, CanGive;
      DrawnNothing(fair, Now(), Nodes(level, len));
      if ch.Refined? {
        NodeLook(ch.at, ch.kids, level - 1);
        r := InsertBelow(ch, ch.at, ch.kids, level, f, blk, len);
        DrawnMore(fair, old(Now()), Now(), Nodes(level - 1, len), Nodes(level, len));
      } else {
        if ch.Free? && f == 0 {
          WholeRun(level, blk, len, Now());
          return Ok(Full(len, blk));
        }
        if ch.Full? && f == ch.blocks && blk == ch.addr + ch.blocks {
          // the run got goes on where the last extent ends
          LongerRun(ch, level, len, Now());
          return Ok(Full(ch.blocks + len, ch.addr));
        }
        NoCollision(ch, level, f, len);
        if level == 0 {
          return Err(LevelZero);
        }
        ghost var k0 := Now();
        var node := Refine(ch, level);
        DrawnMore(fair, old(Now()), Now(), 1, Nodes(level, len));
        if node.None? {
          return Err(NoRoom);
        }
        ghost var k1 := Now();
        DrawnSize(fair, old(Now()), Now(), 1);
        var at, kids := node.value.0, node.value.1;
        r := InsertBelow(ch, at, kids, level, f, blk, len);
        DrawnThen(fair, old(Now()), k1, 1, Now(), Nodes(level - 1, len), Nodes(level, len));
        if r.Ok? {
          KeptChildPlus(ch, at, kids, r.value, level, k0, k1, Now(), RunBag(blk, len));
        }
      }
    }

    method InsertBelow(ghost ch: Child, at: nat, kids: seq<Child>, level: nat, f: nat, blk: nat, len: nat) returns (r: Result<Child, MapError>)
      requires level > 0 && |kids| == NODE_FANOUT && AllWF(kids, level - 1) && f + len <= Cov(level)
      requires SameLook(ch, level, kids, level - 1) && HoleIn(ch, level, f, f + len) && len >= 1
      modifies this`pool, this`unitOf, this`slack
      ensures r.Ok? ==> WF(r.value, level) && Inserted(ch, r.value, level, f, blk, len)
      ensures r.Ok? ==>
        Kept(Bag(Refined(at, level - 1, kids), level) + RunBag(blk, len), old(Now()), Bag(r.value, level), Now())
      ensures r.Err? ==> r.error == NoRoom && !CanGive(pool, 1)
      ensures Drawn(fair, old(Now()), Now(), Nodes(level - 1, len))
      ensures r.Err? && fair ==> |old(pool)| < Nodes(level - 1, len)
      decreases level - 1, 2
    {
      hide Look, LookKids, Bag, BagKids, WF, AllWF, Kept, Inserted, KidsInserted, HoleIn, HoleInKids, RunBag, Drawn, CanGive;
      CovUp(level - 1);
      StartTop(Cov(level - 1));
      RefinedHole(ch, kids, level, level - 1, f, f + len);
      var below := InsertKids(kids, level - 1, f, blk, len);
      if below.Err? {
        return Err(below.error);
      }
      SomethingInserted(kids, below.value, level - 1, f, blk, len);
      NodeOfPlus(at, kids, below.value, level, old(Now()), Now(), RunBag(blk, len));
      RefineInserted(ch, kids, below.value, level, level - 1, at, f, blk, len);
      r := Ok(Refined(at, level - 1, below.value));
    }

    /** Record a run under a row of children, splitting it at child boundaries. */
    method InsertKids(kids0: seq<Child>, level: nat, f: nat, blk: nat, len: nat) returns (r: Result<seq<Child>, MapError>)
      requires AllWF(kids0, level) && f + len <= Start(|kids0|, Cov(level)) && HoleInKids(kids0, level, f, f + len)
      modifies this`pool, this`unitOf, this`slack
      ensures r.Ok? ==> |r.value| == |kids0| && AllWF(r.value, level) && KidsInserted(kids0, r.value, level, f, blk, len)
      ensures r.Ok? ==> Kept(BagKids(kids0, level) + RunBag(blk, len), old(Now()), BagKids(r.value, level), Now())
      ensures r.Err? ==> r.error == NoRoom && !CanGive(pool, 1)
      ensures Drawn(fair, old(Now()), Now(), Nodes(level, len))
      ensures r.Err? && fair ==> |old(pool)| < Nodes(level, len)
      decreases level, 1
    {
      hide Look, LookKids, Bag, BagKids, WF, Kept, Inserted, KidsInserted, HoleIn, HoleInKids, Start, Slot, RunBag, Drawn, Nodes, CanGive;
      DrawnNothing(fair, Now(), Nodes(level, 0));
      var kids, pos, c := kids0, 0, Cov(level);
      NothingInserted(kids, level, f, blk, Now());
      while pos < len
        invariant pos <= len && |kids| == |kids0| && AllWF(kids, level)
        invariant Drawn(fair, old(Now()), Now(), Nodes(level, pos))
        invariant KidsInserted(kids0, kids, level, f, blk, pos)
        invariant Kept(BagKids(kids0, level) + RunBag(blk, pos), old(Now()), BagKids(kids, level), Now())
      {
        var at := f + pos;
        var i := Slot(at, c);
        SlotIff(at, i, c);
        SlotBelow(at, |kids|, c);
        var start := Start(i, c);
        var chunk := (if len < start + c - at + pos then len else start + c - at + pos) - pos;
        ghost var was, k0 := kids, Now();
        NodesSum(level, pos, chunk);
        NodesMono(level, level, pos + chunk, len);
        DrawnSize(fair, old(Now()), Now(), Nodes(level, pos));
        StillHole(kids0, was, level, f, blk, pos, len);
        HolePart(was, level, at, at + chunk, f + len);
        KidHole(was, i, level, at, at + chunk);
        var ch := InsertInChild(kids[i], level, at - start, blk + pos, chunk);
        DrawnThen(fair, old(Now()), k0, Nodes(level, pos), Now(), Nodes(level, chunk), Nodes(level, pos + chunk));
        if ch.Err? {
          DrawnMore(fair, old(Now()), Now(), Nodes(level, pos + chunk), Nodes(level, len));
          return Err(ch.error);
        }
        kids := kids[i := ch.value];
        KidInserted(was, i, ch.value, level, at, blk + pos, chunk);
        InsertedTrans(kids0, was, kids, level, f, blk, pos, chunk);
        KidKeptPlus(was, level, i, ch.value, k0, Now(), RunBag(blk + pos, chunk));
        KeptPlusTrans(BagKids(kids0, level), blk, pos, chunk, old(Now()), BagKids(was, level), k0, BagKids(kids, level), Now());
        pos := pos + chunk;
      }
      r := Ok(kids);
    }

    // --- whole mappings ----------------------------------------------------------------------------

    /** Hand a run back to the allocator, which refuses one that starts inside a granule. */
    method GiveBack(blk: nat, n: nat) returns (ok: bool)
      modifies this`pool, this`handed
      ensures ok <==> Releasable(unitOf, blk, n)
      ensures ok ==> pool == old(pool) + Interval(blk, n) && handed == old(handed) + [Extent(0, blk, n)]
      ensures !ok ==> pool == old(pool) && handed == old(handed)
    {
      ok := Releasable(unitOf, blk, n);
      if ok {
        pool := pool + Interval(blk, n);
        handed := handed + [Extent(0, blk, n)];
      }
    }

    /** One level more: what the root had becomes the first child of the new root. */
    method RootGrow() returns (ok: bool)
      requires Valid() && mapping.Tree?
      modifies this`mapping, this`pool, this`unitOf, this`slack, this`handed
      ensures ok <==> CanGive(old(pool), 1)
      ensures !ok ==> mapping == old(mapping) && pool == old(pool) && (fair ==> pool == {})
      ensures Drawn(fair, old(Now()), Now(), 1)
      ensures ok ==> Valid() && mapping.Tree? && mapping.level == old(mapping).level + 1
      ensures ok ==> SameMap(old(mapping), mapping) && Kept(Owned(old(mapping)), old(Now()), Owned(mapping), Now())
    {
      hide LookKids, BagKids, Kept, WF, AllWF, CanGive;
      var level, kids := mapping.level, mapping.kids;
      var node := NodeAlloc();
      if node.None? {
        return false;
      }
      ghost var k1 := Now();
      var wide, any := FreeKids(NODE_FANOUT), false;
      for i := 0 to ROOT_FANOUT
        invariant |wide| == NODE_FANOUT && mapping == old(mapping) && pool == k1.pool
        invariant forall k :: 0 <= k < NODE_FANOUT ==> wide[k] == if k < i then kids[k] else Free
        invariant any <==> exists k :: 0 <= k < i && !kids[k].Free?
      {
        if !kids[i].Free? {
          wide := wide[i := kids[i]];
          any := true;
        }
      }
      assert wide == kids + FreeKids(NODE_FANOUT - ROOT_FANOUT);
      if any {
        mapping := Tree(level + 1, FreeKids(ROOT_FANOUT)[0 := Refined(node.value, level, wide)]);
        Grown(old(mapping), level, kids, node.value, mapping, old(Now()), k1);
      } else {
        // an all-hole root needs no node below the new one
        ok := GiveBack(node.value, 1);
        NodeBack(fair, old(Now()), k1, Now(), node.value);
        mapping := Tree(level + 1, FreeKids(ROOT_FANOUT));
        GrownEmpty(old(mapping), level, kids, node.value, mapping, old(Now()), k1, Now());
      }
      ok := true;
    }

    /** Record an allocated run in a hole of the tree. */
    method InsertRun(f: nat, blk: nat, len: nat) returns (ok: bool)
      requires Valid() && mapping.Tree? && f + len <= Start(ROOT_FANOUT, Cov(mapping.level))
      requires HoleInKids(mapping.kids, mapping.level, f, f + len)
      modifies this`mapping, this`pool, this`unitOf, this`slack
      ensures Drawn(fair, old(Now()), Now(), Nodes(old(mapping).level, len))
      ensures !ok ==> !CanGive(pool, 1) && (fair ==> |old(pool)| < Nodes(old(mapping).level, len))
      ensures ok ==> Valid() && mapping.Tree? && mapping.level == old(mapping).level
      ensures ok ==> KidsInserted(old(mapping).kids, mapping.kids, mapping.level, f, blk, len)
      ensures ok ==> Kept(BagKids(old(mapping).kids, mapping.level) + RunBag(blk, len), old(Now()), BagKids(mapping.kids, mapping.level), Now())
    {
      hide LookKids, BagKids, Kept, RunBag, AllWF, Start, Drawn, Nodes, CanGive;
      var r := InsertKids(mapping.kids, mapping.level, f, blk, len);
      if r.Err? {
        return false;
      }
      mapping := mapping.(kids := r.value);
      ok := true;
    }

    /** Turn inline extents into a tree that covers them. */
    method ToTree(extents: seq<Extent>) returns (ok: bool)
      requires ExtentsOk(extents)
      modifies this`mapping, this`pool, this`unitOf, this`slack
      ensures ok ==> mapping.Tree? && mapping.level == LevelFor(0, EndOf(extents))
      ensures Drawn(fair, old(Now()), Now(), Nodes(LevelFor(0, EndOf(extents)), DataExtents(extents)))
      ensures !ok ==> !CanGive(pool, 1) && (fair ==> |old(pool)| < Nodes(LevelFor(0, EndOf(extents)), DataExtents(extents)))
      ensures ok ==> Valid() && mapping.Tree? && forall f: nat :: BlockOf(mapping, f) == LookInline(extents, f)
      ensures ok ==> Kept(BagExtents(extents), old(Now()), Owned(mapping), Now())
    {
      hide LookKids, BagKids, Kept, RunBag, AllWF, Start, KidsInserted, HoleInKids, Drawn, Nodes, DataExtents, CanGive;
      var needed := Needed(extents);
      var level := 0;
      while ROOT_FANOUT * Cov(level) < needed
        invariant Now() == old(Now()) && LevelFor(level, needed) == LevelFor(0, needed)
        decreases needed - ROOT_FANOUT * Cov(level)
      {
        CovUp(level);
        level := level + 1;
      }
      mapping := Tree(level, FreeKids(ROOT_FANOUT));
      EmptyTree(level, extents[..0], Now());
      RootStart(Cov(level));
      ghost var most := DataExtents(extents);
      NoData();
      DrawnNothing(fair, Now(), Nodes(level, 0));
      for k := 0 to |extents|
        invariant Valid() && mapping.Tree? && mapping.level == level
        invariant Drawn(fair, old(Now()), Now(), Nodes(level, DataExtents(extents[..k])))
        invariant forall f: nat :: LookKids(mapping.kids, level, f) == LookInline(extents[..k], f)
        invariant Kept(BagExtents(extents[..k]), old(Now()), BagKids(mapping.kids, level), Now())
      {
        var e := extents[k];
        NextExtent(extents, k, mapping.kids, level);
        ghost var was, k1 := mapping.kids, Now();
        ghost var paid := DataExtents(extents[..k]);
        DataPrefixOf(extents, k);
        NodesSum(level, paid, e.blocks);
        NodesMono(level, level, paid + e.blocks, most);
        DrawnSize(fair, old(Now()), Now(), Nodes(level, paid));
        ok := InsertRun(e.first, e.blk, e.blocks);
        DrawnThen(fair, old(Now()), k1, Nodes(level, paid), Now(), Nodes(level, e.blocks), Nodes(level, paid + e.blocks));
        if !ok {
          DrawnMore(fair, old(Now()), Now(), Nodes(level, paid + e.blocks), Nodes(level, most));
          return;
        }
        ExtentIn(extents, k, was, mapping.kids, level);
        ExtentKept(extents, k, was, mapping.kids, level, old(Now()), k1, Now());
      }
      assert extents[..|extents|] == extents;
      ok := true;
    }

    /** The end of the last extent. */
    method Needed(extents: seq<Extent>) returns (end: nat)
      requires ExtentsOk(extents)
      ensures end == EndOf(extents)
      ensures forall i :: 0 <= i < |extents| ==> extents[i].first + extents[i].blocks <= end
    {
      if extents == [] {
        return 1;
      }
      end := 0;
      for k := 0 to |extents|
        invariant if k == 0 then end == 0 else end == EndOf(extents[..k])
        invariant forall i :: 0 <= i < k ==> extents[i].first + extents[i].blocks <= end
      {
        assert extents[..k + 1][..k] == extents[..k];
        if end < extents[k].first + extents[k].blocks {
          end := extents[k].first + extents[k].blocks;
        }
      }
      assert extents[..|extents|] == extents;
    }

    method FindCovering(extents: seq<Extent>, pos: nat) returns (r: Option<nat>)
      ensures r.Some? ==> r.value < |extents| && InExtent(extents[r.value], pos)
      ensures r.None? ==> forall i :: 0 <= i < |extents| ==> !InExtent(extents[i], pos)
    {
      for i := 0 to |extents|
        invariant forall k :: 0 <= k < i ==> !InExtent(extents[k], pos)
      {
        if InExtent(extents[i], pos) {
          return Some(i);
        }
      }
      return None;
    }

    /** The first block behind pos that an extent starts at, or end. */
    method NextStart(extents: seq<Extent>, pos: nat, end: nat) returns (next: nat)
      requires pos < end
      ensures pos < next <= end && (extents == [] ==> next == end)
      ensures forall i :: 0 <= i < |extents| && extents[i].first > pos ==> next <= extents[i].first
    {
      next := end;
      for i := 0 to |extents|
        invariant pos < next <= end && (extents == [] ==> next == end)
        invariant forall k :: 0 <= k < i && extents[k].first > pos ==> next <= extents[k].first
      {
        if pos < extents[i].first < next {
          next := extents[i].first;
        }
      }
    }

    /** Add an allocated run at pos, growing the extent it continues if there is one. */
    method AddRun(extents: seq<Extent>, pos: nat, blk: nat, want: nat) returns (r: seq<Extent>)
      requires ExtentsOk(extents) && want >= 1
      requires forall i :: 0 <= i < |extents| ==> Disjoint(extents[i], Extent(pos, blk, want))
      ensures r != [] && (extents == [] ==> r == [Extent(pos, blk, want)])
      ensures Added(extents, r, pos, blk, want)
    {
      hide ExtentsOk, Added;
      for i := 0 to |extents| {
        var e := extents[i];
        if e.first + e.blocks == pos && e.blk + e.blocks == blk {
          AddedLonger(extents, i, want);
          return extents[i := Extent(e.first, e.blk, e.blocks + want)];
        }
      }
      AddedBehind(extents, Extent(pos, blk, want));
      return extents + [Extent(pos, blk, want)];
    }

    /**
    Ensure on inline extents. Converts to a tree when there are too many of them or an allocation
    fails; then reached tells how far it got.
    */
    method ExtentEnsure(first: nat, n: nat) returns (ok: bool, ghost reached: nat)
      requires Valid() && mapping.Inline?
      modifies this`mapping, this`pool, this`unitOf, this`slack
      ensures first <= reached <= first + n
      ensures Drawn(fair, old(Now()), Now(),
        2 * Holes(old(mapping), first, reached) + ToTreeCost(old(mapping).extents, first + n, Holes(old(mapping), first, first + n)))
      ensures old(mapping).extents == [] ==> (ok <==> n == 0 || CanGive(old(pool), n)) && (ok ==> mapping.Inline? && (n >= 1 ==> OneRun(mapping, first, n)))
      ensures !ok && old(mapping).extents != [] ==>
        !CanGive(pool, 1)
            && (fair ==> |old(pool)| < 2 * Holes(old(mapping), first, first + n)
                                       + ToTreeCost(old(mapping).extents, first + n, Holes(old(mapping), first, first + n)))
      ensures ok && mapping.Tree? ==> LevelFor(mapping.level, first + n) <= TreeLevel(old(mapping).extents, first + n)
      ensures ok ==> Valid() && (mapping.Inline? || mapping.Tree?)
      ensures ok && mapping.Inline? ==> reached == first + n && InOrder(mapping.extents)
      ensures ok ==> MapEnsured(old(mapping), mapping, first, reached, old(pool))
      ensures ok ==> Kept(Owned(old(mapping)), old(Now()), Owned(mapping), Now())
    {
      hide LookInline, BagExtents, Kept, ExtentsOk, Ens, InOrder, Drawn, Holes, LevelFor, EndOf, DataExtents, CanGive, ToTreeCost, TreeLevel, Midway, Well, MapEnsured, Added, Owned, Interval, InOneUnit, Took;
      ghost var m0, cost := mapping, ToTreeCost(mapping.extents, first + n, Holes(mapping, first, first + n));
      ghost var k0, extents0 := Now(), mapping.extents;
      var extents, pos, end := mapping.extents, first, first + n;
      SetOut(fair, m0, first, end, k0);
      while pos < end
        invariant first <= pos && mapping == m0 && (extents0 != [] ==> extents != [])
        invariant Midway(fair, m0, k0, extents, first, pos, end, Now())
        invariant extents0 == [] ==> (extents == [] && pos == first && pool == k0.pool) || (pos == end && OneRun(Inline(extents), first, n) && CanGive(k0.pool, n))
        decreases end - pos
      {
        OnTheWay(fair, m0, k0, extents, first, pos, end, Now());
        var covering := FindCovering(extents, pos);
        if covering.Some? {
          WayCovered(fair, m0, k0, extents, covering.value, first, pos, end, Now());
          pos := extents[covering.value].first + extents[covering.value].blocks;
          continue;
        }
        var next := NextStart(extents, pos, end);
        var want := next - pos;
        ghost var k1, was := Now(), extents;
        var blk := Alloc(want);
        if blk.None? {
          reached := pos;
          if extents == [] {
            DrawnMore(fair, k0, Now(), 2 * Holes(m0, first, pos), 2 * Holes(m0, first, pos) + cost);
            return false, reached;
          }
          // no single run is to be had: pieces will be, and a tree holds them
          ok := Convert(extents, m0, k0, first, pos, end);
          return ok, reached;
        }
        RoomBetween(extents, pos, next, blk.value);
        extents := AddRun(extents, pos, blk.value, want);
        WayAdded(fair, m0, k0, was, extents, first, pos, want, end, blk.value, k1, Now());
        pos := next;
      }
      reached := end;
      if |extents| > MAX_INLINE_EXTENTS {
        ok := Convert(extents, m0, k0, first, pos, end);
      } else {
        WayInline(fair, m0, k0, extents, first, pos, end, Now());
        mapping := Inline(Sorted(extents));
        DrawnMore(fair, k0, Now(), 2 * Holes(m0, first, end), 2 * Holes(m0, first, end) + cost);
        SortedOne(extents);
        ok := true;
      }
    }

    /** Put the extents reached so far into a tree. */
    method Convert(extents: seq<Extent>, ghost m0: FileMap, ghost k0: Stock, ghost first: nat, ghost pos: nat, ghost end: nat)
      returns (ok: bool)
      requires Midway(fair, m0, k0, extents, first, pos, end, Now()) && first <= end
      modifies this`mapping, this`pool, this`unitOf, this`slack
      ensures var cost := ToTreeCost(m0.extents, end, Holes(m0, first, end));
        && Drawn(fair, k0, Now(), 2 * Holes(m0, first, Upto(pos, end)) + cost)
        && (!ok ==> !CanGive(pool, 1) && (fair ==> |k0.pool| < 2 * Holes(m0, first, end) + cost))
      ensures ok ==> Valid() && mapping.Tree? && LevelFor(mapping.level, end) <= TreeLevel(m0.extents, end)
      ensures ok ==> MapEnsured(m0, mapping, first, Upto(pos, end), k0.pool)
      ensures ok ==> Kept(Owned(m0), k0, Owned(mapping), Now())
    {
      hide LookInline, LookKids, BagKids, BagExtents, Kept, ExtentsOk, Ens, Drawn, Holes, Nodes, LevelFor, EndOf, DataExtents, ToTreeCost, TreeLevel, InlineEnsured, CanGive;
      ghost var paid, cost := 2 * Holes(m0, first, Upto(pos, end)), ToTreeCost(m0.extents, end, Holes(m0, first, end));
      ghost var k1 := Now();
      GrownCost(m0, extents, first, pos, end);
      HolesMore(m0, first, Upto(pos, end), end);
      DrawnSize(fair, k0, k1, paid);
      ok := ToTree(extents);
      DrawnThen(fair, k0, k1, paid, Now(), Nodes(LevelFor(0, EndOf(extents)), DataExtents(extents)), paid + cost);
      if ok {
        TreeInstead(m0.extents, extents, mapping, first, pos, end, k0.pool);
        KeptTrans(BagExtents(m0.extents), k0, BagExtents(extents), k1, Owned(mapping), Now());
      }
    }

    /** Ensure on a tree, whose root is raised until it covers the range. */
    method TreeEnsure(first: nat, n: nat) returns (ok: bool)
      requires Valid() && mapping.Tree?
      modifies this`mapping, this`pool, this`unitOf, this`slack, this`handed
      ensures Drawn(fair, old(Now()), Now(), Need(old(mapping), first, n))
      ensures !ok ==> !CanGive(pool, 1) && (fair ==> |old(pool)| < Need(old(mapping), first, n))
      ensures ok ==> Valid() && mapping.Tree? && MapEnsured(old(mapping), mapping, first, first + n, old(pool))
      ensures ok ==> Kept(Owned(old(mapping)), old(Now()), Owned(mapping), Now())
    {
      hide BlockOf, LookKids, BagKids, Kept, AllWF, Ens, Start, Drawn, Holes, HolesKids, Nodes, CanGive, MapEnsured, KidsEnsured;
      ghost var m0, k0, end := mapping, Now(), first + n;
      ghost var holes, top := Holes(m0, first, end), LevelFor(m0.level, end);
      EnsuredNothing(mapping, first, Now());
      DrawnNothing(fair, Now(), 0);
      // add levels until the tree covers the range
      while first + n > ROOT_FANOUT * Cov(mapping.level)
        invariant Valid() && mapping.Tree? && m0.level <= mapping.level <= LevelFor(mapping.level, end) == top
        invariant SameMap(m0, mapping) && Kept(Owned(m0), k0, Owned(mapping), Now())
        invariant Drawn(fair, k0, Now(), mapping.level - m0.level)
        decreases first + n - ROOT_FANOUT * Cov(mapping.level)
      {
        ghost var was, k1 := mapping, Now();
        CovUp(mapping.level);
        DrawnSize(fair, k0, Now(), mapping.level - m0.level);
        ok := RootGrow();
        DrawnThen(fair, k0, k1, was.level - m0.level, Now(), 1, was.level + 1 - m0.level);
        if !ok {
          DrawnMore(fair, k0, Now(), was.level + 1 - m0.level, Need(m0, first, n));
          return;
        }
        KeptTrans(Owned(m0), k0, Owned(was), k1, Owned(mapping), Now());
      }
      RootStart(Cov(mapping.level));
      ghost var was, k1 := mapping, Now();
      SameMapHoles(m0, was, first, end);
      TreeHoles(was.level, was.kids, first, end);
      DrawnSize(fair, k0, Now(), top - m0.level);
      var kids := KidsEnsure(mapping.kids, mapping.level, first, first + n);
      DrawnThen(fair, k0, k1, top - m0.level, Now(), 2 * holes + Nodes(top, n), Need(m0, first, n));
      if kids.Err? {
        return false;
      }
      mapping := mapping.(kids := kids.value);
      EnsuredKids(m0, was, mapping, first, end, k0.pool, k1.pool);
      KeptTrans(Owned(m0), k0, Owned(was), k1, Owned(mapping), Now());
      ok := true;
    }

    /**
    Make file blocks first..first+n mapped, allocating where needed. On success every one of them is
    mapped, every mapping there was is unchanged, the new ones are the former holes of the range and
    nothing else, and no block is owned twice that was not before. The pieces cover the range. It fails
    only when no single block is to be had any more, or, with no extent yet, when no run of n is.
    */
    method MapEnsure(first: nat, n: nat) returns (r: Result<seq<Extent>, MapError>)
      requires Valid() && first + n < MAX_U64
      modifies this
      ensures r.Ok? ==> Valid() && MapEnsured(old(mapping), mapping, first, first + n, old(pool))
      ensures r.Ok? ==> Kept(Owned(old(mapping)), old(Now()), Owned(mapping), Now())
      ensures r.Ok? && Sound(old(mapping), old(pool)) ==> Sound(mapping, pool)
      ensures r.Ok? && Sound(old(mapping), old(pool)) && Known(old(unitOf), old(mapping)) ==> Known(unitOf, mapping)
      ensures r.Ok? ==> Collected(mapping, r.value, first, first + n)
      ensures r.Err? ==> r.error == NoRoom
      ensures Bare(old(mapping)) ==> (r.Ok? <==> n == 0 || CanGive(old(pool), n)) && (r.Ok? && n >= 1 ==> OneRun(mapping, first, n))
      ensures r.Err? && !Bare(old(mapping)) ==> !CanGive(pool, 1) && (fair ==> |old(pool)| < Need(old(mapping), first, n))
      ensures Drawn(fair, old(Now()), Now(), Need(old(mapping), first, n))
      decreases if mapping.Inline? || mapping.Tree? then 0 else 1
    {
      hide BlockOf, Owned, Kept, Well, Ens, Sound, Known, Drawn, Need, CanGive, MapEnsured, Collected;
      ghost var m0, k0, need := mapping, Now(), Need(mapping, first, n);
      if mapping.Inline? {
        var ok;
        ghost var reached;
        ok, reached := ExtentEnsure(first, n);
        ghost var mid, k1 := mapping, Now();
        ghost var paid := 2 * Holes(m0, first, reached) + ToTreeCost(m0.extents, first + n, Holes(m0, first, first + n));
        InlinePaid(m0, first, n, reached);
        DrawnMore(fair, k0, Now(), paid, need);
        if !ok {
          return Err(NoRoom);
        }
        if mapping.Tree? {
          InlineThenTree(m0, mid, first, n, reached, k0.pool);
          DrawnSize(fair, k0, Now(), paid);
          ok := TreeEnsure(first, n);
          DrawnThen(fair, k0, k1, paid, Now(), Need(mid, first, n), need);
          if !ok {
            return Err(NoRoom);
          }
          EnsuredOn(m0, mid, mapping, first, reached, first + n, k0.pool, k1.pool);
          KeptTrans(Owned(m0), k0, Owned(mid), k1, Owned(mapping), Now());
        }
        // otherwise the growth left the extents inline, so they hold the answer
      } else if mapping.Tree? {
        var ok := TreeEnsure(first, n);
        if !ok {
          return Err(NoRoom);
        }
      } else {
        StartInline(m0, first, n);
        mapping := Inline([]);
        r := MapEnsure(first, n);
        if r.Ok? {
          FromNothing(m0, mapping, first, first + n, k0.pool);
          SoundKept(m0, k0, mapping, Now());
          if Sound(m0, k0.pool) && Known(k0.units, m0) {
            KnownKept(fair, m0, k0, mapping, Now(), need);
          }
        }
        return;
      }
      AllMapped(m0, mapping, first, first + n, k0.pool);
      SoundKept(m0, k0, mapping, Now());
      if Sound(m0, k0.pool) && Known(k0.units, m0) {
        KnownKept(fair, m0, k0, mapping, Now(), need);
      }
      r := CollectRuns(first, n);
    }

    /** The runs that cover a range all of which is mapped. */
    method CollectRuns(first: nat, n: nat) returns (r: Result<seq<Extent>, MapError>)
      requires Valid() && first + n < MAX_U64
      requires forall f: nat :: first <= f < first + n ==> BlockOf(mapping, f).Some?
      ensures r.Ok? && Collected(mapping, r.value, first, first + n)
    {
      hide BlockOf, MapLookup, Well, Says;
      var out, pos, end := [], first, first + n;
      while pos < end
        invariant first <= pos <= end && Collected(mapping, out, first, pos)
      {
        LookupSound(mapping, pos);
        AnswerHere(mapping, pos);
        match MapLookup(mapping, pos) {
          case Run(blk, len) =>
            var take := if len < end - pos then len else end - pos;
            PieceGood(mapping, pos, take);
            out := out + [Extent(pos, blk, take)];
            pos := pos + take;
          case Hole(_) =>
            return Err(HoleLeft);
        }
      }
      r := Ok(out);
    }

    // --- freeing --------------------------------------------------------------------------------------

    /** The allocation unit of the run at a block, as the allocator tells it. */
    method GranuleAt(blk: nat) returns (g: Option<nat>)
      ensures g == if blk in unitOf then Some(unitOf[blk]) else None
    {
      return if blk in unitOf then Some(unitOf[blk]) else None;
    }

    /** Release every block of a child, nodes included; the count is of data blocks only. */
    method FreeChild(ch: Child, level: nat) returns (freed: Option<nat>)
      requires WF(ch, level)
      modifies this`pool, this`handed
      ensures freed.Some? <==> AllReleasable(unitOf, ch, level)
      ensures freed.Some? ==> freed.value == Data(ch, level)
      ensures freed.Some? ==> Ledger(old(handed), handed, Bag(ch, level), multiset{})
      ensures freed.Some? ==> Conserved(Bag(ch, level), old(pool), multiset{}, pool)
      decreases level, 0
    {
      hide KidsReleasable, Releasable;
      hide Bag, BagKids, RunBag, Ledger, Conserved, Data, DataKids;
      match ch {
        case Free =>
          FreedNone(level, handed, pool);
          return Some(0);
        case Full(blocks, addr) =>
          FreedRun(blocks, addr, level, handed, pool);
          var ok := GiveBack(addr, blocks);
          return if ok then Some(blocks) else None;
        case Refined(at, _, kids) =>
          freed := FreeKidsOf(kids, level - 1);
          if freed.None? {
            return;
          }
          FreedNode(at, kids, level, old(handed), handed, old(pool), pool);
          var ok := GiveBack(at, 1); // the node block itself is no data block
          return if ok then freed else None;
      }
    }

    method FreeKidsOf(kids: seq<Child>, level: nat) returns (r: Option<nat>)
      requires AllWF(kids, level)
      modifies this`pool, this`handed
      ensures r.Some? <==> KidsReleasable(unitOf, kids, level)
      ensures r.Some? ==> r.value == DataKids(kids, level)
      ensures r.Some? ==> Ledger(old(handed), handed, BagKids(kids, level), multiset{})
      ensures r.Some? ==> Conserved(BagKids(kids, level), old(pool), multiset{}, pool)
      decreases level, 1
    {
      hide AllReleasable;
      hide Bag, BagKids, Ledger, Conserved, Data, DataKids, WF;
      var freed: nat := 0;
      EmptyFreed(kids[..0], level, handed, pool);
      for i := 0 to |kids|
        invariant forall k :: 0 <= k < i ==> AllReleasable(unitOf, kids[k], level)
        invariant freed == DataKids(kids[..i], level)
        invariant Ledger(old(handed), handed, BagKids(kids[..i], level), multiset{})
        invariant Conserved(BagKids(kids[..i], level), old(pool), multiset{}, pool)
      {
        ghost var h1, p1 := handed, pool;
        var more := FreeChild(kids[i], level);
        if more.None? {
          return None;
        }
        freed := freed + more.value;
        MoreFreed(kids, level, i, old(handed), h1, handed, old(pool), p1, pool);
      }
      assert kids[..|kids|] == kids;
      r := Some(freed);
    }

    /** Delete: hand back everything and reset the mapping. */
    method MapFreeAll() returns (ok: bool)
      requires Valid()
      modifies this`mapping, this`pool, this`handed
      ensures ok <==> MapReleasable(unitOf, old(mapping))
      ensures ok ==> mapping == Empty && Valid()
      ensures ok ==> Ledger(old(handed), handed, Owned(old(mapping)), Owned(mapping))
      ensures ok ==> Conserved(Owned(old(mapping)), old(pool), Owned(mapping), pool)
      ensures ok && Sound(old(mapping), old(pool)) ==> Sound(mapping, pool)
    {
      hide Releasable, KidsReleasable;
      hide Bag, BagKids, Ledger, Conserved, RunBag, WF, BagExtents, Sound;
      match mapping {
        case Inline(extents) =>
          NoExtents(extents[..0], handed, pool);
          for i := 0 to |extents|
            invariant mapping == old(mapping) && unitOf == old(unitOf)
            invariant forall k :: 0 <= k < i ==> Releasable(unitOf, extents[k].blk, extents[k].blocks)
            invariant Ledger(old(handed), handed, BagExtents(extents[..i]), multiset{})
            invariant Conserved(BagExtents(extents[..i]), old(pool), multiset{}, pool)
          {
            NextFreed(extents, i, old(handed), handed, old(pool), pool);
            ok := GiveBack(extents[i].blk, extents[i].blocks);
            if !ok {
              return;
            }
          }
          assert extents[..|extents|] == extents;
        case Tree(level, kids) =>
          var freed := FreeKidsOf(kids, level);
          if freed.None? {
            return false;
          }
        case _ =>
          NoExtents([], handed, pool);
          assert Owned(mapping) == BagExtents([]) by { NoBag(); }
      }
      mapping := Empty;
      SoundConserved(old(mapping), old(pool), mapping, pool);
      ok := true;
    }

    // --- truncating ---------------------------------------------------------------------------------------

    /** Trim a run to at least keep blocks, at a granule boundary. */
    method TrimRun(addr: nat, blocks: nat, keep: nat) returns (kept: Option<nat>, freed: nat)
      requires 1 <= keep
      modifies this`pool, this`handed
      ensures kept == KeptOf(unitOf, addr, blocks, keep) && (kept.Some? ==> freed == blocks - kept.value && kept.value <= blocks)
      ensures kept.Some? ==> Ledger(old(handed), handed, RunBag(addr, blocks), RunBag(addr, kept.value))
      ensures kept.Some? ==> Conserved(RunBag(addr, blocks), old(pool), RunBag(addr, kept.value), pool)
    {
      hide Ledger, Conserved, RunBag, RoundUp, Interval, Releasable;
      freed := 0;
      RunAsIs(addr, blocks, handed, pool);
      if keep >= blocks {
        return Some(blocks), 0;
      }
      var g := GranuleAt(addr);
      if g.None? {
        return None, 0;
      }
      RoundUpNear(keep, g.value);
      var keepR := if RoundUp(keep, g.value) < blocks then RoundUp(keep, g.value) else blocks;
      if keepR < blocks {
        RunCut(addr, blocks, keepR, handed, pool);
        var ok := GiveBack(addr + keepR, blocks - keepR);
        if !ok {
          return None, 0;
        }
        freed := blocks - keepR;
      }
      kept := Some(keepR);
    }

    /** Cut a child so that its first keep blocks stay. */
    method TrimChild(ch: Child, level: nat, keep: nat) returns (r: Result<Child, MapError>, freed: nat)
      requires WF(ch, level)
      modifies this`pool, this`handed
      ensures r.Ok? ==> WF(r.value, level) && Trimmed(unitOf, ch, r.value, level, keep)
      ensures r.Ok? <==> Cuttable(unitOf, ch, level, keep)
      ensures r.Ok? ==> (r.value.Free? <==> Emptied(ch, level, keep))
      ensures r.Err? ==> r.error == NotAllocated
      ensures r.Ok? ==> freed + Data(r.value, level) == Data(ch, level)
      ensures r.Ok? ==> Ledger(old(handed), handed, Bag(ch, level), Bag(r.value, level))
      ensures r.Ok? ==> Conserved(Bag(ch, level), old(pool), Bag(r.value, level), pool)
      decreases level, 0
    {
      hide KidsReleasable, Releasable, AllReleasable, KeptOf, KidsCuttable, KidsEmptied;
      hide Bag, BagKids, RunBag, Ledger, Conserved, Data, DataKids, Trimmed;
      SameFreed(Bag(ch, level), handed, pool);
      if keep == 0 {
        var all := FreeChild(ch, level);
        if all.None? {
          return Err(NotAllocated), 0;
        }
        freed := all.value;
        CutAll(unitOf, ch, level, handed, pool);
        return Ok(Free), freed;
      }
      if keep >= Cov(level) {
        WholeKept(unitOf, ch, level, keep); // fully kept
        return Ok(ch), 0;
      }
      match ch {
        case Free =>
          CutHole(unitOf, level, keep);
          return Ok(Free), 0;
        case Full(blocks, addr) =>
          var kept;
          kept, freed := TrimRun(addr, blocks, keep);
          if kept.None? {
            return Err(NotAllocated), freed;
          }
          CutRun(unitOf, blocks, addr, level, keep, kept.value);
          return Ok(Full(kept.value, addr)), freed;
        case Refined(at, _, kids) =>
          var below;
          below, freed := TrimKids(kids, level - 1, keep);
          if below.Err? {
            return Err(below.error), freed;
          }
          NodeTrimmed(unitOf, at, kids, below.value, level - 1, level, keep);
          CutNode(at, kids, below.value, level, old(handed), handed, old(pool), pool);
          if AllFree(below.value) {
            // with all children holes the node says no more than a hole does
            CutEmpty(at, below.value, level, old(handed), handed, old(pool), pool, Bag(ch, level));
            var ok := GiveBack(at, 1);
            return if ok then Ok(Free) else Err(NotAllocated), freed;
          }
          return Ok(Refined(at, level - 1, below.value)), freed;
      }
    }

    /** Cut a row of children at block keep. */
    method TrimKids(kids: seq<Child>, level: nat, keep: nat) returns (r: Result<seq<Child>, MapError>, freed: nat)
      requires AllWF(kids, level)
      modifies this`pool, this`handed
      ensures r.Ok? ==> |r.value| == |kids| && AllWF(r.value, level) && KidsTrimmed(unitOf, kids, r.value, level, keep)
      ensures r.Ok? <==> KidsCuttable(unitOf, kids, level, keep)
      ensures r.Ok? ==> (AllFree(r.value) <==> KidsEmptied(kids, level, keep))
      ensures r.Err? ==> r.error == NotAllocated
      ensures r.Ok? ==> freed + DataKids(r.value, level) == DataKids(kids, level)
      ensures r.Ok? ==> Ledger(old(handed), handed, BagKids(kids, level), BagKids(r.value, level))
      ensures r.Ok? ==> Conserved(BagKids(kids, level), old(pool), BagKids(r.value, level), pool)
      decreases level, 1
    {
      hide Bag, BagKids, Ledger, Conserved, Data, DataKids, WF, Trimmed, KidsTrimmed, Start, Cuttable, Emptied;
      var now := kids;
      freed := 0;
      SameFreed(BagKids(kids, level), handed, pool);
      for i := 0 to |kids|
        invariant |now| == |kids| && AllWF(now, level)
        invariant forall k :: 0 <= k < i ==> Trimmed(unitOf, kids[k], now[k], level, KeepIn(keep, Start(k, Cov(level))))
        invariant forall k :: 0 <= k < i ==> Cuttable(unitOf, kids[k], level, KeepIn(keep, Start(k, Cov(level))))
        invariant forall k :: 0 <= k < i ==> (now[k].Free? <==> Emptied(kids[k], level, KeepIn(keep, Start(k, Cov(level)))))
        invariant forall k :: i <= k < |kids| ==> now[k] == kids[k]
        invariant freed + DataKids(now, level) == DataKids(kids, level)
        invariant Ledger(old(handed), handed, BagKids(kids, level), BagKids(now, level))
        invariant Conserved(BagKids(kids, level), old(pool), BagKids(now, level), pool)
      {
        ghost var was, h1, p1 := now, handed, pool;
        var ch, more := TrimChild(now[i], level, KeepIn(keep, Start(i, Cov(level))));
        if ch.Err? {
          return Err(ch.error), freed;
        }
        now := now[i := ch.value];
        freed := freed + more;
        MoreTrimmed(kids, was, level, i, ch.value, old(handed), h1, handed, old(pool), p1, pool);
      }
      RowTrimmed(unitOf, kids, now, level, keep);
      r := Ok(now);
    }

    /**
    Free the mapping from file block cutoff on, runs that straddle it at a granule boundary. Everything
    below stays; what goes is handed back, each block once; the count is of data blocks that went.
    */
    method MapTruncate(cutoff: nat) returns (r: Result<nat, MapError>)
      requires Valid()
      modifies this`mapping, this`pool, this`handed
      ensures r.Ok? ==> Valid() && unitOf == old(unitOf) && MapTrimmed(unitOf, old(mapping), mapping, cutoff)
      ensures r.Ok? <==> MapCuttable(old(unitOf), old(mapping), cutoff)
      ensures MapInUnits(old(unitOf), old(mapping)) ==> r.Ok?
      ensures r.Err? ==> r.error == NotAllocated
      ensures r.Ok? ==> r.value + DataBlocks(mapping) == DataBlocks(old(mapping))
      ensures r.Ok? ==> Ledger(old(handed), handed, Owned(old(mapping)), Owned(mapping))
      ensures r.Ok? ==> Conserved(Owned(old(mapping)), old(pool), Owned(mapping), pool)
      ensures r.Ok? && Sound(old(mapping), old(pool)) ==> Sound(mapping, pool)
    {
      hide BagKids, BagExtents, Ledger, Conserved, DataKids, DataExtents, AllWF, LookKids, LookInline, Sound;
      hide MapInUnits, KidsCuttable, ExtentCuttable;
      SameFreed(Owned(mapping), handed, pool);
      if MapInUnits(unitOf, mapping) {
        MapUnitsCuttable(unitOf, mapping, cutoff);
      }
      match mapping {
        case Inline(extents) =>
          r := TrimExtents(extents, cutoff);
          SoundConserved(old(mapping), old(pool), mapping, pool);
        case Tree(level, kids) =>
          var now, freed := TrimKids(kids, level, cutoff);
          if now.Err? {
            return Err(now.error);
          }
          mapping := Tree(level, now.value);
          TreeTrimmed(unitOf, level, kids, now.value, cutoff);
          SoundConserved(old(mapping), old(pool), mapping, pool);
          r := Ok(freed);
        case _ =>
          return Ok(0);
      }
    }

    method TrimExtents(extents: seq<Extent>, cutoff: nat) returns (r: Result<nat, MapError>)
      requires Valid() && mapping == Inline(extents)
      modifies this`mapping, this`pool, this`handed
      ensures r.Ok? ==> Valid() && unitOf == old(unitOf) && MapTrimmed(unitOf, old(mapping), mapping, cutoff)
      ensures r.Ok? <==> MapCuttable(old(unitOf), old(mapping), cutoff)
      ensures r.Err? ==> r.error == NotAllocated
      ensures r.Ok? ==> r.value + DataBlocks(mapping) == DataBlocks(old(mapping))
      ensures r.Ok? ==> Ledger(old(handed), handed, Owned(old(mapping)), Owned(mapping))
      ensures r.Ok? ==> Conserved(Owned(old(mapping)), old(pool), Owned(mapping), pool)
    {
      hide BagExtents, Ledger, Conserved, DataExtents, LookInline, RunBag, InlineTrimmed, KeptOf, Releasable;
      var keep, freed: nat := [], 0;
      NoExtents(extents[..0], handed, pool);
      NothingKept(unitOf, extents[..0], keep, cutoff);
      for i := 0 to |extents|
        invariant mapping == old(mapping) && unitOf == old(unitOf) && ExtentsOk(keep) && |keep| <= i
        invariant forall j, k :: 0 <= j < |keep| && i <= k < |extents| ==> Disjoint(keep[j], extents[k])
        invariant forall k :: 0 <= k < i ==> ExtentCuttable(unitOf, extents[k], cutoff)
        invariant InlineTrimmed(unitOf, extents[..i], keep, cutoff)
        invariant freed + DataExtents(keep) == DataExtents(extents[..i])
        invariant Ledger(old(handed), handed, BagExtents(extents[..i]), BagExtents(keep))
        invariant Conserved(BagExtents(extents[..i]), old(pool), BagExtents(keep), pool)
      {
        var e := extents[i];
        ghost var h1, p1 := handed, pool;
        if e.first >= cutoff {
          GoneExtent(unitOf, extents, i, keep, cutoff, old(handed), h1, old(pool), p1);
          var ok := GiveBack(e.blk, e.blocks);
          if !ok {
            return Err(NotAllocated);
          }
          freed := freed + e.blocks;
        } else if e.first + e.blocks > cutoff {
          var kept, more := TrimRun(e.blk, e.blocks, cutoff - e.first);
          if kept.None? {
            return Err(NotAllocated);
          }
          KeptExtent(unitOf, extents, i, keep, cutoff, kept.value, old(handed), h1, handed, old(pool), p1, pool);
          keep := keep + [Extent(e.first, e.blk, kept.value)];
          freed := freed + more;
        } else {
          AllKept(unitOf, e.blk, e.blocks, cutoff - e.first);
          RunAsIs(e.blk, e.blocks, handed, pool);
          KeptExtent(unitOf, extents, i, keep, cutoff, e.blocks, old(handed), h1, handed, old(pool), p1, pool);
          keep := keep + [e];
        }
      }
      assert extents[..|extents|] == extents;
      mapping := Inline(keep);
      ExtentsTrimmed(unitOf, extents, keep, cutoff);
      r := Ok(freed);
    }
  }

  // --- costs ------------------------------------------------------------------------------------------

  lemma TakenSize(p: set<nat>, b: nat, n: nat)
    requires Interval(b, n) <= p
    ensures |p| == |p - Interval(b, n)| + n
  {
    assert p == (p - Interval(b, n)) + Interval(b, n);
  }

  lemma HandedOut(fair: bool, k0: Stock, b: nat, n: nat, len: nat, unit: Unit, k1: Stock)
    requires 1 <= n <= len <= (if n == 1 then 1 else 2 * n) && (len > n ==> unit > 1) && b % unit == 0
    requires Interval(b, len) <= k0.pool && k1.pool <= k0.pool - Interval(b, len) && (fair ==> k1.pool == k0.pool - Interval(b, len))
    requires k1.units == k0.units + map x | x in k0.pool - k1.pool :: unit
    requires k1.slack == k0.slack + multiset(k0.pool - k1.pool - Interval(b, n))
    ensures Took(k0, b, n, k1) && InOneUnit(k1.units, b, n) && k1.units[b] == unit
    ensures Drawn(fair, k0, k1, if n == 1 then 1 else 2 * n)
  {
    hide Took, OnlyRounding, Tracked;
    assert Interval(b, n) <= Interval(b, len);
    TakenSize(k0.pool, b, len);
    Listed(k0, b, n, len, unit, k1);
    assert Took(k0, b, n, k1) by { TookIt(k0, b, n, k1); }
    assert Tracked(k0.units, k0.pool, k1.units, k1.pool) by { TrackedOn(k0, unit, k1); }
  }

  lemma Listed(k0: Stock, b: nat, n: nat, len: nat, unit: Unit, k1: Stock)
    requires 1 <= n <= len && (len > n ==> unit > 1) && b % unit == 0
    requires Interval(b, len) <= k0.pool && k1.pool <= k0.pool - Interval(b, len)
    requires k1.units == k0.units + map x | x in k0.pool - k1.pool :: unit
    requires k1.slack == k0.slack + multiset(k0.pool - k1.pool - Interval(b, n))
    ensures InOneUnit(k1.units, b, n) && k1.units[b] == unit
    ensures k1.pool == k0.pool - Interval(b, len) ==> OnlyRounding(k0, k1)
  {
    forall x | b <= x < b + n ensures x in k1.units && k1.units[x] == unit {
      assert x in Interval(b, len);
    }
    if k1.pool == k0.pool - Interval(b, len) {
      forall x | k1.slack[x] > k0.slack[x] ensures x in k1.units && k1.units[x] > 1 && x !in k1.pool {
        assert x in k0.pool - k1.pool - Interval(b, n);
        assert b + n <= x < b + len;
      }
    }
  }

  lemma TookIt(k0: Stock, b: nat, n: nat, k1: Stock)
    requires Interval(b, n) <= k0.pool && k1.pool <= k0.pool - Interval(b, n)
    requires k1.slack == k0.slack + multiset(k0.pool - k1.pool - Interval(b, n))
    ensures Took(k0, b, n, k1)
  {
  }

  lemma TrackedOn(k0: Stock, unit: Unit, k1: Stock)
    requires k1.units == k0.units + map x | x in k0.pool - k1.pool :: unit
    ensures Tracked(k0.units, k0.pool, k1.units, k1.pool)
  {
  }

  lemma NodeBack(fair: bool, k0: Stock, k1: Stock, k2: Stock, at: nat)
    requires Drawn(fair, k0, k1, 1) && k2 == k1.(pool := k1.pool + Interval(at, 1)) && at in k0.pool
    requires at in k1.units && k1.units[at] == 1
    ensures Drawn(fair, k0, k2, 1)
  {
    Fewer(k1.pool, k2.pool);
  }

  lemma NoData()
    ensures DataExtents([]) == 0
  {
  }

  lemma {:induction false} DataPrefixOf(extents: seq<Extent>, k: nat)
    requires k < |extents|
    ensures DataExtents(extents[..k + 1]) == DataExtents(extents[..k]) + extents[k].blocks <= DataExtents(extents)
    decreases |extents|
  {
    assert extents[..k + 1][..k] == extents[..k];
    if k < |extents| - 1 {
      var init := extents[..|extents| - 1];
      DataPrefixOf(init, k);
      assert init[..k + 1] == extents[..k + 1];
    } else {
      assert extents[..k + 1] == extents;
    }
  }

  function Upto(pos: nat, end: nat): nat {
    if pos < end then pos else end
  }

  /** One run that covers exactly the blocks asked for. */
  predicate OneRun(m: FileMap, first: nat, n: nat) {
    m.Inline? && |m.extents| == 1 && m.extents[0].first == first && m.extents[0].blocks == n
  }

  /** The extents hold no more than they did and the holes so far, and end no later than what is asked. */
  ghost predicate Grew(m0: FileMap, extents: seq<Extent>, first: nat, pos: nat, end: nat)
    requires m0.Inline?
  {
    && DataExtents(extents) <= DataExtents(m0.extents) + Holes(m0, first, Upto(pos, end))
    && EndOf(extents) <= if EndOf(m0.extents) < end then end else EndOf(m0.extents)
  }

  lemma GrownCost(m0: FileMap, extents: seq<Extent>, first: nat, pos: nat, end: nat)
    requires m0.Inline? && Grew(m0, extents, first, pos, end)
    ensures Nodes(LevelFor(0, EndOf(extents)), DataExtents(extents)) <= ToTreeCost(m0.extents, end, Holes(m0, first, end))
    ensures LevelFor(LevelFor(0, EndOf(extents)), end) <= TreeLevel(m0.extents, end)
  {
    hide Nodes, LevelFor, EndOf, DataExtents, Holes;
    var most := if EndOf(m0.extents) < end then end else EndOf(m0.extents);
    HolesMore(m0, first, Upto(pos, end), end);
    LevelMono(0, EndOf(extents), most);
    NodesMono(LevelFor(0, EndOf(extents)), LevelFor(0, most), DataExtents(extents), DataExtents(m0.extents) + Holes(m0, first, end));
    LevelMono(LevelFor(0, EndOf(extents)), end, most);
    LevelFrom(0, EndOf(extents), most);
  }

  /** The extents so far ensure the range up to pos, at the price of twice the holes filled. */
  ghost predicate Midway(fair: bool, m0: FileMap, k0: Stock, extents: seq<Extent>, first: nat, pos: nat, end: nat, k: Stock) {
    && m0.Inline? && first <= pos && ExtentsOk(extents) && k.pool <= k0.pool
    && Drawn(fair, k0, k, 2 * Holes(m0, first, Upto(pos, end)))
    && Grew(m0, extents, first, pos, end)
    && InlineEnsured(m0.extents, extents, first, pos, end, k0.pool)
    && Kept(BagExtents(m0.extents), k0, BagExtents(extents), k)
  }

  /** One more run in the extents and nothing else, in what they map, own, hold and reach. */
  ghost predicate Added(was: seq<Extent>, now: seq<Extent>, pos: nat, blk: nat, want: nat) {
    && ExtentsOk(now)
    && DataExtents(now) == DataExtents(was) + want
    && EndOf(now) <= (if EndOf(was) < pos + want then pos + want else EndOf(was))
    && (forall f: nat :: Ins(LookInline(was, f), LookInline(now, f), pos <= f < pos + want, blk + f - pos))
    && BagExtents(now) == BagExtents(was) + RunBag(blk, want)
  }

  lemma AddedLonger(extents: seq<Extent>, i: nat, want: nat)
    requires ExtentsOk(extents) && want >= 1 && i < |extents|
    requires var e := extents[i]; var run := Extent(e.first + e.blocks, e.blk + e.blocks, want);
      forall k :: 0 <= k < |extents| ==> Disjoint(extents[k], run)
    ensures var e := extents[i];
      Added(extents, extents[i := Extent(e.first, e.blk, e.blocks + want)], e.first + e.blocks, e.blk + e.blocks, want)
  {
    hide RunBag, BagExtents, DataExtents, EndOf, LookInline;
    var e := extents[i];
    var longer := Extent(e.first, e.blk, e.blocks + want);
    GrowExtent(extents, i, want);
    BagExtentUpdate(extents, i, longer);
    DataExtentUpdate(extents, i, longer);
    EndUpdate(extents, i, longer);
    JoinRuns(e.blk, e.blocks, want);
    GrownBag(BagExtents(extents[i := longer]), RunBag(e.blk, e.blocks), BagExtents(extents), RunBag(e.blk + e.blocks, want));
  }

  lemma AddedBehind(extents: seq<Extent>, e: Extent)
    requires ExtentsOk(extents) && e.blocks >= 1
    requires forall i :: 0 <= i < |extents| ==> Disjoint(extents[i], e)
    ensures Added(extents, extents + [e], e.first, e.blk, e.blocks)
  {
    hide RunBag, BagExtents, DataExtents, EndOf, LookInline;
    AppendExtent(extents, e);
    BagExtentAppend(extents, e);
    DataExtentAppend(extents, e);
    EndAppend(extents, e);
  }

  lemma SetOut(fair: bool, m0: FileMap, first: nat, end: nat, k0: Stock)
    requires m0.Inline? && Well(m0) && first <= end
    ensures Midway(fair, m0, k0, m0.extents, first, first, end, k0)
  {
    hide LookInline, BagExtents, Ens;
    NothingInline(m0.extents, first, end, k0);
  }

  lemma OnTheWay(fair: bool, m0: FileMap, k0: Stock, extents: seq<Extent>, first: nat, pos: nat, end: nat, k: Stock)
    requires Midway(fair, m0, k0, extents, first, pos, end, k)
    ensures ExtentsOk(extents) && k.pool <= k0.pool && Drawn(fair, k0, k, 2 * Holes(m0, first, Upto(pos, end)))
  {
    hide LookInline, BagExtents, Ens, Kept, Drawn, InlineEnsured, ExtentsOk;
  }

  lemma WayCovered(fair: bool, m0: FileMap, k0: Stock, extents: seq<Extent>, i: nat, first: nat, pos: nat, end: nat, k: Stock)
    requires Midway(fair, m0, k0, extents, first, pos, end, k) && i < |extents| && InExtent(extents[i], pos)
    ensures Midway(fair, m0, k0, extents, first, extents[i].first + extents[i].blocks, end, k)
  {
    hide LookInline, BagExtents, Ens, Kept, Drawn, InlineEnsured, ExtentsOk, Holes, DataExtents, EndOf;
    var there := extents[i].first + extents[i].blocks;
    CoveredStep(m0.extents, extents, i, first, pos, end, k0.pool);
    HolesMore(m0, first, Upto(pos, end), Upto(there, end));
    DrawnMore(fair, k0, k, 2 * Holes(m0, first, Upto(pos, end)), 2 * Holes(m0, first, Upto(there, end)));
  }

  lemma WayAdded(fair: bool, m0: FileMap, k0: Stock, was: seq<Extent>, now: seq<Extent>, first: nat, pos: nat, want: nat, end: nat, blk: nat, k1: Stock, k: Stock)
    requires Midway(fair, m0, k0, was, first, pos, end, k1) && want >= 1 && pos + want <= end
    requires Took(k1, blk, want, k)
    requires Drawn(fair, k1, k, if want == 1 then 1 else 2 * want)
    requires forall i :: 0 <= i < |was| ==> Disjoint(was[i], Extent(pos, blk, want))
    requires Added(was, now, pos, blk, want)
    ensures Midway(fair, m0, k0, now, first, pos + want, end, k)
  {
    hide LookInline, BagExtents, Ens, Kept, Drawn, InlineEnsured, ExtentsOk, Holes, DataExtents, EndOf, RunBag, Interval;
    var next := pos + want;
    RoomIsHoles(m0.extents, was, first, pos, next, end, blk, k0.pool);
    assert m0 == Inline(m0.extents);
    DrawnThen(fair, k0, k1, 2 * Holes(m0, first, pos), k, if want == 1 then 1 else 2 * want, 2 * Holes(m0, first, next));
    AddedStep(m0.extents, was, now, first, pos, want, end, blk, k1.pool, k0.pool);
    assert Kept(BagExtents(m0.extents), k0, BagExtents(now), k) by {
      TakenKept(BagExtents(was), k1, blk, want, k);
      KeptTrans(BagExtents(m0.extents), k0, BagExtents(was), k1, BagExtents(now), k);
    }
  }

  lemma WayInline(fair: bool, m0: FileMap, k0: Stock, extents: seq<Extent>, first: nat, pos: nat, end: nat, k: Stock)
    requires Midway(fair, m0, k0, extents, first, pos, end, k) && first <= end <= pos && |extents| <= MAX_INLINE_EXTENTS
    ensures var now := Inline(Sorted(extents));
      && Well(now) && InOrder(now.extents) && MapEnsured(m0, now, first, end, k0.pool) && Kept(Owned(m0), k0, Owned(now), k)
    ensures Drawn(fair, k0, k, 2 * Holes(m0, first, end))
  {
    hide LookInline, BagExtents, Ens, Kept, Drawn, InlineEnsured, ExtentsOk, Holes, InOrder, Sorted;
    SortedFacts(extents);
    SortedSame(extents);
    TreeInstead(m0.extents, extents, Inline(Sorted(extents)), first, pos, end, k0.pool);
  }

  lemma SortedOne(extents: seq<Extent>)
    ensures |extents| == 1 ==> Sorted(extents) == extents
  {
  }

  /** What is free between extents was free before. */
  lemma RoomIsHoles(extents0: seq<Extent>, extents: seq<Extent>, first: nat, pos: nat, next: nat, end: nat, blk: nat, pool: set<nat>)
    requires InlineEnsured(extents0, extents, first, pos, end, pool) && first <= pos <= next <= end
    requires forall i :: 0 <= i < |extents| ==> Disjoint(extents[i], Extent(pos, blk, next - pos))
    ensures Holes(Inline(extents0), first, next) == Holes(Inline(extents0), first, pos) + (next - pos)
  {
    hide Holes, LookInline;
    forall f: nat | pos <= f < next ensures BlockOf(Inline(extents0), f).None? {
      forall i | 0 <= i < |extents| ensures !InExtent(extents[i], f) {
        assert Disjoint(extents[i], Extent(pos, blk, next - pos));
      }
      InlineNone(extents, f);
    }
    HolesThrough(Inline(extents0), first, pos, next);
  }

  /** What ensuring a part of a row may cost. */
  ghost function CostOf(kids: seq<Child>, level: nat, from: nat, to: nat): nat
    requires from <= to
  {
    2 * HolesKids(kids, level, from, to) + Nodes(level, to - from)
  }

  /** The next child's part adds to what was paid so far, and the rest of the row to that. */
  lemma CostHere(kids: seq<Child>, now: seq<Child>, level: nat, from: nat, pos: nat, wantEnd: nat, to: nat, i: nat, pool: set<nat>)
    requires from <= pos <= wantEnd <= to && i < |now| && KidsEnsured(kids, now, level, from, pos, pool)
    requires Start(i, Cov(level)) <= pos && wantEnd <= Start(i, Cov(level)) + Cov(level)
    ensures var start := Start(i, Cov(level));
      CostOf(kids, level, from, pos) + 2 * HolesIn(now[i], level, pos - start, wantEnd - start) + Nodes(level, wantEnd - pos)
      == CostOf(kids, level, from, wantEnd) <= CostOf(kids, level, from, to)
  {
    hide HolesKids, HolesIn, Nodes, Start, KidsEnsured;
    var start := Start(i, Cov(level));
    StillHoles(kids, now, level, from, pos, wantEnd, pool);
    KidHoles(now, level, i, pos - start, wantEnd - start);
    HolesJoin(kids, level, from, pos, wantEnd);
    HolesJoin(kids, level, from, wantEnd, to);
    NodesSum(level, pos - from, wantEnd - pos);
    NodesSum(level, wantEnd - from, to - wantEnd);
    assert (pos - from) + (wantEnd - pos) == wantEnd - from && (wantEnd - from) + (to - wantEnd) == to - from;
  }

  // --- small facts ------------------------------------------------------------------------------------

  ghost predicate SameMap(m: FileMap, now: FileMap) {
    forall f: nat :: BlockOf(now, f) == BlockOf(m, f)
  }

  /** Pieces in order, without gaps, each mapped as it says. */
  ghost predicate Collected(m: FileMap, pieces: seq<Extent>, lo: nat, hi: nat) {
    && (pieces == [] ==> lo == hi)
    && (pieces != [] ==> pieces[0].first == lo && pieces[|pieces| - 1].first + pieces[|pieces| - 1].blocks == hi)
    && (forall i :: 0 <= i < |pieces| - 1 ==> pieces[i].first + pieces[i].blocks == pieces[i + 1].first)
    && (forall i :: 0 <= i < |pieces| ==> pieces[i].blocks >= 1 && MappedAs(m, pieces[i]))
  }

  ghost predicate MappedAs(m: FileMap, e: Extent) {
    forall f: nat :: InExtent(e, f) ==> BlockOf(m, f) == Some(e.blk + (f - e.first))
  }

  lemma AnswerHere(m: FileMap, f: nat)
    requires MapLookup(m, f).len >= 1 && GoodFor(m, f, MapLookup(m, f)) && BlockOf(m, f).Some?
    ensures MapLookup(m, f).Run?
  {
    assert Says(MapLookup(m, f), f - f, BlockOf(m, f));
  }

  lemma PieceGood(m: FileMap, f: nat, take: nat)
    requires GoodFor(m, f, MapLookup(m, f)) && MapLookup(m, f).Run? && take <= MapLookup(m, f).len
    ensures MappedAs(m, Extent(f, MapLookup(m, f).blk, take))
  {
    hide BlockOf, MapLookup;
    forall y: nat | InExtent(Extent(f, MapLookup(m, f).blk, take), y)
      ensures BlockOf(m, y) == Some(MapLookup(m, f).blk + (y - f))
    {
      assert Says(MapLookup(m, f), y - f, BlockOf(m, y));
    }
  }

  // --- raising the root ----------------------------------------------------------------------------

  lemma Grown(m: FileMap, level: nat, kids: seq<Child>, node: nat, now: FileMap, k0: Stock, k1: Stock)
    requires m == Tree(level, kids) && Well(m) && !AllFree(kids) && Kept(multiset{}, k0, multiset{node}, k1)
    requires now == Tree(level + 1, FreeKids(ROOT_FANOUT)[0 := Refined(node, level, kids + FreeKids(NODE_FANOUT - ROOT_FANOUT))])
    ensures Well(now) && SameMap(m, now) && Kept(Owned(m), k0, Owned(now), k1)
  {
    hide LookKids, Bag, BagKids;
    var wide := kids + FreeKids(NODE_FANOUT - ROOT_FANOUT);
    var top := [Refined(node, level, wide)] + FreeKids(ROOT_FANOUT - 1);
    assert now.kids == top;
    GrownWell(level, kids, node, top);
    forall f: nat ensures LookKids(top, level + 1, f) == LookKids(kids, level, f) {
      GrowSame(kids, level, node, f);
    }
    GrownBags(level, kids, node);
    KeptPart(multiset{}, k0, multiset{node}, k1, BagKids(kids, level), multiset{node} + BagKids(kids, level));
  }

  lemma GrownWell(level: nat, kids: seq<Child>, node: nat, top: seq<Child>)
    requires |kids| == ROOT_FANOUT && AllWF(kids, level) && !AllFree(kids)
    requires top == [Refined(node, level, kids + FreeKids(NODE_FANOUT - ROOT_FANOUT))] + FreeKids(ROOT_FANOUT - 1)
    ensures AllWF(top, level + 1)
  {
    var wide := kids + FreeKids(NODE_FANOUT - ROOT_FANOUT);
    assert AllWF(wide, level);
    var i :| 0 <= i < |kids| && !kids[i].Free?;
    assert !wide[i].Free?;
    assert WF(Refined(node, level, wide), level + 1);
  }

  lemma GrownBags(level: nat, kids: seq<Child>, node: nat)
    ensures var wide := kids + FreeKids(NODE_FANOUT - ROOT_FANOUT);
      BagKids([Refined(node, level, wide)] + FreeKids(ROOT_FANOUT - 1), level + 1) == multiset{node} + BagKids(kids, level)
  {
    var rest := FreeKids(NODE_FANOUT - ROOT_FANOUT);
    var wide, tail := kids + rest, FreeKids(ROOT_FANOUT - 1);
    var grown := Refined(node, level, wide);
    BagAppend(kids, rest, level);
    BagFree(rest, level);
    BagAppend([grown], tail, level + 1);
    BagFree(tail, level + 1);
    OneKid(grown, level + 1);
    NodeBag(node, wide, level);
    assert BagKids(wide, level) == BagKids(kids, level);
  }

  lemma OneKid(ch: Child, level: nat)
    ensures BagKids([ch], level) == Bag(ch, level)
  {
    hide Bag;
    assert [ch][..0] == [];
    assert BagKids([ch][..0], level) == multiset{};
  }

  lemma NodeBag(at: nat, kids: seq<Child>, below: nat)
    ensures Bag(Refined(at, below, kids), below + 1) == multiset{at} + BagKids(kids, below)
  {
  }

  lemma GrownEmpty(m: FileMap, level: nat, kids: seq<Child>, node: nat, now: FileMap, k0: Stock, k1: Stock, k2: Stock)
    requires m == Tree(level, kids) && |kids| == ROOT_FANOUT && now == Tree(level + 1, FreeKids(ROOT_FANOUT))
    requires node in k0.pool && Kept(multiset{}, k0, multiset{node}, k1) && k2 == k1.(pool := k1.pool + Interval(node, 1))
    requires AllFree(kids)
    ensures Well(now) && SameMap(m, now) && Kept(Owned(m), k0, Owned(now), k2)
  {
    hide LookKids, BagKids;
    forall f: nat ensures LookKids(FreeKids(ROOT_FANOUT), level + 1, f) == LookKids(kids, level, f) {
      FreeLook(kids, level, f);
      FreeLook(FreeKids(ROOT_FANOUT), level + 1, f);
    }
    BagFree(kids, level);
    BagFree(FreeKids(ROOT_FANOUT), level + 1);
    NodeReturned(k0, node, k1, k2);
    EmptyTree(level + 1, [], k2);
  }

  lemma NodeReturned(k0: Stock, node: nat, k1: Stock, k2: Stock)
    requires node in k0.pool && Kept(multiset{}, k0, multiset{node}, k1) && k2 == k1.(pool := k1.pool + Interval(node, 1))
    ensures Kept(multiset{}, k0, multiset{}, k2)
  {
    assert (multiset{node} + k1.Unowned())[node] == (multiset{} + k0.Unowned())[node];
    assert node !in k1.pool by {
      assert multiset(k0.pool)[node] == 1 && k0.slack[node] <= k1.slack[node];
    }
    assert multiset(k2.pool) == multiset(k1.pool) + multiset{node};
  }

  lemma RootStart(c: nat)
    ensures Start(ROOT_FANOUT, c) == ROOT_FANOUT * c
  {
  }

  // --- from extents to a tree ---------------------------------------------------------------------

  lemma EmptyTree(level: nat, none: seq<Extent>, k: Stock)
    requires none == []
    ensures Well(Tree(level, FreeKids(ROOT_FANOUT)))
    ensures forall f: nat :: LookKids(FreeKids(ROOT_FANOUT), level, f) == LookInline(none, f)
    ensures Kept(BagExtents(none), k, BagKids(FreeKids(ROOT_FANOUT), level), k)
  {
    forall f: nat ensures LookKids(FreeKids(ROOT_FANOUT), level, f) == LookInline(none, f) {
      FreeLook(FreeKids(ROOT_FANOUT), level, f);
    }
    BagFree(FreeKids(ROOT_FANOUT), level);
  }

  lemma FrontOk(extents: seq<Extent>, k: nat)
    requires ExtentsOk(extents) && k <= |extents|
    ensures ExtentsOk(extents[..k])
  {
  }

  /** The next extent lies in a hole of what is there so far. */
  lemma NextExtent(extents: seq<Extent>, k: nat, kids: seq<Child>, level: nat)
    requires ExtentsOk(extents) && k < |extents|
    requires forall f: nat :: LookKids(kids, level, f) == LookInline(extents[..k], f)
    ensures HoleInKids(kids, level, extents[k].first, extents[k].first + extents[k].blocks)
  {
    hide LookKids;
    FrontOk(extents, k);
    forall f: nat | extents[k].first <= f < extents[k].first + extents[k].blocks ensures LookKids(kids, level, f).None? {
      forall i | 0 <= i < k ensures !InExtent(extents[..k][i], f) {
        assert Disjoint(extents[i], extents[k]);
      }
      InlineNone(extents[..k], f);
    }
  }

  lemma ExtentIn(extents: seq<Extent>, k: nat, was: seq<Child>, now: seq<Child>, level: nat)
    requires ExtentsOk(extents) && k < |extents|
    requires forall f: nat :: LookKids(was, level, f) == LookInline(extents[..k], f)
    requires KidsInserted(was, now, level, extents[k].first, extents[k].blk, extents[k].blocks)
    ensures forall f: nat :: LookKids(now, level, f) == LookInline(extents[..k + 1], f)
  {
    hide LookKids;
    FrontOk(extents, k);
    assert extents[..k + 1] == extents[..k] + [extents[k]];
    forall i | 0 <= i < k ensures Disjoint(extents[..k][i], extents[k]) {
    }
    AppendExtent(extents[..k], extents[k]);
  }

  lemma ExtentKept(extents: seq<Extent>, i: nat, was: seq<Child>, now: seq<Child>, level: nat, k0: Stock, k1: Stock, k2: Stock)
    requires i < |extents| && Kept(BagExtents(extents[..i]), k0, BagKids(was, level), k1)
    requires Kept(BagKids(was, level) + RunBag(extents[i].blk, extents[i].blocks), k1, BagKids(now, level), k2)
    ensures Kept(BagExtents(extents[..i + 1]), k0, BagKids(now, level), k2)
  {
    hide RunBag, BagKids;
    assert extents[..i + 1] == extents[..i] + [extents[i]];
    BagExtentAppend(extents[..i], extents[i]);
    var run := RunBag(extents[i].blk, extents[i].blocks);
    KeptPart(BagExtents(extents[..i]), k0, BagKids(was, level), k1, BagExtents(extents[..i]) + run, BagKids(was, level) + run);
    KeptTrans(BagExtents(extents[..i + 1]), k0, BagKids(was, level) + run, k1, BagKids(now, level), k2);
  }

  // --- ensuring inline --------------------------------------------------------------------------------

  ghost predicate InlineEnsured(extents: seq<Extent>, now: seq<Extent>, lo: nat, pos: nat, end: nat, pool: set<nat>) {
    forall f: nat :: Ens(LookInline(extents, f), LookInline(now, f), lo <= f < pos && f < end, pool)
  }

  lemma NothingInline(extents: seq<Extent>, lo: nat, end: nat, k: Stock)
    ensures InlineEnsured(extents, extents, lo, lo, end, k.pool)
    ensures Kept(BagExtents(extents), k, BagExtents(extents), k)
  {
  }

  lemma CoveredStep(extents: seq<Extent>, now: seq<Extent>, i: nat, lo: nat, pos: nat, end: nat, pool: set<nat>)
    requires ExtentsOk(now) && i < |now| && InExtent(now[i], pos)
    requires InlineEnsured(extents, now, lo, pos, end, pool)
    ensures InlineEnsured(extents, now, lo, now[i].first + now[i].blocks, end, pool)
  {
    hide LookInline;
    forall f: nat ensures Ens(LookInline(extents, f), LookInline(now, f), lo <= f < now[i].first + now[i].blocks && f < end, pool) {
      assert Ens(LookInline(extents, f), LookInline(now, f), lo <= f < pos && f < end, pool);
      if pos <= f < now[i].first + now[i].blocks {
        InlineAt(now, i, f);
      }
    }
  }

  /** Between a position no extent covers and the next start lies nothing. */
  lemma RoomBetween(extents: seq<Extent>, pos: nat, next: nat, blk: nat)
    requires ExtentsOk(extents) && pos < next
    requires forall i :: 0 <= i < |extents| ==> !InExtent(extents[i], pos)
    requires forall i :: 0 <= i < |extents| && extents[i].first > pos ==> next <= extents[i].first
    ensures forall i :: 0 <= i < |extents| ==> Disjoint(extents[i], Extent(pos, blk, next - pos))
  {
  }

  lemma AddedStep(extents: seq<Extent>, was: seq<Extent>, now: seq<Extent>, lo: nat, pos: nat, want: nat, end: nat, blk: nat, p1: set<nat>, pool: set<nat>)
    requires InlineEnsured(extents, was, lo, pos, end, pool) && p1 <= pool && lo <= pos && pos + want <= end
    requires Interval(blk, want) <= p1
    requires forall f: nat :: Ins(LookInline(was, f), LookInline(now, f), pos <= f < pos + want, blk + f - pos)
    requires ExtentsOk(was) && forall i :: 0 <= i < |was| ==> Disjoint(was[i], Extent(pos, blk, want))
    ensures InlineEnsured(extents, now, lo, pos + want, end, pool)
  {
    hide LookInline, ExtentsOk;
    forall f: nat ensures Ens(LookInline(extents, f), LookInline(now, f), lo <= f < pos + want && f < end, pool) {
      assert Ens(LookInline(extents, f), LookInline(was, f), lo <= f < pos && f < end, pool);
      if pos <= f < pos + want {
        assert blk + f - pos in Interval(blk, want);
        InlineNone(was, f);
      }
    }
  }

  lemma TreeInstead(extents: seq<Extent>, now: seq<Extent>, m: FileMap, lo: nat, pos: nat, end: nat, pool: set<nat>)
    requires InlineEnsured(extents, now, lo, pos, end, pool)
    requires forall f: nat :: BlockOf(m, f) == LookInline(now, f)
    ensures MapEnsured(Inline(extents), m, lo, if pos < end then pos else end, pool)
  {
    hide LookInline;
    forall f: nat
      ensures Ens(BlockOf(Inline(extents), f), BlockOf(m, f), lo <= f < (if pos < end then pos else end), pool)
    {
      assert Ens(LookInline(extents, f), LookInline(now, f), lo <= f < pos && f < end, pool);
    }
  }

  lemma GrownBag(a: multiset<nat>, run: multiset<nat>, b: multiset<nat>, more: multiset<nat>)
    requires a + run == b + (run + more)
    ensures a == b + more
  {
    forall x ensures a[x] == (b + more)[x] {
      assert (a + run)[x] == (b + (run + more))[x];
    }
  }

  // --- putting ensure together -------------------------------------------------------------------------

  lemma EnsuredNothing(m: FileMap, at: nat, k: Stock)
    ensures MapEnsured(m, m, at, at, k.pool) && Kept(Owned(m), k, Owned(m), k)
  {
    hide BlockOf;
  }

  lemma AllMapped(m: FileMap, now: FileMap, lo: nat, hi: nat, pool: set<nat>)
    requires MapEnsured(m, now, lo, hi, pool)
    ensures forall f: nat :: lo <= f < hi ==> BlockOf(now, f).Some?
  {
    hide BlockOf;
  }

  lemma StartInline(m: FileMap, first: nat, n: nat)
    requires !m.Inline? && !m.Tree?
    ensures Well(Inline([])) && Need(Inline([]), first, n) == Need(m, first, n)
  {
    hide Holes, ToTreeCost, TreeLevel, Nodes;
    SameMapHoles(m, Inline([]), first, first + n);
  }

  /** No extent and no tree: what is asked for first comes in one run or not at all. */
  predicate Bare(m: FileMap) {
    !m.Tree? && (m.Inline? ==> m.extents == [])
  }

  lemma InlinePaid(m: FileMap, first: nat, n: nat, reached: nat)
    requires m.Inline? && reached <= first + n
    ensures 2 * Holes(m, first, reached) + ToTreeCost(m.extents, first + n, Holes(m, first, first + n)) <= Need(m, first, n)
    ensures 2 * Holes(m, first, first + n) + ToTreeCost(m.extents, first + n, Holes(m, first, first + n)) <= Need(m, first, n)
  {
    hide Holes, ToTreeCost, TreeLevel, Nodes;
    HolesMore(m, first, reached, first + n);
  }

  /** What the tree may still need fits behind what the extents have cost. */
  lemma InlineThenTree(m: FileMap, mid: FileMap, first: nat, n: nat, reached: nat, pool: set<nat>)
    requires m.Inline? && mid.Tree? && first <= reached <= first + n && MapEnsured(m, mid, first, reached, pool)
    requires LevelFor(mid.level, first + n) <= TreeLevel(m.extents, first + n)
    ensures 2 * Holes(m, first, reached) + ToTreeCost(m.extents, first + n, Holes(m, first, first + n)) + Need(mid, first, n) <= Need(m, first, n)
  {
    hide Holes, ToTreeCost, TreeLevel, Nodes, BlockOf, LevelFor;
    var end := first + n;
    EnsuredHoles(m, mid, first, reached, end, pool);
    NodesMono(LevelFor(mid.level, end), TreeLevel(m.extents, end), n, n);
  }

  lemma FromNothing(m: FileMap, now: FileMap, lo: nat, hi: nat, pool: set<nat>)
    requires !m.Inline? && !m.Tree? && MapEnsured(Inline([]), now, lo, hi, pool)
    ensures MapEnsured(m, now, lo, hi, pool) && Owned(Inline([])) == Owned(m)
  {
    forall f: nat ensures Ens(BlockOf(m, f), BlockOf(now, f), lo <= f < hi, pool) {
      assert Ens(BlockOf(Inline([]), f), BlockOf(now, f), lo <= f < hi, pool);
    }
  }

  lemma EnsuredOn(m: FileMap, mid: FileMap, now: FileMap, lo: nat, at: nat, hi: nat, pool: set<nat>, less: set<nat>)
    requires MapEnsured(m, mid, lo, at, pool) && MapEnsured(mid, now, lo, hi, less) && less <= pool && at <= hi
    ensures MapEnsured(m, now, lo, hi, pool)
  {
    hide BlockOf;
    forall f: nat ensures Ens(BlockOf(m, f), BlockOf(now, f), lo <= f < hi, pool) {
      assert Ens(BlockOf(m, f), BlockOf(mid, f), lo <= f < at, pool);
      assert Ens(BlockOf(mid, f), BlockOf(now, f), lo <= f < hi, less);
    }
  }

  lemma EnsuredKids(m: FileMap, was: FileMap, now: FileMap, lo: nat, hi: nat, pool: set<nat>, less: set<nat>)
    requires SameMap(m, was) && was.Tree? && now.Tree? && was.level == now.level
    requires KidsEnsured(was.kids, now.kids, now.level, lo, hi, less) && less <= pool
    ensures MapEnsured(m, now, lo, hi, pool)
  {
    hide LookKids;
    forall f: nat ensures Ens(BlockOf(m, f), BlockOf(now, f), lo <= f < hi, pool) {
      assert BlockOf(was, f) == BlockOf(m, f);
      assert Ens(LookKids(was.kids, now.level, f), LookKids(now.kids, now.level, f), lo <= f < hi, less);
    }
  }

  // --- children -------------------------------------------------------------------------------------------

  lemma OneBlock(b: nat)
    ensures RunBag(b, 1) == multiset{b} && multiset{} + multiset{b} == multiset{b}
  {
    assert Interval(b, 1) == {b};
  }

  lemma RunFits(ch: Child, level: nat)
    requires WF(ch, level) && ch.Full?
    ensures 1 <= ch.blocks <= Cov(level)
  {
  }

  lemma RefinedRun(ch: Child, level: nat, kids: seq<Child>)
    requires ch.Full? && WF(ch, level) && level > 0 && |kids| == NODE_FANOUT
    requires forall i :: 0 <= i < NODE_FANOUT ==> kids[i] == Piece(ch.blocks, ch.addr, Cov(level - 1), i)
    ensures AllWF(kids, level - 1) && SameLook(ch, level, kids, level - 1) && BagKids(kids, level - 1) == Bag(ch, level)
  {
    hide Start, Cov, RunBag;
    var below := level - 1;
    SpreadWF(kids, below, ch.blocks, ch.addr);
    SpreadLook(ch.blocks, ch.addr, kids, below);
    SpreadBag(kids, below, ch.blocks, ch.addr);
    StartTop(Cov(below));
    CovUp(below);
  }

  lemma SpreadLook(blocks: nat, addr: nat, kids: seq<Child>, below: nat)
    requires |kids| == NODE_FANOUT && blocks <= Cov(below + 1)
    requires forall i :: 0 <= i < NODE_FANOUT ==> kids[i] == Piece(blocks, addr, Cov(below), i)
    ensures SameLook(Full(blocks, addr), below + 1, kids, below)
  {
    hide Start, Cov, Piece;
    NodeLook(0, kids, below);
    forall x: nat ensures Look(Full(blocks, addr), below + 1, x) == LookKids(kids, below, x) {
      SpreadSame(kids, below, blocks, addr, 0, x);
    }
  }

  lemma RefinedHoleIs(level: nat, kids: seq<Child>)
    requires level > 0 && kids == FreeKids(NODE_FANOUT)
    ensures AllWF(kids, level - 1) && SameLook(Free, level, kids, level - 1) && BagKids(kids, level - 1) == Bag(Free, level)
  {
    var below := level - 1;
    forall x: nat ensures LookKids(kids, below, x).None? {
      FreeLook(kids, below, x);
    }
    BagFree(kids, below);
  }

  lemma AlreadyThere(ch: Child, level: nat, from: nat, to: nat, k: Stock)
    requires ch.Full? && to <= ch.blocks
    ensures Ensured(ch, ch, level, from, to, k.pool) && Kept(Bag(ch, level), k, Bag(ch, level), k)
  {
  }

  lemma TookRun(level: nat, from: nat, to: nat, blk: nat, k0: Stock, k1: Stock)
    requires from == 0 && 1 <= to <= Cov(level) && Took(k0, blk, to, k1)
    ensures Ensured(Free, Full(to, blk), level, from, to, k0.pool)
    ensures Kept(Bag(Free, level), k0, Bag(Full(to, blk), level), k1)
    ensures WF(Full(to, blk), level)
  {
    TakenKept(multiset{}, k0, blk, to, k1);
  }

  lemma NodeParts(ch: Child, level: nat)
    requires WF(ch, level) && ch.Refined?
    ensures level > 0 && |ch.kids| == NODE_FANOUT && AllWF(ch.kids, level - 1)
    ensures SameLook(ch, level, ch.kids, level - 1) && ch == Refined(ch.at, level - 1, ch.kids)
  {
    hide Look, LookKids;
    NodeLook(ch.at, ch.kids, level - 1);
  }

  /** At level zero a child is one block: either it is mapped or it starts its range. */
  lemma LevelZeroFits(ch: Child, level: nat, from: nat, to: nat)
    requires WF(ch, level) && from < to <= Cov(level) && !ch.Refined?
    requires !(ch.Full? && to <= ch.blocks) && !(ch.Free? && from == 0)
    ensures level > 0
  {
  }

  lemma NoCollision(ch: Child, level: nat, f: nat, len: nat)
    requires WF(ch, level) && len >= 1 && f + len <= Cov(level) && HoleIn(ch, level, f, f + len) && !ch.Refined?
    requires !(ch.Free? && f == 0)
    ensures level > 0
  {
    assert level == 0 ==> f == 0 && Look(ch, level, f).None?;
  }

  lemma SomethingThere(kids: seq<Child>, now: seq<Child>, level: nat, lo: nat, hi: nat, pool: set<nat>)
    requires KidsEnsured(kids, now, level, lo, hi, pool) && lo < hi
    ensures !AllFree(now)
  {
    assert Ens(LookKids(kids, level, lo), LookKids(now, level, lo), lo <= lo < hi, pool);
    if AllFree(now) {
      FreeLook(now, level, lo);
    }
  }

  lemma SomethingInserted(kids: seq<Child>, now: seq<Child>, level: nat, f: nat, blk: nat, len: nat)
    requires KidsInserted(kids, now, level, f, blk, len) && len >= 1
    ensures !AllFree(now)
  {
    assert Ins(LookKids(kids, level, f), LookKids(now, level, f), f <= f < f + len, blk + f - f);
    if AllFree(now) {
      FreeLook(now, level, f);
    }
  }

  lemma NodeOf(at: nat, kids: seq<Child>, now: seq<Child>, level: nat, k0: Stock, k1: Stock)
    requires level > 0 && |kids| == NODE_FANOUT == |now| && AllWF(now, level - 1) && !AllFree(now)
    requires Kept(BagKids(kids, level - 1), k0, BagKids(now, level - 1), k1)
    ensures WF(Refined(at, level - 1, now), level)
    ensures Kept(Bag(Refined(at, level - 1, kids), level), k0, Bag(Refined(at, level - 1, now), level), k1)
  {
    NodeOfPlus(at, kids, now, level, k0, k1, multiset{});
  }

  lemma NodeOfPlus(at: nat, kids: seq<Child>, now: seq<Child>, level: nat, k0: Stock, k1: Stock, extra: multiset<nat>)
    requires level > 0 && |kids| == NODE_FANOUT == |now| && AllWF(now, level - 1) && !AllFree(now)
    requires Kept(BagKids(kids, level - 1) + extra, k0, BagKids(now, level - 1), k1)
    ensures WF(Refined(at, level - 1, now), level)
    ensures Kept(Bag(Refined(at, level - 1, kids), level) + extra, k0, Bag(Refined(at, level - 1, now), level), k1)
  {
    KeptPart(BagKids(kids, level - 1) + extra, k0, BagKids(now, level - 1), k1,
             Bag(Refined(at, level - 1, kids), level) + extra, Bag(Refined(at, level - 1, now), level));
  }

  lemma KeptChild(ch: Child, at: nat, kids: seq<Child>, now: Child, level: nat, k0: Stock, k1: Stock, k2: Stock)
    requires level > 0 && Kept(Bag(ch, level), k0, multiset{at} + BagKids(kids, level - 1), k1)
    requires Kept(Bag(Refined(at, level - 1, kids), level), k1, Bag(now, level), k2)
    ensures Kept(Bag(ch, level), k0, Bag(now, level), k2)
  {
    KeptTrans(Bag(ch, level), k0, Bag(Refined(at, level - 1, kids), level), k1, Bag(now, level), k2);
  }

  lemma KeptChildPlus(ch: Child, at: nat, kids: seq<Child>, now: Child, level: nat, k0: Stock, k1: Stock, k2: Stock, extra: multiset<nat>)
    requires level > 0 && Kept(Bag(ch, level), k0, multiset{at} + BagKids(kids, level - 1), k1)
    requires Kept(Bag(Refined(at, level - 1, kids), level) + extra, k1, Bag(now, level), k2)
    ensures Kept(Bag(ch, level) + extra, k0, Bag(now, level), k2)
  {
    var node := Bag(Refined(at, level - 1, kids), level);
    KeptPart(Bag(ch, level), k0, node, k1, Bag(ch, level) + extra, node + extra);
    KeptTrans(Bag(ch, level) + extra, k0, node + extra, k1, Bag(now, level), k2);
  }

  lemma PoolWider(kids: seq<Child>, now: seq<Child>, level: nat, lo: nat, hi: nat, less: set<nat>, pool: set<nat>)
    requires KidsEnsured(kids, now, level, lo, hi, less) && less <= pool
    ensures KidsEnsured(kids, now, level, lo, hi, pool)
  {
    hide LookKids;
  }

  lemma NothingAsked(kids: seq<Child>, level: nat, at: nat, k: Stock)
    ensures KidsEnsured(kids, kids, level, at, at, k.pool) && Kept(BagKids(kids, level), k, BagKids(kids, level), k)
  {
    hide LookKids;
  }

  lemma NothingInserted(kids: seq<Child>, level: nat, f: nat, blk: nat, k: Stock)
    ensures KidsInserted(kids, kids, level, f, blk, 0)
    ensures Kept(BagKids(kids, level) + RunBag(blk, 0), k, BagKids(kids, level), k)
  {
    hide LookKids;
    assert Interval(blk, 0) == {};
  }

  lemma KeptShrinks(b0: multiset<nat>, k0: Stock, b1: multiset<nat>, k1: Stock)
    requires Kept(b0, k0, b1, k1)
    ensures k1.pool <= k0.pool
  {
  }

  lemma WholeRun(level: nat, blk: nat, len: nat, k: Stock)
    requires len >= 1
    ensures Inserted(Free, Full(len, blk), level, 0, blk, len)
    ensures Kept(Bag(Free, level) + RunBag(blk, len), k, Bag(Full(len, blk), level), k)
  {
  }

  lemma LongerRun(ch: Child, level: nat, len: nat, k: Stock)
    requires ch.Full?
    ensures Inserted(ch, Full(ch.blocks + len, ch.addr), level, ch.blocks, ch.addr + ch.blocks, len)
    ensures Kept(Bag(ch, level) + RunBag(ch.addr + ch.blocks, len), k, Bag(Full(ch.blocks + len, ch.addr), level), k)
  {
    hide RunBag;
    JoinRuns(ch.addr, ch.blocks, len);
  }

  lemma StillHole(kids: seq<Child>, now: seq<Child>, level: nat, f: nat, blk: nat, pos: nat, len: nat)
    requires KidsInserted(kids, now, level, f, blk, pos) && HoleInKids(kids, level, f, f + len) && pos <= len
    ensures HoleInKids(now, level, f + pos, f + len)
  {
    hide LookKids;
  }

  lemma HolePart(kids: seq<Child>, level: nat, lo: nat, hi: nat, end: nat)
    requires HoleInKids(kids, level, lo, end) && hi <= end
    ensures HoleInKids(kids, level, lo, hi)
  {
    hide LookKids;
  }

  lemma KidKeptPlus(kids: seq<Child>, level: nat, i: nat, ch: Child, k0: Stock, k1: Stock, extra: multiset<nat>)
    requires i < |kids| && Kept(Bag(kids[i], level) + extra, k0, Bag(ch, level), k1)
    ensures Kept(BagKids(kids, level) + extra, k0, BagKids(kids[i := ch], level), k1)
  {
    hide Bag, BagKids;
    BagUpdate(kids, level, i, ch);
    Rearrange(BagKids(kids[i := ch], level), Bag(kids[i], level), BagKids(kids, level), Bag(ch, level), extra);
    KeptPart(Bag(kids[i], level) + extra, k0, Bag(ch, level), k1, BagKids(kids, level) + extra, BagKids(kids[i := ch], level));
  }

  lemma Rearrange(a: multiset<nat>, b: multiset<nat>, c: multiset<nat>, d: multiset<nat>, e: multiset<nat>)
    requires a + b == c + d
    ensures a + (b + e) == (c + e) + d
  {
    assert a + (b + e) == (a + b) + e;
    assert (c + e) + d == (c + d) + e;
  }

  lemma KeptPlusTrans(b0: multiset<nat>, blk: nat, n: nat, m: nat, k0: Stock, b1: multiset<nat>, k1: Stock, b2: multiset<nat>, k2: Stock)
    requires Kept(b0 + RunBag(blk, n), k0, b1, k1)
    requires Kept(b1 + RunBag(blk + n, m), k1, b2, k2)
    ensures Kept(b0 + RunBag(blk, n + m), k0, b2, k2)
  {
    hide RunBag;
    var r, s := RunBag(blk, n), RunBag(blk + n, m);
    JoinRuns(blk, n, m);
    assert b0 + (r + s) == (b0 + r) + s;
    KeptPart(b0 + r, k0, b1, k1, (b0 + r) + s, b1 + s) by { assert (b1 + s) + (b0 + r) == ((b0 + r) + s) + b1; }
    KeptTrans((b0 + r) + s, k0, b1 + s, k1, b2, k2);
  }

  // --- freeing and trimming ---------------------------------------------------------------------------------

  lemma SameFreed(b: multiset<nat>, h: seq<Extent>, p: set<nat>)
    ensures Ledger(h, h, b, b) && Conserved(b, p, b, p)
  {
  }

  lemma NoBag()
    ensures BagExtents([]) == multiset{}
  {
  }

  lemma FreedNone(level: nat, h: seq<Extent>, p: set<nat>)
    ensures Data(Free, level) == 0 && Bag(Free, level) == multiset{}
    ensures Ledger(h, h, Bag(Free, level), multiset{}) && Conserved(Bag(Free, level), p, multiset{}, p)
  {
  }

  lemma FreedRun(blocks: nat, addr: nat, level: nat, h: seq<Extent>, p: set<nat>)
    ensures Data(Full(blocks, addr), level) == blocks
    ensures Ledger(h, h + [Extent(0, addr, blocks)], Bag(Full(blocks, addr), level), multiset{})
    ensures Conserved(Bag(Full(blocks, addr), level), p, multiset{}, p + Interval(addr, blocks))
  {
    hide RunBag;
    LedgerRun(h, Extent(0, addr, blocks), multiset{});
    GivenConserved(multiset{}, p, addr, blocks);
    assert multiset{} + RunBag(addr, blocks) == Bag(Full(blocks, addr), level);
  }

  lemma FreedNode(at: nat, kids: seq<Child>, level: nat, h0: seq<Extent>, h1: seq<Extent>, p0: set<nat>, p1: set<nat>)
    requires level > 0 && Ledger(h0, h1, BagKids(kids, level - 1), multiset{})
    requires Conserved(BagKids(kids, level - 1), p0, multiset{}, p1)
    ensures Data(Refined(at, level - 1, kids), level) == DataKids(kids, level - 1)
    ensures Ledger(h0, h1 + [Extent(0, at, 1)], Bag(Refined(at, level - 1, kids), level), multiset{})
    ensures Conserved(Bag(Refined(at, level - 1, kids), level), p0, multiset{}, p1 + Interval(at, 1))
  {
    hide BagKids, DataKids, Ledger, Conserved, RunBag, Kept;
    var node, b := Bag(Refined(at, level - 1, kids), level), BagKids(kids, level - 1);
    OneBlock(at);
    assert node == multiset{at} + b && multiset{} + RunBag(at, 1) == multiset{at};
    assert multiset{at} + b == node + multiset{};
    LedgerPart(h0, h1, b, multiset{}, node, multiset{at});
    ConservedPart(b, p0, multiset{}, p1, node, multiset{at});
    LedgerRun(h1, Extent(0, at, 1), multiset{});
    LedgerTrans(h0, h1, h1 + [Extent(0, at, 1)], node, multiset{at}, multiset{});
    GivenConserved(multiset{}, p1, at, 1);
    ConservedTrans(node, p0, multiset{at}, p1, multiset{}, p1 + Interval(at, 1));
  }

  lemma EmptyFreed(none: seq<Child>, level: nat, h: seq<Extent>, p: set<nat>)
    requires none == []
    ensures DataKids(none, level) == 0 && Ledger(h, h, BagKids(none, level), multiset{})
    ensures Conserved(BagKids(none, level), p, multiset{}, p)
  {
  }

  lemma MoreFreed(kids: seq<Child>, level: nat, i: nat, h0: seq<Extent>, h1: seq<Extent>, h2: seq<Extent>, p0: set<nat>, p1: set<nat>, p2: set<nat>)
    requires i < |kids|
    requires Ledger(h0, h1, BagKids(kids[..i], level), multiset{}) && Conserved(BagKids(kids[..i], level), p0, multiset{}, p1)
    requires Ledger(h1, h2, Bag(kids[i], level), multiset{}) && Conserved(Bag(kids[i], level), p1, multiset{}, p2)
    ensures DataKids(kids[..i + 1], level) == DataKids(kids[..i], level) + Data(kids[i], level)
    ensures Ledger(h0, h2, BagKids(kids[..i + 1], level), multiset{})
    ensures Conserved(BagKids(kids[..i + 1], level), p0, multiset{}, p2)
  {
    hide Bag, BagKids, DataKids, Data, Ledger, Conserved;
    DataPrefix(kids, level, i);
    var a, b, all := BagKids(kids[..i], level), Bag(kids[i], level), BagKids(kids[..i + 1], level);
    LedgerPart(h0, h1, a, multiset{}, all, b);
    ConservedPart(a, p0, multiset{}, p1, all, b);
    LedgerTrans(h0, h1, h2, all, b, multiset{});
    ConservedTrans(all, p0, b, p1, multiset{}, p2);
  }

  lemma NoExtents(none: seq<Extent>, h: seq<Extent>, p: set<nat>)
    requires none == []
    ensures BagExtents(none) == multiset{} && DataExtents(none) == 0
    ensures Ledger(h, h, BagExtents(none), multiset{}) && Conserved(BagExtents(none), p, multiset{}, p)
  {
  }

  lemma NextFreed(extents: seq<Extent>, i: nat, h0: seq<Extent>, h1: seq<Extent>, p0: set<nat>, p1: set<nat>)
    requires i < |extents| && Ledger(h0, h1, BagExtents(extents[..i]), multiset{})
    requires Conserved(BagExtents(extents[..i]), p0, multiset{}, p1)
    ensures var e := extents[i];
      && Ledger(h0, h1 + [Extent(0, e.blk, e.blocks)], BagExtents(extents[..i + 1]), multiset{})
      && Conserved(BagExtents(extents[..i + 1]), p0, multiset{}, p1 + Interval(e.blk, e.blocks))
  {
    DropExtent(extents, i, [], h0, h1, p0, p1) by { NoBag(); }
    NoBag();
  }

  /** Extent i goes back as a whole, next to what is kept of the ones before it. */
  lemma DropExtent(extents: seq<Extent>, i: nat, keep: seq<Extent>, h0: seq<Extent>, h1: seq<Extent>, p0: set<nat>, p1: set<nat>)
    requires i < |extents| && Ledger(h0, h1, BagExtents(extents[..i]), BagExtents(keep))
    requires Conserved(BagExtents(extents[..i]), p0, BagExtents(keep), p1)
    ensures var e := extents[i];
      && Ledger(h0, h1 + [Extent(0, e.blk, e.blocks)], BagExtents(extents[..i + 1]), BagExtents(keep))
      && Conserved(BagExtents(extents[..i + 1]), p0, BagExtents(keep), p1 + Interval(e.blk, e.blocks))
  {
    hide BagExtents, Ledger, Conserved, RunBag;
    var e, a, k := extents[i], BagExtents(extents[..i]), BagExtents(keep);
    var run, all := RunBag(e.blk, e.blocks), BagExtents(extents[..i + 1]);
    assert extents[..i + 1] == extents[..i] + [e];
    BagExtentAppend(extents[..i], e);
    LedgerPart(h0, h1, a, k, all, k + run) by { Shuffle(a, run, k); }
    ConservedPart(a, p0, k, p1, all, k + run) by { Shuffle(a, run, k); }
    LedgerRun(h1, Extent(0, e.blk, e.blocks), k);
    LedgerTrans(h0, h1, h1 + [Extent(0, e.blk, e.blocks)], all, k + run, k);
    GivenConserved(k, p1, e.blk, e.blocks);
    ConservedTrans(all, p0, k + run, p1, k, p1 + Interval(e.blk, e.blocks));
  }

  lemma Shuffle(a: multiset<nat>, run: multiset<nat>, k: multiset<nat>)
    ensures (k + run) + a == (a + run) + k
  {
  }

  lemma RunAsIs(addr: nat, blocks: nat, h: seq<Extent>, p: set<nat>)
    ensures Ledger(h, h, RunBag(addr, blocks), RunBag(addr, blocks))
    ensures Conserved(RunBag(addr, blocks), p, RunBag(addr, blocks), p)
  {
  }

  lemma RunCut(addr: nat, blocks: nat, kept: nat, h: seq<Extent>, p: set<nat>)
    requires kept <= blocks
    ensures Ledger(h, h + [Extent(0, addr + kept, blocks - kept)], RunBag(addr, blocks), RunBag(addr, kept))
    ensures Conserved(RunBag(addr, blocks), p, RunBag(addr, kept), p + Interval(addr + kept, blocks - kept))
  {
    hide RunBag, Ledger, Conserved;
    RunSplit(addr, blocks, kept);
    LedgerRun(h, Extent(0, addr + kept, blocks - kept), RunBag(addr, kept));
    GivenConserved(RunBag(addr, kept), p, addr + kept, blocks - kept);
  }

  lemma CutAll(units: Units, ch: Child, level: nat, h: seq<Extent>, p: set<nat>)
    ensures Trimmed(units, ch, Free, level, 0) && Data(Free, level) == 0 && Bag(Free, level) == multiset{}
  {
  }

  lemma CutHole(units: Units, level: nat, keep: nat)
    ensures Trimmed(units, Free, Free, level, keep)
  {
  }

  lemma CutRun(units: Units, blocks: nat, addr: nat, level: nat, keep: nat, kept: nat)
    requires 1 <= keep && 1 <= blocks <= Cov(level) && KeptOf(units, addr, blocks, keep) == Some(kept)
    ensures Trimmed(units, Full(blocks, addr), Full(kept, addr), level, keep)
    ensures WF(Full(kept, addr), level)
    ensures Data(Full(blocks, addr), level) == blocks && Data(Full(kept, addr), level) == kept
    ensures Bag(Full(blocks, addr), level) == RunBag(addr, blocks) && Bag(Full(kept, addr), level) == RunBag(addr, kept)
  {
    hide RoundUp, Releasable;
    RoundUpNear(keep, UnitAt(units, addr));
  }

  lemma CutNode(at: nat, kids: seq<Child>, now: seq<Child>, level: nat, h0: seq<Extent>, h1: seq<Extent>, p0: set<nat>, p1: set<nat>)
    requires level > 0 && |now| == NODE_FANOUT && AllWF(now, level - 1)
    requires Ledger(h0, h1, BagKids(kids, level - 1), BagKids(now, level - 1))
    requires Conserved(BagKids(kids, level - 1), p0, BagKids(now, level - 1), p1)
    ensures var a, b := Refined(at, level - 1, kids), Refined(at, level - 1, now);
      && (!AllFree(now) ==> WF(b, level))
      && Ledger(h0, h1, Bag(a, level), Bag(b, level)) && Conserved(Bag(a, level), p0, Bag(b, level), p1)
      && Data(a, level) == DataKids(kids, level - 1) && Data(b, level) == DataKids(now, level - 1)
  {
    hide Ledger, Conserved, BagKids, DataKids, AllWF;
    var a, b := BagKids(kids, level - 1), BagKids(now, level - 1);
    var x, y := Bag(Refined(at, level - 1, kids), level), Bag(Refined(at, level - 1, now), level);
    NodeBags(at, a, b);
    LedgerPart(h0, h1, a, b, x, y);
    ConservedPart(a, p0, b, p1, x, y);
  }

  lemma NodeBags(at: nat, a: multiset<nat>, b: multiset<nat>)
    ensures (multiset{at} + b) + a == (multiset{at} + a) + b
  {
  }

  lemma CutEmpty(at: nat, now: seq<Child>, level: nat, h0: seq<Extent>, h1: seq<Extent>, p0: set<nat>, p1: set<nat>, was: multiset<nat>)
    requires level > 0 && AllFree(now)
    requires Ledger(h0, h1, was, Bag(Refined(at, level - 1, now), level))
    requires Conserved(was, p0, Bag(Refined(at, level - 1, now), level), p1)
    ensures Ledger(h0, h1 + [Extent(0, at, 1)], was, Bag(Free, level))
    ensures Conserved(was, p0, Bag(Free, level), p1 + Interval(at, 1))
    ensures DataKids(now, level - 1) == 0 && Data(Free, level) == 0
  {
    hide Ledger, Conserved, BagKids, DataKids, RunBag, Kept;
    BagFree(now, level - 1);
    DataFree(now, level - 1);
    OneBlock(at);
    var node := Bag(Refined(at, level - 1, now), level);
    assert node == multiset{at} == multiset{} + RunBag(at, 1);
    LedgerRun(h1, Extent(0, at, 1), multiset{});
    LedgerTrans(h0, h1, h1 + [Extent(0, at, 1)], was, node, multiset{});
    GivenConserved(multiset{}, p1, at, 1);
    ConservedTrans(was, p0, node, p1, multiset{}, p1 + Interval(at, 1));
  }

  lemma MoreTrimmed(kids: seq<Child>, was: seq<Child>, level: nat, i: nat, ch: Child, h0: seq<Extent>, h1: seq<Extent>, h2: seq<Extent>, p0: set<nat>, p1: set<nat>, p2: set<nat>)
    requires i < |was|
    requires Ledger(h0, h1, BagKids(kids, level), BagKids(was, level)) && Conserved(BagKids(kids, level), p0, BagKids(was, level), p1)
    requires Ledger(h1, h2, Bag(was[i], level), Bag(ch, level)) && Conserved(Bag(was[i], level), p1, Bag(ch, level), p2)
    ensures Ledger(h0, h2, BagKids(kids, level), BagKids(was[i := ch], level))
    ensures Conserved(BagKids(kids, level), p0, BagKids(was[i := ch], level), p2)
    ensures DataKids(was[i := ch], level) + Data(was[i], level) == DataKids(was, level) + Data(ch, level)
  {
    hide Bag, BagKids, DataKids, Data, Ledger, Conserved;
    BagUpdate(was, level, i, ch);
    DataUpdate(was, level, i, ch);
    LedgerPart(h1, h2, Bag(was[i], level), Bag(ch, level), BagKids(was, level), BagKids(was[i := ch], level));
    ConservedPart(Bag(was[i], level), p1, Bag(ch, level), p2, BagKids(was, level), BagKids(was[i := ch], level));
    LedgerTrans(h0, h1, h2, BagKids(kids, level), BagKids(was, level), BagKids(was[i := ch], level));
    ConservedTrans(BagKids(kids, level), p0, BagKids(was, level), p1, BagKids(was[i := ch], level), p2);
  }

  lemma TreeTrimmed(units: Units, level: nat, kids: seq<Child>, now: seq<Child>, cutoff: nat)
    requires KidsTrimmed(units, kids, now, level, cutoff)
    ensures MapTrimmed(units, Tree(level, kids), Tree(level, now), cutoff)
  {
    hide WhereKids, After;
  }

  ghost predicate InlineTrimmed(units: Units, extents: seq<Extent>, now: seq<Extent>, cutoff: nat) {
    forall f: nat :: WhereInline(now, f) == After(units, WhereInline(extents, f), f, cutoff)
  }

  lemma NothingKept(units: Units, none: seq<Extent>, keep: seq<Extent>, cutoff: nat)
    requires none == [] && keep == []
    ensures InlineTrimmed(units, none, keep, cutoff) && DataExtents(none) == 0 && DataExtents(keep) == 0
    ensures BagExtents(keep) == multiset{}
  {
  }

  lemma DataExtentAppend(extents: seq<Extent>, e: Extent)
    ensures DataExtents(extents + [e]) == DataExtents(extents) + e.blocks
  {
    assert (extents + [e])[..|extents|] == extents;
  }

  lemma GoneExtent(units: Units, extents: seq<Extent>, i: nat, keep: seq<Extent>, cutoff: nat, h0: seq<Extent>, h1: seq<Extent>, p0: set<nat>, p1: set<nat>)
    requires ExtentsOk(extents) && i < |extents| && extents[i].first >= cutoff
    requires InlineTrimmed(units, extents[..i], keep, cutoff) && ExtentsOk(keep)
    requires forall j :: 0 <= j < |keep| ==> Disjoint(keep[j], extents[i])
    requires Ledger(h0, h1, BagExtents(extents[..i]), BagExtents(keep)) && Conserved(BagExtents(extents[..i]), p0, BagExtents(keep), p1)
    ensures InlineTrimmed(units, extents[..i + 1], keep, cutoff)
    ensures DataExtents(extents[..i + 1]) == DataExtents(extents[..i]) + extents[i].blocks
    ensures var e := extents[i];
      && Ledger(h0, h1 + [Extent(0, e.blk, e.blocks)], BagExtents(extents[..i + 1]), BagExtents(keep))
      && Conserved(BagExtents(extents[..i + 1]), p0, BagExtents(keep), p1 + Interval(e.blk, e.blocks))
  {
    hide LookInline, BagExtents, DataExtents, Ledger, Conserved;
    var e := extents[i];
    assert extents[..i + 1] == extents[..i] + [e];
    DropExtent(extents, i, keep, h0, h1, p0, p1);
    DataExtentAppend(extents[..i], e);
    forall f: nat ensures WhereInline(keep, f) == After(units, WhereInline(extents[..i + 1], f), f, cutoff) {
      WhereInlineAppend(extents[..i], e, f);
      if InExtent(e, f) {
        NotInOthers(extents, i, f);
      }
    }
  }

  /** The extents before i do not hold what i holds. */
  lemma NotInOthers(extents: seq<Extent>, i: nat, f: nat)
    requires ExtentsOk(extents) && i < |extents| && InExtent(extents[i], f)
    ensures WhereInline(extents[..i], f).None?
  {
    WhereInlineNone(extents[..i], f);
    forall j | 0 <= j < i ensures !InExtent(extents[..i][j], f) {
      assert Disjoint(extents[j], extents[i]);
    }
  }

  lemma KeptExtent(units: Units, extents: seq<Extent>, i: nat, keep: seq<Extent>, cutoff: nat, kept: nat, h0: seq<Extent>, h1: seq<Extent>, h2: seq<Extent>, p0: set<nat>, p1: set<nat>, p2: set<nat>)
    requires ExtentsOk(extents) && i < |extents| && extents[i].first < cutoff
    requires KeptOf(units, extents[i].blk, extents[i].blocks, cutoff - extents[i].first) == Some(kept)
    requires InlineTrimmed(units, extents[..i], keep, cutoff) && ExtentsOk(keep)
    requires forall j, k :: 0 <= j < |keep| && i <= k < |extents| ==> Disjoint(keep[j], extents[k])
    requires Ledger(h0, h1, BagExtents(extents[..i]), BagExtents(keep)) && Conserved(BagExtents(extents[..i]), p0, BagExtents(keep), p1)
    requires Ledger(h1, h2, RunBag(extents[i].blk, extents[i].blocks), RunBag(extents[i].blk, kept))
    requires Conserved(RunBag(extents[i].blk, extents[i].blocks), p1, RunBag(extents[i].blk, kept), p2)
    ensures var e := extents[i]; var now := keep + [Extent(e.first, e.blk, kept)];
      && ExtentsOk(now) && InlineTrimmed(units, extents[..i + 1], now, cutoff)
      && (forall j, k :: 0 <= j < |now| && i + 1 <= k < |extents| ==> Disjoint(now[j], extents[k]))
      && DataExtents(extents[..i + 1]) == DataExtents(extents[..i]) + e.blocks && DataExtents(now) == DataExtents(keep) + kept
      && Ledger(h0, h2, BagExtents(extents[..i + 1]), BagExtents(now))
      && Conserved(BagExtents(extents[..i + 1]), p0, BagExtents(now), p2)
  {
    hide KeptOf, InlineTrimmed, Bag, LookInline, BagExtents, DataExtents, Ledger, Conserved, RunBag;
    var e := extents[i];
    var e1 := Extent(e.first, e.blk, kept);
    var now := keep + [e1];
    KeptBounds(units, e.blk, e.blocks, cutoff - e.first);
    KeptSpots(units, extents, i, keep, cutoff, kept);
    assert extents[..i + 1] == extents[..i] + [e];
    DataExtentAppend(extents[..i], e);
    DataExtentAppend(keep, e1);
    AppendExtent(keep, e1);
    forall j, k | 0 <= j < |now| && i + 1 <= k < |extents| ensures Disjoint(now[j], extents[k]) {
      assert Disjoint(extents[i], extents[k]);
    }
    KeptBags(extents, i, keep, e1, h0, h1, h2, p0, p1, p2);
  }

  lemma AllKept(units: Units, addr: nat, blocks: nat, keep: nat)
    requires keep >= blocks
    ensures KeptOf(units, addr, blocks, keep) == Some(blocks)
  {
  }

  lemma KeptBounds(units: Units, addr: nat, blocks: nat, keep: nat)
    requires 1 <= keep && 1 <= blocks && KeptOf(units, addr, blocks, keep).Some?
    ensures 1 <= KeptOf(units, addr, blocks, keep).value <= blocks
  {
    hide Releasable, RoundUp;
    RoundUpNear(keep, UnitAt(units, addr));
  }

  lemma KeptSpots(units: Units, extents: seq<Extent>, i: nat, keep: seq<Extent>, cutoff: nat, kept: nat)
    requires ExtentsOk(extents) && i < |extents| && extents[i].first < cutoff
    requires KeptOf(units, extents[i].blk, extents[i].blocks, cutoff - extents[i].first) == Some(kept)
    requires InlineTrimmed(units, extents[..i], keep, cutoff)
    ensures InlineTrimmed(units, extents[..i + 1], keep + [Extent(extents[i].first, extents[i].blk, kept)], cutoff)
  {
    hide WhereInline, Stays;
    var e := extents[i];
    var e1 := Extent(e.first, e.blk, kept);
    assert extents[..i + 1] == extents[..i] + [e];
    KeptBounds(units, e.blk, e.blocks, cutoff - e.first);
    forall f: nat ensures WhereInline(keep + [e1], f) == After(units, WhereInline(extents[..i + 1], f), f, cutoff) {
      WhereInlineAppend(extents[..i], e, f);
      WhereInlineAppend(keep, e1, f);
      if InExtent(e, f) {
        NotInOthers(extents, i, f);
        StaysInExtent(units, e, cutoff, kept, f);
      }
    }
  }

  lemma StaysInExtent(units: Units, e: Extent, cutoff: nat, kept: nat, f: nat)
    requires e.first < cutoff && InExtent(e, f) && KeptOf(units, e.blk, e.blocks, cutoff - e.first) == Some(kept)
    ensures Stays(units, Spot(e.blk, f - e.first), f, cutoff) <==> f < e.first + kept
  {
    hide RoundUp, Releasable;
    RoundUpNear(cutoff - e.first, UnitAt(units, e.blk));
    assert cutoff + (f - e.first) - f == cutoff - e.first;
  }

  lemma KeptBags(extents: seq<Extent>, i: nat, keep: seq<Extent>, e1: Extent, h0: seq<Extent>, h1: seq<Extent>, h2: seq<Extent>, p0: set<nat>, p1: set<nat>, p2: set<nat>)
    requires i < |extents|
    requires Ledger(h0, h1, BagExtents(extents[..i]), BagExtents(keep)) && Conserved(BagExtents(extents[..i]), p0, BagExtents(keep), p1)
    requires Ledger(h1, h2, RunBag(extents[i].blk, extents[i].blocks), RunBag(e1.blk, e1.blocks))
    requires Conserved(RunBag(extents[i].blk, extents[i].blocks), p1, RunBag(e1.blk, e1.blocks), p2)
    ensures Ledger(h0, h2, BagExtents(extents[..i + 1]), BagExtents(keep + [e1]))
    ensures Conserved(BagExtents(extents[..i + 1]), p0, BagExtents(keep + [e1]), p2)
  {
    hide BagExtents, Ledger, Conserved, RunBag;
    var e, a, k := extents[i], BagExtents(extents[..i]), BagExtents(keep);
    var run, run1, all, now := RunBag(e.blk, e.blocks), RunBag(e1.blk, e1.blocks), BagExtents(extents[..i + 1]), BagExtents(keep + [e1]);
    assert extents[..i + 1] == extents[..i] + [e];
    BagExtentAppend(extents[..i], e);
    BagExtentAppend(keep, e1);
    Shuffle(a, run, k);
    LedgerPart(h0, h1, a, k, all, k + run);
    ConservedPart(a, p0, k, p1, all, k + run);
    Shuffle(run, k, run1);
    assert now + run == (k + run) + run1;
    LedgerPart(h1, h2, run, run1, k + run, now);
    ConservedPart(run, p1, run1, p2, k + run, now);
    LedgerTrans(h0, h1, h2, all, k + run, now);
    ConservedTrans(all, p0, k + run, p1, now, p2);
  }

  lemma ExtentsTrimmed(units: Units, extents: seq<Extent>, keep: seq<Extent>, cutoff: nat)
    requires InlineTrimmed(units, extents, keep, cutoff)
    ensures MapTrimmed(units, Inline(extents), Inline(keep), cutoff)
  {
    hide WhereInline, After;
  }
}
