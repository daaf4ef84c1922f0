/** The mapping of a file: inline extents or a refinement tree, and the block map they both denote. */
module ExtentTree {
  import opened Wrappers
  import opened Intervals
  import opened Radix

  const MAX_INLINE_EXTENTS := 6

  /**
  A child of the root or of a node block: a hole, a run of blocks from the start of the child's range
  (the rest of it being a hole), or a node block one level down.
  */
  datatype Child = Free | Full(blocks: nat, addr: nat) | Refined(at: nat, level: nat, kids: seq<Child>)

  datatype Extent = Extent(first: nat, blk: nat, blocks: nat)

  datatype FileMap =
    | Empty
    | Embed(payload: seq<bv8>)
    | Inline(extents: seq<Extent>)
    | Tree(level: nat, kids: seq<Child>)

  // --- shape ------------------------------------------------------------------------------

  ghost predicate WF(ch: Child, level: nat)
    decreases level, 0
  {
    match ch
    case Free => true
    case Full(blocks, _) => 1 <= blocks <= Cov(level)
    case Refined(_, lv, kids) =>
      level > 0 && lv == level - 1 && |kids| == NODE_FANOUT && AllWF(kids, level - 1) && !AllFree(kids)
  }

  /** Nothing below: such a node coarsens away. */
  predicate AllFree(kids: seq<Child>) {
    forall i :: 0 <= i < |kids| ==> kids[i].Free?
  }

  ghost predicate AllWF(kids: seq<Child>, level: nat)
    decreases level, 1
  {
    forall i :: 0 <= i < |kids| ==> WF(kids[i], level)
  }

  predicate InExtent(e: Extent, f: nat) {
    e.first <= f < e.first + e.blocks
  }

  ghost predicate ExtentsOk(extents: seq<Extent>) {
    && (forall i :: 0 <= i < |extents| ==> extents[i].blocks >= 1)
    && forall i, j :: 0 <= i < |extents| && 0 <= j < |extents| && i != j ==> Disjoint(extents[i], extents[j])
  }

  predicate Disjoint(a: Extent, b: Extent) {
    a.first + a.blocks <= b.first || b.first + b.blocks <= a.first
  }

  ghost predicate Well(m: FileMap) {
    match m
    case Empty => true
    case Embed(_) => true
    case Inline(extents) => |extents| <= MAX_INLINE_EXTENTS && ExtentsOk(extents)
    case Tree(level, kids) => |kids| == ROOT_FANOUT && AllWF(kids, level)
  }

  // --- meaning ----------------------------------------------------------------------------------

  /** The block address that block x of a child's range is mapped to. */
  function Look(ch: Child, level: nat, x: nat): Option<nat>
    decreases level, 0
  {
    match ch
    case Free => None
    case Full(blocks, addr) => if x < blocks then Some(addr + x) else None
    case Refined(_, _, kids) => if level == 0 then None else LookKids(kids, level - 1, x)
  }

  function LookKids(kids: seq<Child>, level: nat, x: nat): Option<nat>
    decreases level, 1
  {
    var i := Slot(x, Cov(level));
    if i < |kids| then Look(kids[i], level, Sub(x, Cov(level))) else None
  }

  function LookInline(extents: seq<Extent>, f: nat): Option<nat> {
    if extents == [] then None
    else if InExtent(extents[0], f) then Some(extents[0].blk + (f - extents[0].first))
    else LookInline(extents[1..], f)
  }

  /** The map from file block to block address. */
  function BlockOf(m: FileMap, f: nat): Option<nat> {
    match m
    case Empty => None
    case Embed(_) => None
    case Inline(extents) => LookInline(extents, f)
    case Tree(level, kids) => LookKids(kids, level, f)
  }

  lemma LookBeyond(ch: Child, level: nat, x: nat)
    requires WF(ch, level) && x >= Cov(level)
    ensures Look(ch, level, x).None?
  {
    if ch.Refined? {
      BeyondKids(ch.kids, level - 1, x);
    }
  }

  lemma BeyondKids(kids: seq<Child>, level: nat, x: nat)
    requires x >= Start(|kids|, Cov(level))
    ensures LookKids(kids, level, x).None?
  {
    SlotBelow(x, |kids|, Cov(level));
  }

  lemma KidLook(kids: seq<Child>, level: nat, i: nat, s: nat)
    requires i < |kids| && s < Cov(level)
    ensures LookKids(kids, level, Start(i, Cov(level)) + s) == Look(kids[i], level, s)
  {
    SlotIs(i, Cov(level), s);
  }

  lemma {:induction false} InlineAt(extents: seq<Extent>, i: nat, f: nat)
    requires ExtentsOk(extents) && i < |extents| && InExtent(extents[i], f)
    ensures LookInline(extents, f) == Some(extents[i].blk + (f - extents[i].first))
  {
    if i > 0 {
      assert Disjoint(extents[0], extents[i]);
      InlineAt(extents[1..], i - 1, f);
    }
  }

  /** The blocks of a run, each once. */
  ghost function RunBag(lo: nat, n: nat): multiset<nat> {
    multiset(Interval(lo, n))
  }

  // --- what a mapping owns -------------------------------------------------------------------

  /** Data and node blocks of a child, each as often as it is used. */
  ghost function Bag(ch: Child, level: nat): multiset<nat>
    decreases level, 0
  {
    match ch
    case Free => multiset{}
    case Full(blocks, addr) => RunBag(addr, blocks)
    case Refined(at, _, kids) => if level == 0 then multiset{at} else multiset{at} + BagKids(kids, level - 1)
  }

  ghost function BagKids(kids: seq<Child>, level: nat): multiset<nat>
    decreases level, 1, |kids|
  {
    if kids == [] then multiset{} else BagKids(kids[..|kids| - 1], level) + Bag(kids[|kids| - 1], level)
  }

  ghost function BagExtents(extents: seq<Extent>): multiset<nat> {
    if extents == [] then multiset{}
    else BagExtents(extents[..|extents| - 1]) + RunBag(extents[|extents| - 1].blk, extents[|extents| - 1].blocks)
  }

  ghost function Owned(m: FileMap): multiset<nat> {
    match m
    case Empty => multiset{}
    case Embed(_) => multiset{}
    case Inline(extents) => BagExtents(extents)
    case Tree(level, kids) => BagKids(kids, level)
  }

  lemma {:induction false} BagUpdate(kids: seq<Child>, level: nat, i: nat, ch: Child)
    requires i < |kids|
    ensures BagKids(kids[i := ch], level) + Bag(kids[i], level) == BagKids(kids, level) + Bag(ch, level)
    decreases |kids|
  {
    hide Bag;
    var n := |kids| - 1;
    var rest, now := kids[..n], kids[i := ch];
    assert BagKids(now, level) == BagKids(now[..n], level) + Bag(now[n], level);
    if i < n {
      assert now[..n] == rest[i := ch];
      BagUpdate(rest, level, i, ch);
      Swap(BagKids(rest[i := ch], level), Bag(kids[i], level), BagKids(rest, level), Bag(ch, level), Bag(kids[n], level));
    } else {
      assert now[..n] == rest;
      Swap(BagKids(rest, level), Bag(kids[n], level), BagKids(rest, level), Bag(kids[n], level), Bag(ch, level));
    }
  }

  lemma Swap(a: multiset<nat>, b: multiset<nat>, c: multiset<nat>, d: multiset<nat>, e: multiset<nat>)
    requires a + b == c + d
    ensures (a + e) + b == (c + e) + d
  {
    assert (a + e) + b == (a + b) + e;
    assert (c + e) + d == (c + d) + e;
  }

  lemma {:induction false} BagFree(kids: seq<Child>, level: nat)
    requires forall i :: 0 <= i < |kids| ==> kids[i].Free?
    ensures BagKids(kids, level) == multiset{}
    decreases |kids|
  {
    if kids != [] {
      BagFree(kids[..|kids| - 1], level);
    }
  }

  /** What a block is mapped to belongs to the mapping. */
  lemma {:induction false} LookOwned(ch: Child, level: nat, x: nat)
    requires Look(ch, level, x).Some?
    ensures Look(ch, level, x).value in Bag(ch, level)
    decreases level, 0, 0
  {
    if ch.Refined? {
      LookKidsOwned(ch.kids, level - 1, x);
    }
  }

  lemma {:induction false} LookKidsOwned(kids: seq<Child>, level: nat, x: nat)
    requires LookKids(kids, level, x).Some?
    ensures LookKids(kids, level, x).value in BagKids(kids, level)
    decreases level, 1, 0
  {
    var i := Slot(x, Cov(level));
    LookOwned(kids[i], level, Sub(x, Cov(level)));
    KidInBag(kids, level, i);
  }

  lemma {:induction false} KidInBag(kids: seq<Child>, level: nat, i: nat)
    requires i < |kids|
    ensures Bag(kids[i], level) <= BagKids(kids, level)
    decreases |kids|
  {
    if i < |kids| - 1 {
      KidInBag(kids[..|kids| - 1], level, i);
    }
  }

  lemma {:induction false} TwoKidsInBag(kids: seq<Child>, level: nat, i: nat, j: nat)
    requires i < j < |kids|
    ensures Bag(kids[i], level) + Bag(kids[j], level) <= BagKids(kids, level)
    decreases |kids|
  {
    var rest := kids[..|kids| - 1];
    if j < |kids| - 1 {
      TwoKidsInBag(rest, level, i, j);
    } else {
      KidInBag(rest, level, i);
    }
  }

  ghost predicate NoRepeat(m: multiset<nat>) {
    forall b :: m[b] <= 1
  }

  /** A mapping that owns no block twice never maps two file blocks to one. */
  lemma {:induction false} LookInjective(ch: Child, level: nat, x: nat, y: nat)
    requires NoRepeat(Bag(ch, level)) && x != y && Look(ch, level, x).Some?
    ensures Look(ch, level, x) != Look(ch, level, y)
    decreases level, 0
  {
    if ch.Refined? {
      assert BagKids(ch.kids, level - 1) <= Bag(ch, level);
      KidsInjective(ch.kids, level - 1, x, y);
    }
  }

  lemma {:induction false} KidsInjective(kids: seq<Child>, level: nat, x: nat, y: nat)
    requires NoRepeat(BagKids(kids, level)) && x != y && LookKids(kids, level, x).Some?
    ensures LookKids(kids, level, x) != LookKids(kids, level, y)
    decreases level, 1
  {
    hide Start;
    var c := Cov(level);
    var i, j := Slot(x, c), Slot(y, c);
    SlotSub(x, c);
    SlotSub(y, c);
    if LookKids(kids, level, y).Some? {
      LookOwned(kids[i], level, Sub(x, c));
      LookOwned(kids[j], level, Sub(y, c));
      KidInBag(kids, level, i);
      if i == j {
        LookInjective(kids[i], level, Sub(x, c), Sub(y, c));
      } else {
        TwoKidsInBag(kids, level, if i < j then i else j, if i < j then j else i);
        var b := Look(kids[i], level, Sub(x, c)).value;
        assert Bag(kids[i], level)[b] + Bag(kids[j], level)[b] <= BagKids(kids, level)[b] <= 1;
      }
    }
  }

  // --- how many data blocks ------------------------------------------------------------------

  ghost function Data(ch: Child, level: nat): nat
    decreases level, 0
  {
    match ch
    case Free => 0
    case Full(blocks, _) => blocks
    case Refined(_, _, kids) => if level == 0 then 0 else DataKids(kids, level - 1)
  }

  ghost function DataKids(kids: seq<Child>, level: nat): nat
    decreases level, 1, |kids|
  {
    if kids == [] then 0 else DataKids(kids[..|kids| - 1], level) + Data(kids[|kids| - 1], level)
  }

  ghost function DataExtents(extents: seq<Extent>): nat {
    if extents == [] then 0 else DataExtents(extents[..|extents| - 1]) + extents[|extents| - 1].blocks
  }

  ghost function DataBlocks(m: FileMap): nat {
    match m
    case Empty => 0
    case Embed(_) => 0
    case Inline(extents) => DataExtents(extents)
    case Tree(level, kids) => DataKids(kids, level)
  }

  lemma {:induction false} DataUpdate(kids: seq<Child>, level: nat, i: nat, ch: Child)
    requires i < |kids|
    ensures DataKids(kids[i := ch], level) + Data(kids[i], level) == DataKids(kids, level) + Data(ch, level)
    decreases |kids|
  {
    var n := |kids| - 1;
    var rest := kids[..n];
    if i < n {
      assert kids[i := ch][..n] == rest[i := ch];
      DataUpdate(rest, level, i, ch);
    } else {
      assert kids[i := ch][..n] == rest;
    }
  }

  lemma {:induction false} DataFree(kids: seq<Child>, level: nat)
    requires forall i :: 0 <= i < |kids| ==> kids[i].Free?
    ensures DataKids(kids, level) == 0
    decreases |kids|
  {
    if kids != [] {
      DataFree(kids[..|kids| - 1], level);
    }
  }

  // --- restructuring ---------------------------------------------------------------------------

  function FreeKids(n: nat): (kids: seq<Child>)
    ensures |kids| == n && forall i :: 0 <= i < n ==> kids[i] == Free
  {
    seq(n, _ => Free)
  }

  /** Child i of a node that takes over a run of its parent's. */
  function Piece(blocks: nat, addr: nat, c: nat, i: nat): Child {
    if Start(i, c) < blocks then
      Full(if blocks - Start(i, c) < c then blocks - Start(i, c) else c, addr + Start(i, c))
    else Free
  }

  /** Spreading a run over a fresh node's children keeps the map, whatever the level and the length. */
  lemma SpreadSame(kids: seq<Child>, level: nat, blocks: nat, addr: nat, at: nat, x: nat)
    requires |kids| == NODE_FANOUT && blocks <= Cov(level + 1)
    requires forall i :: 0 <= i < NODE_FANOUT ==> kids[i] == Piece(blocks, addr, Cov(level), i)
    ensures Look(Refined(at, level, kids), level + 1, x) == Look(Full(blocks, addr), level + 1, x)
  {
    hide Start;
    var c := Cov(level);
    CovUp(level);
    SlotSub(x, c);
    SlotBelow(x, NODE_FANOUT, c);
    StartTop(c);
    assert Look(Refined(at, level, kids), level + 1, x) == LookKids(kids, level, x);
    var i := Slot(x, c);
    if i < NODE_FANOUT {
      assert kids[i] == Piece(blocks, addr, c, i);
    }
  }

  lemma StartTop(c: nat)
    ensures Start(NODE_FANOUT, c) == NODE_FANOUT * c
  {
  }

  lemma SpreadWF(kids: seq<Child>, level: nat, blocks: nat, addr: nat)
    requires |kids| == NODE_FANOUT && forall i :: 0 <= i < NODE_FANOUT ==> kids[i] == Piece(blocks, addr, Cov(level), i)
    ensures AllWF(kids, level)
  {
    hide Start;
  }

  /** The pieces own exactly the run. */
  lemma {:induction false} SpreadBag(kids: seq<Child>, level: nat, blocks: nat, addr: nat)
    requires forall i :: 0 <= i < |kids| ==> kids[i] == Piece(blocks, addr, Cov(level), i)
    ensures BagKids(kids, level) ==
      RunBag(addr, if Start(|kids|, Cov(level)) < blocks then Start(|kids|, Cov(level)) else blocks)
    decreases |kids|
  {
    hide Start;
    var n, c := |kids| - 1, Cov(level);
    if kids == [] {
      StartNext(0, c);
    } else {
      SpreadBag(kids[..n], level, blocks, addr);
      StartNext(n, c);
      var done := if Start(n, c) < blocks then Start(n, c) else blocks;
      var more := if Start(n + 1, c) < blocks then Start(n + 1, c) else blocks;
      JoinRuns(addr, done, more - done);
    }
  }

  lemma JoinRuns(addr: nat, n: nat, m: nat)
    ensures RunBag(addr, n + m) == RunBag(addr, n) + RunBag(addr + n, m)
  {
    assert Interval(addr, n + m) == Interval(addr, n) + Interval(addr + n, m);
    assert Interval(addr, n) !! Interval(addr + n, m);
  }

  /** Wrapping the root's children into one node under a higher root keeps the map. */
  lemma GrowSame(kids: seq<Child>, level: nat, node: nat, x: nat)
    requires |kids| == ROOT_FANOUT
    ensures var top := [Refined(node, level, kids + FreeKids(NODE_FANOUT - ROOT_FANOUT))] + FreeKids(ROOT_FANOUT - 1);
      LookKids(top, level + 1, x) == LookKids(kids, level, x)
  {
    hide Start;
    var c := Cov(level);
    CovUp(level);
    SlotIff(x, 0, Cov(level + 1));
    StartNext(0, Cov(level + 1));
    SlotBelow(x, NODE_FANOUT, c);
    StartTop(c);
    var wide := kids + FreeKids(NODE_FANOUT - ROOT_FANOUT);
    var top := [Refined(node, level, wide)] + FreeKids(ROOT_FANOUT - 1);
    var i, j := Slot(x, Cov(level + 1)), Slot(x, c);
    if i == 0 {
      assert top[i] == Refined(node, level, wide);
      assert LookKids(top, level + 1, x) == Look(top[0], level + 1, x) == LookKids(wide, level, x);
      assert j < ROOT_FANOUT ==> wide[j] == kids[j];
      assert ROOT_FANOUT <= j < NODE_FANOUT ==> wide[j] == Free;
      assert j < NODE_FANOUT;
      assert LookKids(wide, level, x) == Look(wide[j], level, Sub(x, c));
      assert LookKids(wide, level, x) == LookKids(kids, level, x);
    } else {
      assert i < ROOT_FANOUT ==> top[i] == Free;
    }
  }

  lemma {:induction false} BagAppend(a: seq<Child>, b: seq<Child>, level: nat)
    ensures BagKids(a + b, level) == BagKids(a, level) + BagKids(b, level)
    ensures DataKids(a + b, level) == DataKids(a, level) + DataKids(b, level)
    decreases |b|
  {
    if b == [] {
      assert a + b == a;
    } else {
      var n := |b| - 1;
      assert (a + b)[..|a| + n] == a + b[..n];
      BagAppend(a, b[..n], level);
    }
  }

  lemma FreeLook(kids: seq<Child>, level: nat, x: nat)
    requires forall i :: 0 <= i < |kids| ==> kids[i].Free?
    ensures LookKids(kids, level, x).None?
  {
  }
}
