/** Looking up a file block: an address or a hole, and for how many blocks that answer is good. */
module ExtentLookup {
  import opened Wrappers
  import opened Radix
  import opened ExtentTree

  const MAX_U64 := 0xFFFF_FFFF_FFFF_FFFF

  datatype Answer = Hole(len: int) | Run(blk: nat, len: int)

  function RunInChild(blocks: nat, addr: nat, rel: nat, c: nat): Answer {
    if rel < blocks then Run(addr + rel, blocks - rel) else Hole(c - rel)
  }

  function ChildLookup(ch: Child, level: nat, rel: nat): Answer
    decreases level, 0
  {
    match ch
    case Free => Hole(Cov(level) - rel)
    case Full(blocks, addr) => RunInChild(blocks, addr, rel, Cov(level))
    case Refined(_, _, kids) => if level == 0 then Hole(0) else KidsLookup(kids, level - 1, rel)
  }

  /** Descend into the child that covers block rel. */
  function KidsLookup(kids: seq<Child>, level: nat, rel: nat): Answer
    decreases level, 1
  {
    var i := Slot(rel, Cov(level));
    if i < |kids| then ChildLookup(kids[i], level, Sub(rel, Cov(level))) else Hole(MAX_U64)
  }

  /** The extent that holds f, or the first block of the next one. */
  function InlineLookup(extents: seq<Extent>, f: nat, nextStart: nat): Answer {
    if extents == [] then Hole(nextStart - f)
    else if InExtent(extents[0], f) then
      Run(extents[0].blk + (f - extents[0].first), extents[0].blocks - (f - extents[0].first))
    else InlineLookup(extents[1..], f, if f < extents[0].first < nextStart then extents[0].first else nextStart)
  }

  function MapLookup(m: FileMap, f: nat): Answer {
    match m
    case Empty => Hole(MAX_U64)
    case Embed(_) => Hole(MAX_U64)
    case Inline(extents) => InlineLookup(extents, f, MAX_U64)
    case Tree(level, kids) => KidsLookup(kids, level, f)
  }

  // --- soundness ------------------------------------------------------------------------------

  /** The per-block answer that a lookup promises for the block off places further on. */
  ghost predicate Says(a: Answer, off: int, got: Option<nat>) {
    match a
    case Hole(_) => got.None?
    case Run(blk, _) => got.Some? && got.value == blk + off
  }

  /** The answer is right for every block its length covers. */
  ghost predicate GoodFor(m: FileMap, f: nat, a: Answer) {
    forall y: nat :: f <= y < f + a.len ==> Says(a, y - f, BlockOf(m, y))
  }

  ghost predicate GoodInChild(ch: Child, level: nat, x: nat, a: Answer) {
    && 1 <= a.len <= Cov(level) - x
    && forall y: nat :: x <= y < x + a.len ==> Says(a, y - x, Look(ch, level, y))
  }

  ghost predicate GoodInKids(kids: seq<Child>, level: nat, x: nat, a: Answer) {
    forall y: nat :: x <= y < x + a.len ==> Says(a, y - x, LookKids(kids, level, y))
  }

  /** An answer inside a child never reaches past the child. */
  lemma {:induction false} ChildSound(ch: Child, level: nat, x: nat)
    requires WF(ch, level) && x < Cov(level)
    ensures GoodInChild(ch, level, x, ChildLookup(ch, level, x))
    decreases level
  {
    if ch.Refined? {
      hide Start, Slot, Sub, Says;
      var below := level - 1;
      var c := Cov(below);
      var i := Slot(x, c);
      SlotSub(x, c);
      SlotBelow(x, NODE_FANOUT, c);
      StartTop(c);
      CovUp(below);
      ChildSound(ch.kids[i], below, Sub(x, c));
      KidAnswer(ch.kids, below, x);
      StartEnd(i, c);
      var a := KidsLookup(ch.kids, below, x);
      assert ChildLookup(ch, level, x) == a;
      forall y: nat | x <= y < x + a.len ensures Says(a, y - x, Look(ch, level, y)) {
        assert Look(ch, level, y) == LookKids(ch.kids, below, y);
      }
    }
  }

  lemma StartEnd(i: nat, c: nat)
    requires i < NODE_FANOUT
    ensures Start(i, c) + c <= NODE_FANOUT * c
  {
    StartUp(i, NODE_FANOUT, c);
  }

  /** What the covering child answers holds for the row of children. */
  lemma KidAnswer(kids: seq<Child>, level: nat, x: nat)
    requires Slot(x, Cov(level)) < |kids|
    requires var ch, s := kids[Slot(x, Cov(level))], Sub(x, Cov(level)); GoodInChild(ch, level, s, ChildLookup(ch, level, s))
    ensures var a := KidsLookup(kids, level, x);
      1 <= a.len <= Cov(level) - Sub(x, Cov(level)) && GoodInKids(kids, level, x, a)
  {
    hide Start, Slot, Sub, ChildLookup, Says;
    var c := Cov(level);
    SlotSub(x, c);
    var i, s := Slot(x, c), Sub(x, c);
    var a := KidsLookup(kids, level, x);
    assert a == ChildLookup(kids[i], level, s);
    forall y: nat | x <= y < x + a.len ensures Says(a, y - x, LookKids(kids, level, y)) {
      SlotIff(y, i, c);
      assert y - x == Sub(y, c) - s;
      assert Says(a, Sub(y, c) - s, Look(kids[i], level, Sub(y, c)));
    }
  }

  ghost predicate GoodInline(extents: seq<Extent>, f: nat, a: Answer) {
    match a
    case Hole(len) => forall y: nat :: f <= y < f + len ==> LookInline(extents, y).None?
    case Run(blk, len) => exists e :: e in extents && InExtent(e, f) && a == Run(e.blk + (f - e.first), e.blocks - (f - e.first))
  }

  lemma {:induction false} InlineSound(extents: seq<Extent>, f: nat, nextStart: nat)
    requires nextStart > f
    ensures var a := InlineLookup(extents, f, nextStart);
      a.len >= 1 && GoodInline(extents, f, a) && (a.Hole? ==> a.len <= nextStart - f)
  {
    if extents != [] && !InExtent(extents[0], f) {
      var next := if f < extents[0].first < nextStart then extents[0].first else nextStart;
      InlineSound(extents[1..], f, next);
      var a := InlineLookup(extents[1..], f, next);
      if a.Hole? {
        forall y: nat | f <= y < f + a.len ensures LookInline(extents, y).None? {
          assert LookInline(extents[1..], y).None?;
        }
      } else {
        var e :| e in extents[1..] && InExtent(e, f) && a == Run(e.blk + (f - e.first), e.blocks - (f - e.first));
        assert e in extents;
      }
    } else if extents != [] {
      assert extents[0] in extents;
    } else {
      forall y: nat ensures LookInline(extents, y).None? {
      }
    }
  }

  /** Every block inside a returned length has the answer a lookup of its own would give. */
  lemma LookupSound(m: FileMap, f: nat)
    requires Well(m) && f < MAX_U64
    ensures MapLookup(m, f).len >= 1 && GoodFor(m, f, MapLookup(m, f))
  {
    match m
    case Empty =>
    case Embed(_) =>
    case Inline(extents) => InlineMapSound(extents, f);
    case Tree(level, kids) => TreeMapSound(level, kids, f);
  }

  lemma InlineMapSound(extents: seq<Extent>, f: nat)
    requires ExtentsOk(extents) && f < MAX_U64
    ensures MapLookup(Inline(extents), f).len >= 1 && GoodFor(Inline(extents), f, MapLookup(Inline(extents), f))
  {
    InlineSound(extents, f, MAX_U64);
    var a := InlineLookup(extents, f, MAX_U64);
    if a.Run? {
      var e :| e in extents && InExtent(e, f) && a == Run(e.blk + (f - e.first), e.blocks - (f - e.first));
      var i :| 0 <= i < |extents| && extents[i] == e;
      forall y: nat | f <= y < f + a.len ensures Says(a, y - f, LookInline(extents, y)) {
        InlineAt(extents, i, y);
      }
    }
  }

  lemma TreeMapSound(level: nat, kids: seq<Child>, f: nat)
    requires AllWF(kids, level)
    ensures var a := KidsLookup(kids, level, f); a.len >= 1 && GoodInKids(kids, level, f, a)
  {
    hide Start, Slot, Sub;
    var c := Cov(level);
    SlotSub(f, c);
    if Slot(f, c) < |kids| {
      ChildSound(kids[Slot(f, c)], level, Sub(f, c));
      KidAnswer(kids, level, f);
    } else {
      SlotBelow(f, |kids|, c);
      forall y: nat | f <= y ensures LookKids(kids, level, y).None? {
        BeyondKids(kids, level, y);
      }
    }
  }
}
