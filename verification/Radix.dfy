/** Splitting file blocks over children that each cover 64^level blocks. */
module Radix {
  const NODE_FANOUT := 64
  const ROOT_FANOUT := 6

  /** Blocks covered by one child at a level. */
  function Cov(level: nat): (c: nat)
    ensures c >= 1
  {
    if level == 0 then 1 else NODE_FANOUT * Cov(level - 1)
  }

  lemma CovUp(level: nat)
    ensures Cov(level + 1) == NODE_FANOUT * Cov(level) && Cov(level + 1) > Cov(level)
  {
  }

  /** First block of child i. */
  function Start(i: nat, c: nat): nat {
    i * c
  }

  /** The child that covers block x, and the block's number inside it. */
  function Slot(x: nat, c: nat): nat
    requires c >= 1
  {
    x / c
  }

  function Sub(x: nat, c: nat): nat
    requires c >= 1
  {
    x % c
  }

  lemma SlotSub(x: nat, c: nat)
    requires c >= 1
    ensures Start(Slot(x, c), c) + Sub(x, c) == x && Sub(x, c) < c
  {
  }

  lemma SlotIs(i: nat, c: nat, s: nat)
    requires s < c
    ensures Slot(Start(i, c) + s, c) == i && Sub(Start(i, c) + s, c) == s
  {
    var x := i * c + s;
    SlotSub(x, c);
    var q := x / c;
    if q < i {
      StartUp(q, i, c);
    } else if q > i {
      StartUp(i, q, c);
    }
  }

  lemma StartUp(i: nat, j: nat, c: nat)
    requires i < j
    ensures Start(i, c) + c <= Start(j, c)
  {
    hide Start;
    StartNext(j - 1, c);
    if i < j - 1 {
      StartUp(i, j - 1, c);
    }
  }

  lemma StartNext(i: nat, c: nat)
    ensures Start(i + 1, c) == Start(i, c) + c && Start(0, c) == 0
  {
  }

  /** Block x is under child i exactly when it lies in that child's range. */
  lemma SlotIff(x: nat, i: nat, c: nat)
    requires c >= 1
    ensures Slot(x, c) == i <==> Start(i, c) <= x < Start(i, c) + c
    ensures Slot(x, c) == i ==> Sub(x, c) == x - Start(i, c)
  {
    SlotSub(x, c);
    if Start(i, c) <= x < Start(i, c) + c {
      SlotIs(i, c, x - Start(i, c));
    }
  }

  /** Below n children's worth of blocks, the child is one of those n. */
  lemma SlotBelow(x: nat, n: nat, c: nat)
    requires c >= 1
    ensures Slot(x, c) < n <==> x < Start(n, c)
  {
    hide Start, Slot, Sub;
    SlotSub(x, c);
    if Slot(x, c) < n {
      StartUp(Slot(x, c), n, c);
    } else if Slot(x, c) > n {
      StartUp(n, Slot(x, c), c);
    }
  }
}
