/** How many blocks of each kind a tree holds, and how changes of the tree move the counts. */
module AllocCount {
  import opened Wrappers
  import opened AllocTree
  import opened AllocOps
  import opened Intervals

  /** The three classes the group header counts. Slot blocks count as full. */
  datatype Kind = KFree | KRsvd | KFull

  function KindOf(s: Block): Kind {
    match s
    case Free => KFree
    case Reserved => KRsvd
    case Full => KFull
    case Slots => KFull
  }

  /** The blocks below n of one kind. */
  function KindBelow(t: Tree, k: Kind, n: nat): set<nat> {
    set b: nat | b < n && KindOf(BlockAt(t, b)) == k
  }

  function Count(t: Tree, k: Kind): nat {
    |KindBelow(t, k, t.length)|
  }

  /** Every block is of exactly one kind: the three counts sum to the group's length. */
  lemma CountsSum(t: Tree)
    ensures Count(t, KFree) + Count(t, KRsvd) + Count(t, KFull) == t.length
  {
    hide BlockAt;
    var a, b, c := KindBelow(t, KFree, t.length), KindBelow(t, KRsvd, t.length), KindBelow(t, KFull, t.length);
    assert a + b + c == Interval(0, t.length);
    assert a !! b && (a + b) !! c;
  }

  /** n blocks going from one state to another move n from one count to the other. */
  lemma CountShift(t: Tree, u: Tree, lo: nat, n: nat, was: Block, now: Block, k: Kind)
    requires u.length == t.length && lo + n <= t.length && RangeBecomes(t, u, lo, n, now)
    requires forall b: nat :: lo <= b < lo + n ==> BlockAt(t, b) == was
    ensures Count(u, k) == Count(t, k) + (if KindOf(now) == k then n else 0) - (if KindOf(was) == k then n else 0)
  {
    hide BlockAt;
    var run, rest := Interval(lo, n), KindBelow(t, k, t.length) - Interval(lo, n);
    CountAround(t, k, lo, n, was);
    CountAround(u, k, lo, n, now);
    assert rest == KindBelow(u, k, u.length) - run;
  }

  lemma CountAround(t: Tree, k: Kind, lo: nat, n: nat, s: Block)
    requires lo + n <= t.length && forall b: nat :: lo <= b < lo + n ==> BlockAt(t, b) == s
    ensures Count(t, k) == |KindBelow(t, k, t.length) - Interval(lo, n)| + if KindOf(s) == k then n else 0
  {
    hide BlockAt;
    var run, a := Interval(lo, n), KindBelow(t, k, t.length);
    if KindOf(s) == k {
      assert run <= a;
    } else {
      assert a - run == a;
    }
  }

  lemma CountSame(t: Tree, u: Tree, k: Kind)
    requires u.length == t.length && SameBlocks(t, u)
    ensures Count(u, k) == Count(t, k)
  {
    hide BlockAt;
    assert KindBelow(t, k, t.length) == KindBelow(u, k, u.length);
  }

  /** Extending a tally by m blocks of one state. */
  lemma TallyMore(t: Tree, n: nat, m: nat, s: Block, k: Kind)
    requires forall b: nat :: n <= b < n + m ==> BlockAt(t, b) == s
    ensures |KindBelow(t, k, n + m)| == |KindBelow(t, k, n)| + if KindOf(s) == k then m else 0
  {
    hide BlockAt;
    var a, all, run := KindBelow(t, k, n), KindBelow(t, k, n + m), Interval(n, m);
    assert a !! run;
    if KindOf(s) == k {
      assert all == a + run;
    } else {
      assert all == a;
    }
  }
}
