/** The group allocator seen as the pool of free blocks that file data is allocated from. */
module AllocPool {
  import opened Wrappers
  import opened Intervals
  import opened AllocTree
  import opened AllocOps
  import opened AllocCount
  import opened AllocSpec
  import opened FreeSpec

  /** The pool a group stands for. */
  function FreeBlocks(t: Tree): set<nat> {
    KindBelow(t, KFree, t.length)
  }

  /** What an allocation hands out comes from the pool; rounding and a claimed cell may take more. */
  lemma TakenFromPool(t: Tree, u: Tree, lo: nat, n: nat, claimed: Option<nat>)
    requires n >= 1 && u.length == t.length && Allocated(t, u, lo, Rounded(n), claimed)
    ensures Interval(lo, n) <= FreeBlocks(t) && FreeBlocks(u) <= FreeBlocks(t) - Interval(lo, n)
    ensures claimed.None? ==> FreeBlocks(u) == FreeBlocks(t) - Interval(lo, Rounded(n))
  {
    hide BlockAt, SlotUsed, Granule;
    assert Rounded(n) >= n;
  }

  /** What a release returns is exactly what the pool gains. */
  lemma ReturnedToPool(t: Tree, u: Tree, lo: nat, n: nat)
    requires lo + n <= t.length && Freed(t, u, lo, n)
    ensures FreeBlocks(u) == FreeBlocks(t) + Interval(lo, n)
  {
    hide BlockAt, SlotUsed, Granule;
  }

  /** The granule a FULL block lies in starts with a FULL block of the same granule. */
  lemma GranuleStart(t: Tree, x: nat) returns (p: nat)
    requires BlockAt(t, x) == Full
    ensures Aligned(p, Granule(t, p)) && p <= x < p + Granule(t, p)
    ensures Granule(t, p) == Granule(t, x) && BlockAt(t, p) == Full
  {
    hide At, KidState;
    var g := Granule(t, x);
    p := UpTo(x, g) - g;
    assert Aligned(p, g) && p <= x < p + g;
    SameGranule(p, x, g);
  }

  /**
  Returning a piece of a run returns exactly that piece if and only if the piece ends where a granule
  does; otherwise the block behind it, still allocated, goes as well.
  */
  lemma PieceReturnsExactly(t: Tree, owner: map<Ref, Place>, lo: nat, n: nat)
    requires Tidy(t, owner, {}) && Freeable(t, lo, n) && n >= 1
    ensures CoverEnd(t, lo, n) == lo + n <==> Aligned(lo + n, Granule(t, lo + n - 1))
    ensures CoverEnd(t, lo, n) > lo + n ==> BlockAt(t, lo + n) == Full
  {
    hide BlockAt, Granule, Tidy;
    TidyParts(t, owner, {});
    var p := GranuleStart(t, lo + n - 1);
    GranuleWhole(t, owner, p);
  }

  /** A release stays inside the group. */
  lemma ReleaseInside(t: Tree, owner: map<Ref, Place>, lo: nat, n: nat)
    requires Tidy(t, owner, {}) && Freeable(t, lo, n) && n >= 1
    ensures lo + n <= CoverEnd(t, lo, n) <= t.length
  {
    hide BlockAt, Granule, Tidy;
    TidyParts(t, owner, {});
    var p := GranuleStart(t, lo + n - 1);
    GranuleWhole(t, owner, p);
  }
}
