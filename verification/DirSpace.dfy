/**
Whether table and freelist fit the header block. Bucket numbers never exceed the largest table, and a
tight directory has more live buckets than its depth; so splitting always fits. Merging lets the
freelist grow while the table is still large, and may not.
*/
module DirSpace {
  import opened Wrappers
  import opened Intervals
  import opened BitShift
  import opened HashedDir
  import opened DirShape

  const HEADER_HDR := 24

  /** The header block holds the table from its start and the freelist from its end. */
  predicate HeaderHolds(slots: nat, free: nat) {
    HEADER_HDR + 4 * slots + 4 * free <= BLOCK
  }

  /** What every header that was written satisfies. */
  ghost predicate Roomy(d: Hashed) {
    d.nbuckets <= Pow2(MAX_DEPTH) && HeaderHolds(|d.table|, |d.freelist|)
  }

  // --- counting buckets ---------------------------------------------------------------------

  function LiveSet(d: Hashed): set<nat> {
    set b: nat | b < d.nbuckets && b !in d.freelist
  }

  lemma LiveCount(d: Hashed)
    requires Numbering(d)
    ensures |d.freelist| + |LiveSet(d)| == d.nbuckets
  {
    hide Pow2;
    DistinctCount(d.freelist);
    var free, all := set k | 0 <= k < |d.freelist| :: d.freelist[k], Interval(0, d.nbuckets);
    assert free <= all && LiveSet(d) == all - free;
    assert all == free + LiveSet(d);
  }

  lemma {:induction false} ValuesCount(s: seq<nat>)
    ensures |set k | 0 <= k < |s| :: s[k]| <= |s|
  {
    var all := set k | 0 <= k < |s| :: s[k];
    if s == [] {
      assert all == {};
    } else {
      var init, last := s[..|s| - 1], s[|s| - 1];
      ValuesCount(init);
      var less := set k | 0 <= k < |init| :: init[k];
      assert all == less + {last} by {
        assert s == init + [last];
        assert forall k :: 0 <= k < |init| ==> init[k] == s[k];
      }
    }
  }

  /** Every live bucket has a slot of its own. */
  lemma NoMoreThanSlots(d: Hashed)
    requires Numbering(d)
    ensures |LiveSet(d)| <= |d.table| <= Pow2(MAX_DEPTH)
  {
    ValuesCount(d.table);
    var inTable := set k | 0 <= k < |d.table| :: d.table[k];
    forall b | b in LiveSet(d) ensures b in inTable {
      assert Live(d, b) && b in d.table;
    }
    Fewer(LiveSet(d), inTable);
    Pow2Mono(d.depth, MAX_DEPTH);
  }

  // --- a tight directory has more buckets than its depth ------------------------------------------

  /** The bucket that parts from slot i at its k-th bit from the top, the whole depth down. */
  function Branch(d: Hashed, i: nat, k: nat): (b: nat)
    requires Numbering(d) && i < |d.table| && 1 <= k <= d.depth
  {
    FlipBound(i, d.depth - k, d.depth);
    d.table[FlipBit(i, d.depth - k)]
  }

  lemma BranchFacts(d: Hashed, i: nat, k: nat, y: nat)
    requires Numbering(d) && Grouped(d) && i < |d.table| && 1 <= k <= d.depth && LocalDepth(d, i) == d.depth
    requires y < |d.table| && Shr(y, d.depth - k) == Shr(i, d.depth - k)
    ensures Branch(d, i, k) in LiveSet(d) && Branch(d, i, k) != d.table[y]
  {
    hide Shr, FlipBit, Grouped;
    FlipBound(i, d.depth - k, d.depth);
    var x := FlipBit(i, d.depth - k);
    FlipFacts(i, d.depth - k);
    assert Live(d, d.table[x]);
    if d.table[x] == d.table[y] {
      GroupedFact(d, x, y);
      GroupedFact(d, x, i);
      GroupedFact(d, i, x);
      var l := LocalDepth(d, x);
      if l >= k {
        ShrMono(x, y, d.depth - l, d.depth - k);
        assert false;
      } else {
        ShrMono(x, i, d.depth - k + 1, d.depth - l);
      }
    }
  }

  /** Slot i's bucket and its first n branches, all different. */
  ghost function Branches(d: Hashed, i: nat, n: nat): set<nat>
    requires Numbering(d) && i < |d.table| && n <= d.depth
  {
    (set k: nat | 1 <= k <= n :: Branch(d, i, k)) + {d.table[i]}
  }

  lemma {:induction false} BranchesCount(d: Hashed, i: nat, n: nat)
    requires Numbering(d) && Grouped(d) && i < |d.table| && n <= d.depth && LocalDepth(d, i) == d.depth
    ensures |Branches(d, i, n)| == n + 1 && Branches(d, i, n) <= LiveSet(d)
  {
    hide Branch, Shr, Grouped;
    assert Live(d, d.table[i]);
    if n == 0 {
      assert Branches(d, i, 0) == {d.table[i]};
    } else {
      BranchesCount(d, i, n - 1);
      BranchFacts(d, i, n, i);
      forall k: nat | 1 <= k <= n - 1 ensures Branch(d, i, k) != Branch(d, i, n) {
        BranchesDiffer(d, i, k, n);
      }
      assert Branches(d, i, n) == Branches(d, i, n - 1) + {Branch(d, i, n)};
      assert Branch(d, i, n) !in Branches(d, i, n - 1);
    }
  }

  lemma BranchesDiffer(d: Hashed, i: nat, k: nat, n: nat)
    requires Numbering(d) && Grouped(d) && i < |d.table| && 1 <= k < n <= d.depth && LocalDepth(d, i) == d.depth
    ensures Branch(d, i, k) != Branch(d, i, n)
  {
    hide Shr, FlipBit, Grouped;
    FlipBound(i, d.depth - n, d.depth);
    var y := FlipBit(i, d.depth - n);
    FlipFacts(i, d.depth - n);
    ShrMono(y, i, d.depth - n + 1, d.depth - k);
    BranchFacts(d, i, k, y);
  }

  lemma TightHasBuckets(d: Hashed)
    requires Numbering(d) && Grouped(d) && Tight(d)
    ensures |LiveSet(d)| >= d.depth + 1
  {
    hide Grouped, Branch;
    var i: nat := 0;
    if d.depth > 0 {
      i :| i < |d.table| && LocalDepth(d, i) == d.depth;
      BranchesCount(d, i, d.depth);
      Fewer(Branches(d, i, d.depth), LiveSet(d));
    } else {
      assert Live(d, d.table[0]);
      Fewer({d.table[0]}, LiveSet(d));
    }
  }

  // --- splitting -------------------------------------------------------------------------------

  lemma TableSizes(k: nat)
    requires k <= MAX_DEPTH
    ensures Pow2(MAX_DEPTH) == 512 && (k < MAX_DEPTH ==> Pow2(k) <= 256)
  {
    assert Pow2(8) == 256 by { assert Pow2(4) == 16; assert Pow2(6) == 64; }
    if k < MAX_DEPTH {
      Pow2Mono(k, 8);
    }
  }

  /** A tight directory of the largest depth, or about to get there, leaves room for its freelist. */
  lemma SplitFits(d: Hashed, depth: nat, free: nat)
    requires Numbering(d) && Grouped(d) && Tight(d) && Roomy(d)
    requires d.depth <= depth <= d.depth + 1 && depth <= MAX_DEPTH && free <= |d.freelist|
    ensures HeaderHolds(if depth == d.depth then |d.table| else 2 * |d.table|, free)
  {
    assert Pow2(d.depth + 1) == 2 * |d.table|;
    hide Pow2, Grouped, Tight;
    TableSizes(depth);
    LiveCount(d);
    TightHasBuckets(d);
  }

  /** A new bucket number is only taken when all others are live. */
  lemma SplitStaysRoomy(d: Hashed, r: Hashed)
    requires d.nbuckets <= Pow2(MAX_DEPTH) && Numbering(r) && HeaderHolds(|r.table|, |r.freelist|)
    requires r.nbuckets == d.nbuckets || r.freelist == []
    ensures Roomy(r)
  {
    hide Pow2, Numbering;
    LiveCount(r);
    NoMoreThanSlots(r);
  }

  // --- merging ------------------------------------------------------------------------------

  /** The only buddies that could merge involve the target bucket. */
  ghost predicate MergesAt(d: Hashed, target: nat)
    requires Numbering(d) && Grouped(d)
  {
    forall i: nat :: i < |d.table| && Mergeable(d, i) ==> d.table[i] == target || d.table[BuddySlot(d, i)] == target
  }

  /** Taking entries out of one bucket lets only that one merge. */
  lemma RemovedMergesAt(d: Hashed, b: nat, es: seq<HEntry>)
    requires Numbering(d) && Grouped(d) && Live(d, b) && Coarse(d)
    ensures var r := WithEntries(d, b, es); Numbering(r) && Grouped(r) && MergesAt(r, b)
  {
    hide Used, FlipBit, Grouped, Pow2;
    var r := WithEntries(d, b, es);
    WithEntriesShape(d, b, es);
    forall i: nat | i < |r.table| && Mergeable(r, i) ensures r.table[i] == b || r.table[BuddySlot(r, i)] == b {
      assert r.table[i] != b && r.table[BuddySlot(r, i)] != b ==> Mergeable(d, i);
    }
  }

  /** After the target has merged, only the merged bucket can. */
  lemma MergedMergesAt(d: Hashed, i: nat, target: nat)
    requires Numbering(d) && Grouped(d) && i < |d.table| && Mergeable(d, i) && MergesAt(d, target)
    requires Numbering(MergedAt(d, i)) && Grouped(MergedAt(d, i))
    ensures target == d.table[i] || target == d.table[BuddySlot(d, i)]
    ensures MergesAt(MergedAt(d, i), d.table[i])
  {
    hide Used, FlipBit, Grouped, Pow2, Distinct;
    var r, b := MergedAt(d, i), d.table[i];
    forall x: nat | x < |r.table| && Mergeable(r, x) ensures r.table[x] == b || r.table[BuddySlot(r, x)] == b {
      MergeableBefore(d, i, x);
    }
  }

  lemma MergeableBefore(d: Hashed, i: nat, x: nat)
    requires Numbering(d) && Grouped(d) && i < |d.table| && Mergeable(d, i)
    requires Numbering(MergedAt(d, i)) && Grouped(MergedAt(d, i)) && x < |d.table| && Mergeable(MergedAt(d, i), x)
    ensures var r, b := MergedAt(d, i), d.table[i];
      r.table[x] != b && r.table[BuddySlot(r, x)] != b ==>
        && Mergeable(d, x) && BuddySlot(d, x) == BuddySlot(r, x)
        && d.table[x] !in {b, d.table[BuddySlot(d, i)]} && d.table[BuddySlot(d, x)] !in {b, d.table[BuddySlot(d, i)]}
  {
    hide Used, FlipBit, Grouped, Pow2, Distinct;
  }

  /** Halving lets nothing merge that could not before. */
  lemma HalvedCoarse(d: Hashed)
    requires Numbering(d) && Grouped(d) && Halvable(d) && d.depth > 0 && Coarse(d)
    ensures Numbering(Halved(d)) && Grouped(Halved(d)) && Coarse(Halved(d))
  {
    hide Used, Grouped, Pow2, Distinct, FlipBit;
    HalvedGrouped(d);
    var r := Halved(d);
    forall p: nat | p < |r.table| ensures !Mergeable(r, p) {
      assert !Mergeable(d, 2 * p);
      if 0 < LocalDepth(r, p) <= r.depth {
        FlipDouble(p, r.depth - LocalDepth(r, p));
      }
    }
  }

  lemma FlipDouble(p: nat, k: nat)
    ensures FlipBit(2 * p, k + 1) == 2 * FlipBit(p, k)
  {
  }

  /** Where the names of a hash end up by merging: the least depth, from k down, whose prefix fits a block. */
  ghost function MergeDepth(hash: Name -> Hash64, view: View, h: Hash64, k: nat): (m: nat)
    requires k <= 64
    ensures m <= k
  {
    if k > 0 && PrefixFits(hash, view, k - 1, Index(h, k - 1)) then MergeDepth(hash, view, h, k - 1) else k
  }

  /** A mergeable target is at a depth above the one where merging ends. */
  lemma MergeGoesOn(hash: Name -> Hash64, d: Hashed, view: View, i: nat, h: Hash64)
    requires Inv(hash, d) && Shows(hash, d, view) && i < |d.table| && Mergeable(d, i)
    requires Inv(hash, MergedAt(d, i)) && Shows(hash, MergedAt(d, i), view)
    requires d.table[Index(h, d.depth)] == d.table[i] || d.table[Index(h, d.depth)] == d.table[BuddySlot(d, i)]
    ensures var ld := LocalDepth(d, Index(h, d.depth));
      && ld == LocalDepth(d, i) && ld > 0 && PrefixFits(hash, view, ld - 1, Index(h, ld - 1))
      && LocalDepth(MergedAt(d, i), Index(h, d.depth)) == ld - 1
      && MergedAt(d, i).table[Index(h, d.depth)] == d.table[i]
  {
    hide Shr, Index, Grouped, FlipBit, Placed, Shows, Used, Pow2, Distinct, PrefixFits, BucketsOk;
    var r, x := MergedAt(d, i), Index(h, d.depth);
    BuddyGroups(d, i, i);
    assert LocalDepth(r, x) == LocalDepth(d, i) - 1;
    BucketPrefixFits(hash, r, view, x);
    IndexPrefix(h, d.depth, LocalDepth(r, x));
  }

  /** Where nothing can merge any more, the depth is the one where merging ends. */
  lemma MergeEnds(hash: Name -> Hash64, d: Hashed, view: View, h: Hash64)
    requires Inv(hash, d) && Shows(hash, d, view) && Coarse(d)
    ensures var ld := LocalDepth(d, Index(h, d.depth)); ld <= 64 && MergeDepth(hash, view, h, ld) == ld
  {
    hide Shr, Index, Grouped, Placed, Shows, Coarse, PrefixFits;
    LeastDepth(hash, d, view, h);
    InvShape(hash, d);
  }

  /** Depth of the bucket of a name. */
  function DepthOf(hash: Name -> Hash64, d: Hashed, name: Name): nat
    requires Numbering(d)
  {
    LocalDepth(d, Index(hash(name), d.depth))
  }

  /**
  The header has room for the bucket numbers that a removal gives back, all of them before the table is
  halved: as many as the depths that the bucket of the removed name can rise.
  */
  ghost predicate RemovalFits(hash: Name -> Hash64, d: Hashed, view: View, name: Name)
    requires Numbering(d)
  {
    var ld := DepthOf(hash, d, name);
    ld <= 64 && HeaderHolds(|d.table|, |d.freelist| + ld - MergeDepth(hash, view, hash(name), ld))
  }

  /** While merging from d0 on: the table is as large as it was, and each merge gave back one number. */
  ghost predicate MergeState(hash: Name -> Hash64, d0: Hashed, d: Hashed, view: View, name: Name)
    requires Numbering(d0)
  {
    && DepthOf(hash, d0, name) <= 64
    && Inv(hash, d) && Shows(hash, d, view) && Roomy(d) && MergesAt(d, Home(hash, d, name))
    && d.depth == d0.depth && |d.table| == |d0.table|
    && |d.freelist| + DepthOf(hash, d, name) == |d0.freelist| + DepthOf(hash, d0, name)
    && DepthOf(hash, d, name) <= DepthOf(hash, d0, name)
    && MergeDepth(hash, view, hash(name), DepthOf(hash, d, name)) == MergeDepth(hash, view, hash(name), DepthOf(hash, d0, name))
  }

  lemma MergeStep(hash: Name -> Hash64, d0: Hashed, d: Hashed, view: View, name: Name, i: nat)
    requires Numbering(d0) && MergeState(hash, d0, d, view, name)
    requires i < |d.table| && Mergeable(d, i)
    ensures if HeaderHolds(|d.table|, |d.freelist| + 1) then MergeState(hash, d0, MergedAt(d, i), view, name)
            else !RemovalFits(hash, d0, view, name)
  {
    hide Shr, Index, Grouped, FlipBit, Placed, Shows, Used, Pow2, Distinct, PrefixFits, BucketsOk, Numbering, Mergeable, MergesAt, MergedAt;
    InvShape(hash, d);
    MergedInv(hash, d, i, view);
    MergedSizes(d, i);
    MergedMergesAt(d, i, Home(hash, d, name));
    MergeGoesOn(hash, d, view, i, hash(name));
  }

  lemma MergedSizes(d: Hashed, i: nat)
    requires Numbering(d) && Grouped(d) && i < |d.table| && Mergeable(d, i)
    ensures var r := MergedAt(d, i);
      r.depth == d.depth && r.nbuckets == d.nbuckets && |r.table| == |d.table| && |r.freelist| == |d.freelist| + 1
  {
  }

  lemma MergesDone(hash: Name -> Hash64, d0: Hashed, d: Hashed, view: View, name: Name)
    requires Numbering(d0) && MergeState(hash, d0, d, view, name) && Coarse(d)
    ensures RemovalFits(hash, d0, view, name)
  {
    hide Index, Grouped, Placed, Shows, Pow2, BucketsOk, MergesAt, Coarse, MergeDepth, Numbering;
    MergeEnds(hash, d, view, hash(name));
  }

  /** It always has unless the table is at its largest and nearly all numbers it allows were in use once. */
  lemma RemovalUsuallyFits(hash: Name -> Hash64, d: Hashed, view: View, name: Name)
    requires Inv(hash, d) && Tight(d) && Roomy(d) && (d.depth < MAX_DEPTH || d.nbuckets <= 507)
    ensures RemovalFits(hash, d, view, name)
  {
    hide Pow2, Grouped, Index, MergeDepth, Tight;
    InvShape(hash, d);
    GroupedFact(d, Index(hash(name), d.depth), Index(hash(name), d.depth));
    TableSizes(d.depth);
    LiveCount(d);
    TightHasBuckets(d);
  }
}
