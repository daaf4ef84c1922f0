/**
The shape of a hashed directory depends on its contents alone: every bucket has
the least local depth at which the entries sharing its hash prefix fit one
block. Insertion and removal keep this, so no history shows in the layout.
*/
module DirShape {
  import opened BitShift
  import opened HashedDir

  // --- sizes of sets of names ---------------------------------------------------------

  ghost function SumSizes(s: set<Name>): nat {
    if s == {} then 0 else var x :| x in s; EntrySize(x) + SumSizes(s - {x})
  }

  lemma {:induction false} SumRemove(s: set<Name>, x: Name)
    requires x in s
    ensures SumSizes(s) == EntrySize(x) + SumSizes(s - {x})
    decreases |s|
  {
    hide EntrySize;
    var y :| y in s && SumSizes(s) == EntrySize(y) + SumSizes(s - {y});
    if y != x {
      SumRemove(s - {y}, x);
      SumRemove(s - {x}, y);
      assert s - {y} - {x} == s - {x} - {y};
    }
  }

  lemma {:induction false} SumMono(a: set<Name>, b: set<Name>)
    requires a <= b
    ensures SumSizes(a) <= SumSizes(b)
    decreases |a|
  {
    hide EntrySize;
    if a != {} {
      var x :| x in a;
      SumRemove(a, x);
      SumRemove(b, x);
      SumMono(a - {x}, b - {x});
    }
  }

  lemma {:induction false} SumUnion(a: set<Name>, b: set<Name>)
    requires a !! b
    ensures SumSizes(a + b) == SumSizes(a) + SumSizes(b)
    decreases |a|
  {
    hide EntrySize;
    if a == {} {
      assert a + b == b;
    } else {
      var x :| x in a;
      SumRemove(a, x);
      SumRemove(a + b, x);
      SumUnion(a - {x}, b);
      assert a + b - {x} == (a - {x}) + b;
    }
  }

  ghost function NamesOf(es: seq<HEntry>): set<Name> {
    set k | 0 <= k < |es| :: es[k].name
  }

  lemma {:induction false} UsedIsSum(es: seq<HEntry>)
    requires DistinctNames(es)
    ensures SumSizes(NamesOf(es)) == Used(es)
  {
    hide EntrySize;
    if es != [] {
      var init, last := es[..|es| - 1], es[|es| - 1];
      UsedIsSum(init);
      assert NamesOf(es) == NamesOf(init) + {last.name} by {
        assert es == init + [last];
        assert forall k :: 0 <= k < |init| ==> init[k] == es[k];
      }
      assert last.name !in NamesOf(init);
      SumRemove(NamesOf(es), last.name);
      assert NamesOf(es) - {last.name} == NamesOf(init);
    }
  }

  // --- what a bucket holds ------------------------------------------------------------------

  /** The names whose hash starts with the k bits q. */
  ghost function PrefixNames(hash: Name -> Hash64, view: View, k: nat, q: nat): set<Name>
    requires k <= 64
  {
    set n | n in view && Index(hash(n), k) == q
  }

  /** The entries sharing a prefix fit one block. */
  ghost predicate PrefixFits(hash: Name -> Hash64, view: View, k: nat, q: nat)
    requires k <= 64
  {
    BUCKET_HDR + SumSizes(PrefixNames(hash, view, k, q)) <= BLOCK
  }

  lemma IndexPrefix(h: Hash64, depth: nat, k: nat)
    requires k <= depth <= 64
    ensures Shr(Index(h, depth), depth - k) == Index(h, k)
  {
    ShrAdd(h, 64 - depth, depth - k);
  }

  /** A bucket holds exactly the names with its prefix. */
  lemma BucketNames(hash: Name -> Hash64, d: Hashed, view: View, i: nat)
    requires Inv(hash, d) && Shows(hash, d, view) && i < |d.table|
    ensures LocalDepth(d, i) <= d.depth
    ensures NamesOf(d.buckets[d.table[i]].entries)
            == PrefixNames(hash, view, LocalDepth(d, i), Shr(i, d.depth - LocalDepth(d, i)))
  {
    hide Index, Shr, Grouped, Distinct, BucketsOk;
    GroupedFact(d, i, i);
    var b, ld := d.table[i], LocalDepth(d, i);
    var es := d.buckets[b].entries;
    forall n
      ensures n in NamesOf(es) <==> n in PrefixNames(hash, view, ld, Shr(i, d.depth - ld))
    {
      NameInBucket(hash, d, view, i, n);
    }
  }

  lemma NameInBucket(hash: Name -> Hash64, d: Hashed, view: View, i: nat, n: Name)
    requires Inv(hash, d) && Shows(hash, d, view) && i < |d.table| && LocalDepth(d, i) <= d.depth
    ensures n in NamesOf(d.buckets[d.table[i]].entries)
            <==> n in PrefixNames(hash, view, LocalDepth(d, i), Shr(i, d.depth - LocalDepth(d, i)))
  {
    hide Index, Shr, Grouped, Distinct, BucketsOk;
    var b, ld, x := d.table[i], LocalDepth(d, i), Index(hash(n), d.depth);
    var es := d.buckets[b].entries;
    GroupedFact(d, i, x);
    IndexPrefix(hash(n), d.depth, ld);
    if n in NamesOf(es) {
      var k :| 0 <= k < |es| && es[k].name == n;
      assert Live(d, b);
      assert PlacedAt(hash, d, b, es[k]);
    }
    if n in view && d.table[x] == b {
      assert HasName(es, n);
    }
  }

  // --- canonical shape -----------------------------------------------------------------------

  /** No two buddies of equal depth fit one block. */
  ghost predicate Coarse(d: Hashed)
    requires Numbering(d) && Grouped(d)
  {
    forall i: nat :: i < |d.table| ==> !Mergeable(d, i)
  }

  /** The global depth is the largest local depth. */
  ghost predicate Tight(d: Hashed)
    requires Numbering(d) && Grouped(d)
  {
    d.depth == 0 || exists i: nat :: i < |d.table| && LocalDepth(d, i) == d.depth
  }

  /** Among the slots sharing k bits with i, one of largest local depth. */
  lemma Deepest(d: Hashed, i: nat, k: nat) returns (x: nat)
    requires Numbering(d) && Grouped(d) && i < |d.table| && k <= d.depth
    ensures x < |d.table| && Shr(x, d.depth - k) == Shr(i, d.depth - k) && LocalDepth(d, i) <= LocalDepth(d, x) <= d.depth
    ensures forall y: nat :: y < |d.table| && Shr(y, d.depth - k) == Shr(i, d.depth - k) ==>
      LocalDepth(d, y) <= LocalDepth(d, x)
    decreases d.depth - (if LocalDepth(d, i) <= d.depth then LocalDepth(d, i) else d.depth)
  {
    hide Shr, Grouped;
    GroupedFact(d, i, i);
    if y: nat :| y < |d.table| && Shr(y, d.depth - k) == Shr(i, d.depth - k) && LocalDepth(d, y) > LocalDepth(d, i) {
      GroupedFact(d, y, y);
      x := Deepest(d, y, k);
    } else {
      x := i;
    }
  }

  /** The buddy of a deepest slot is equally deep. */
  lemma DeepestBuddy(d: Hashed, x: nat, k: nat)
    requires Numbering(d) && Grouped(d) && x < |d.table| && k < LocalDepth(d, x) <= d.depth
    requires forall y: nat :: y < |d.table| && Shr(y, d.depth - k) == Shr(x, d.depth - k) ==>
      LocalDepth(d, y) <= LocalDepth(d, x)
    ensures var j := BuddySlot(d, x);
      LocalDepth(d, j) == LocalDepth(d, x) && Shr(j, d.depth - k) == Shr(x, d.depth - k)
  {
    hide Shr, Grouped, FlipBit;
    var j, b := BuddySlot(d, x), d.depth - LocalDepth(d, x);
    FlipFacts(x, b);
    ShrMono(j, x, b + 1, d.depth - k);
    GroupedFact(d, j, x);
    if LocalDepth(d, j) < LocalDepth(d, x) {
      ShrMono(j, x, b + 1, d.depth - LocalDepth(d, j));
    }
  }

  /** No shorter prefix of a bucket's slots would have fitted one block. */
  lemma ShorterPrefixOverflows(hash: Name -> Hash64, d: Hashed, view: View, i: nat, k: nat)
    requires Inv(hash, d) && Shows(hash, d, view) && Coarse(d) && i < |d.table| && k < LocalDepth(d, i) <= d.depth
    ensures !PrefixFits(hash, view, k, Shr(i, d.depth - k))
  {
    hide Shr, Index, Grouped, FlipBit, Placed, Shows;
    var x := Deepest(d, i, k);
    DeepestBuddy(d, x, k);
    var j := BuddySlot(d, x);
    var a, b := d.buckets[d.table[x]].entries, d.buckets[d.table[j]].entries;
    assert !Mergeable(d, x);
    BuddyGroups(d, x, x);
    SlotNamesSharePrefix(hash, d, view, x, k);
    SlotNamesSharePrefix(hash, d, view, j, k);
    SlotsDisjoint(hash, d, x, j);
    assert Live(d, d.table[x]) && Live(d, d.table[j]);
    UsedIsSum(a);
    UsedIsSum(b);
    SumUnion(NamesOf(a), NamesOf(b));
    SumMono(NamesOf(a) + NamesOf(b), PrefixNames(hash, view, k, Shr(i, d.depth - k)));
  }

  lemma SlotNamesSharePrefix(hash: Name -> Hash64, d: Hashed, view: View, x: nat, k: nat)
    requires Inv(hash, d) && Shows(hash, d, view) && x < |d.table| && k <= LocalDepth(d, x) <= d.depth
    ensures NamesOf(d.buckets[d.table[x]].entries) <= PrefixNames(hash, view, k, Shr(x, d.depth - k))
  {
    hide Shr, Index, Grouped, Inv, Shows;
    InvShape(hash, d);
    var ld := LocalDepth(d, x);
    BucketNames(hash, d, view, x);
    forall n | n in NamesOf(d.buckets[d.table[x]].entries)
      ensures n in PrefixNames(hash, view, k, Shr(x, d.depth - k))
    {
      IndexPrefix(hash(n), ld, k);
      ShrAdd(x, d.depth - ld, ld - k);
    }
  }

  lemma SlotsDisjoint(hash: Name -> Hash64, d: Hashed, x: nat, j: nat)
    requires Numbering(d) && Placed(hash, d) && x < |d.table| && j < |d.table| && d.table[x] != d.table[j]
    ensures NamesOf(d.buckets[d.table[x]].entries) !! NamesOf(d.buckets[d.table[j]].entries)
  {
    hide Index;
    var a, b := d.buckets[d.table[x]].entries, d.buckets[d.table[j]].entries;
    forall p, q | 0 <= p < |a| && 0 <= q < |b| ensures a[p].name != b[q].name {
      assert PlacedAt(hash, d, d.table[x], a[p]) && PlacedAt(hash, d, d.table[j], b[q]);
    }
  }

  /** Each bucket has the least depth at which the names with its prefix fit one block. */
  lemma LeastDepth(hash: Name -> Hash64, d: Hashed, view: View, h: Hash64)
    requires Inv(hash, d) && Shows(hash, d, view) && Coarse(d)
    ensures var ld := LocalDepth(d, Index(h, d.depth));
      && ld <= d.depth
      && PrefixFits(hash, view, ld, Index(h, ld))
      && forall k: nat :: k < ld ==> !PrefixFits(hash, view, k, Index(h, k))
  {
    hide Shr, Index, Grouped, Coarse, PrefixFits;
    var i := Index(h, d.depth);
    var ld := LocalDepth(d, i);
    BucketNames(hash, d, view, i);
    IndexPrefix(h, d.depth, ld);
    BucketPrefixFits(hash, d, view, i);
    forall k: nat | k < ld ensures !PrefixFits(hash, view, k, Index(h, k)) {
      ShorterPrefixOverflows(hash, d, view, i, k);
      IndexPrefix(h, d.depth, k);
    }
  }

  lemma BucketPrefixFits(hash: Name -> Hash64, d: Hashed, view: View, i: nat)
    requires Inv(hash, d) && Shows(hash, d, view) && i < |d.table| && LocalDepth(d, i) <= d.depth
    ensures PrefixFits(hash, view, LocalDepth(d, i), Shr(i, d.depth - LocalDepth(d, i)))
  {
    hide Shr, Index, Grouped, Placed, Shows;
    BucketNames(hash, d, view, i);
    assert Live(d, d.table[i]);
    UsedIsSum(d.buckets[d.table[i]].entries);
  }

  /** Two directories showing the same entries have the same depth and the same local depth at every hash. */
  lemma ShapeIgnoresHistory(hash: Name -> Hash64, d1: Hashed, d2: Hashed, view: View)
    requires Inv(hash, d1) && Shows(hash, d1, view) && Coarse(d1) && Tight(d1)
    requires Inv(hash, d2) && Shows(hash, d2, view) && Coarse(d2) && Tight(d2)
    ensures d1.depth == d2.depth
    ensures forall h: Hash64 ::
      && LocalDepth(d1, Index(h, d1.depth)) == LocalDepth(d2, Index(h, d2.depth))
      && NamesOf(d1.buckets[d1.table[Index(h, d1.depth)]].entries)
         == NamesOf(d2.buckets[d2.table[Index(h, d2.depth)]].entries)
  {
    hide Shr, Index, Grouped, Coarse, PrefixFits, Inv, Shows, Tight;
    InvShape(hash, d1);
    InvShape(hash, d2);
    forall h: Hash64
      ensures LocalDepth(d1, Index(h, d1.depth)) == LocalDepth(d2, Index(h, d2.depth))
      ensures NamesOf(d1.buckets[d1.table[Index(h, d1.depth)]].entries)
         == NamesOf(d2.buckets[d2.table[Index(h, d2.depth)]].entries)
    {
      LeastDepth(hash, d1, view, h);
      LeastDepth(hash, d2, view, h);
      var ld := LocalDepth(d1, Index(h, d1.depth));
      assert ld == LocalDepth(d2, Index(h, d2.depth));
      BucketNames(hash, d1, view, Index(h, d1.depth));
      BucketNames(hash, d2, view, Index(h, d2.depth));
      IndexPrefix(h, d1.depth, ld);
      IndexPrefix(h, d2.depth, ld);
    }
    DepthAttained(hash, d1, d2);
    DepthAttained(hash, d2, d1);
  }

  lemma InvShape(hash: Name -> Hash64, d: Hashed)
    requires Inv(hash, d)
    ensures Numbering(d) && Grouped(d) && |d.table| == Pow2(d.depth) && d.depth <= MAX_DEPTH
    ensures forall i :: 0 <= i < |d.table| ==> d.table[i] in d.buckets
  {
  }

  lemma DepthAttained(hash: Name -> Hash64, d1: Hashed, d2: Hashed)
    requires Numbering(d1) && Grouped(d1) && Tight(d1) && Numbering(d2) && Grouped(d2)
    requires forall h: Hash64 :: LocalDepth(d1, Index(h, d1.depth)) == LocalDepth(d2, Index(h, d2.depth))
    ensures d1.depth <= d2.depth
  {
    hide Grouped, Shr, Distinct, Pow2;
    if d1.depth > 0 {
      var i: nat :| i < |d1.table| && LocalDepth(d1, i) == d1.depth;
      var x := ShrOnto(i, 64 - d1.depth, d1.depth);
      var h: Hash64 := x;
      assert Index(h, d1.depth) == i;
      GroupedFact(d2, Index(h, d2.depth), Index(h, d2.depth));
    }
  }

  // --- names that cannot be added -----------------------------------------------------------

  /** The names sharing all MAX_DEPTH bits with a new name leave no room for it in one block. */
  ghost predicate Crowded(hash: Name -> Hash64, view: View, name: Name) {
    BUCKET_HDR + SumSizes(PrefixNames(hash, view, MAX_DEPTH, Index(hash(name), MAX_DEPTH))) + EntrySize(name) > BLOCK
  }

  /** A bucket of maximal depth that has no room for a name is crowded. */
  lemma FullBucketIsCrowded(hash: Name -> Hash64, d: Hashed, view: View, name: Name)
    requires Inv(hash, d) && Shows(hash, d, view)
    requires d.depth == MAX_DEPTH && d.buckets[Home(hash, d, name)].ld == MAX_DEPTH
    requires !BucketFits(d.buckets[Home(hash, d, name)].entries, EntrySize(name))
    ensures Crowded(hash, view, name)
  {
    hide Index, Grouped, EntrySize;
    var i := Index(hash(name), d.depth);
    BucketNames(hash, d, view, i);
    assert Shr(i, 0) == i;
    assert Live(d, d.table[i]);
    UsedIsSum(d.buckets[d.table[i]].entries);
  }

  /** A name that was added was not crowded out. */
  lemma AddedWasNotCrowded(hash: Name -> Hash64, d: Hashed, view: View, name: Name, target: Ref)
    requires name !in view && Inv(hash, d) && Shows(hash, d, view[name := target])
    ensures !Crowded(hash, view, name)
  {
    hide Index, Grouped, EntrySize, Shr, BucketsOk, Placed, Shows;
    InvShape(hash, d);
    var v, i := view[name := target], Index(hash(name), d.depth);
    var ld, q := LocalDepth(d, i), Index(hash(name), MAX_DEPTH);
    BucketNames(hash, d, v, i);
    BucketPrefixFits(hash, d, v, i);
    IndexPrefix(hash(name), d.depth, ld);
    var before := PrefixNames(hash, view, MAX_DEPTH, q);
    WiderPrefix(hash, view, name, target, ld);
    SumMono(before + {name}, PrefixNames(hash, v, ld, Index(hash(name), ld)));
    SumRemove(before + {name}, name);
    assert before + {name} - {name} == before;
  }

  lemma WiderPrefix(hash: Name -> Hash64, view: View, name: Name, target: Ref, ld: nat)
    requires ld <= MAX_DEPTH
    ensures PrefixNames(hash, view, MAX_DEPTH, Index(hash(name), MAX_DEPTH)) + {name}
            <= PrefixNames(hash, view[name := target], ld, Index(hash(name), ld))
  {
    hide Index, Shr;
    forall n | n in PrefixNames(hash, view, MAX_DEPTH, Index(hash(name), MAX_DEPTH))
      ensures Index(hash(n), ld) == Index(hash(name), ld)
    {
      IndexPrefix(hash(n), MAX_DEPTH, ld);
      IndexPrefix(hash(name), MAX_DEPTH, ld);
    }
  }

  // --- what each step does to the shape ---------------------------------------------------------

  /** The only buddies that could merge involve the target bucket, and not once extra bytes are added to it. */
  ghost predicate CoarseBut(d: Hashed, target: nat, extra: nat)
    requires Numbering(d) && Grouped(d)
  {
    forall i: nat :: i < |d.table| && Mergeable(d, i) ==> OnlyTarget(d, i, target, extra)
  }

  ghost predicate OnlyTarget(d: Hashed, i: nat, target: nat, extra: nat)
    requires Numbering(d) && Grouped(d) && i < |d.table| && Mergeable(d, i)
  {
    var j := BuddySlot(d, i);
    && (d.table[i] == target || d.table[j] == target)
    && !BucketFits(d.buckets[d.table[i]].entries, Used(d.buckets[d.table[j]].entries) + extra)
  }

  lemma CoarseButFact(d: Hashed, i: nat, target: nat, extra: nat)
    requires Numbering(d) && Grouped(d) && CoarseBut(d, target, extra) && i < |d.table| && Mergeable(d, i)
    ensures OnlyTarget(d, i, target, extra)
  {
  }

  lemma DoubledMergeable(d: Hashed, i: nat)
    requires Numbering(d) && Grouped(d) && d.depth < MAX_DEPTH && i < 2 * |d.table|
    requires Numbering(Doubled(d)) && Grouped(Doubled(d)) && Mergeable(Doubled(d), i)
    ensures Mergeable(d, i / 2) && BuddySlot(d, i / 2) == BuddySlot(Doubled(d), i) / 2
  {
    hide Grouped;
    GroupedFact(d, i / 2, i / 2);
    var k := d.depth + 1 - LocalDepth(d, i / 2);
    assert FlipBit(i, k) / 2 == FlipBit(i / 2, k - 1);
  }

  lemma DoubledCoarseBut(d: Hashed, target: nat, extra: nat)
    requires Numbering(d) && Grouped(d) && d.depth < MAX_DEPTH && CoarseBut(d, target, extra)
    ensures Numbering(Doubled(d)) && Grouped(Doubled(d)) && CoarseBut(Doubled(d), target, extra)
  {
    hide Used, FlipBit;
    DoubledGrouped(d);
    forall i: nat | i < |Doubled(d).table| && Mergeable(Doubled(d), i)
      ensures OnlyTarget(Doubled(d), i, target, extra)
    {
      DoubledMergeable(d, i);
      assert OnlyTarget(d, i / 2, target, extra);
    }
  }

  /** After a split, a mergeable pair is the pair of halves or was mergeable before. */
  lemma SplitMergeable(d: Hashed, bno: nat, i: nat)
    requires Numbering(d) && Grouped(d) && Live(d, bno) && d.buckets[bno].ld < d.depth && i < |d.table|
    requires Numbering(SplitAt(d, bno)) && Grouped(SplitAt(d, bno)) && Mergeable(SplitAt(d, bno), i)
    ensures var r := SplitAt(d, bno);
      var j := BuddySlot(r, i);
      if d.table[i] == bno then {r.table[i], r.table[j]} == {bno, NewBucket(d)}
      else d.table[j] != bno && Mergeable(d, i) && BuddySlot(d, i) == j
  {
    hide Grouped, Shr, FlipBit, Half, Used, Distinct;
    var r := SplitAt(d, bno);
    var ld := d.buckets[bno].ld;
    NewBucketIsFree(d);
    GroupedFact(d, i, i);
    var j := BuddySlot(r, i);
    BuddyGroups(r, i, j);
    assert Live(d, d.table[i]) && Live(d, d.table[j]);
    var k := d.depth - LocalDepth(r, i);
    FlipFacts(i, k);
    GroupedFact(d, i, j);
    GroupedFact(d, j, i);
  }

  /** Splitting a bucket that has no room keeps the shape, whichever half becomes the target. */
  lemma SplitCoarseBut(d: Hashed, bno: nat, target: nat, extra: nat)
    requires Numbering(d) && Grouped(d) && Live(d, bno) && d.buckets[bno].ld < d.depth
    requires CoarseBut(d, bno, extra) && !BucketFits(d.buckets[bno].entries, extra)
    requires target == bno || target == NewBucket(d)
    ensures Numbering(SplitAt(d, bno)) && Grouped(SplitAt(d, bno)) && CoarseBut(SplitAt(d, bno), target, extra)
  {
    hide Used, FlipBit, Half, Grouped;
    SplitGrouped(d, bno);
    var r := SplitAt(d, bno);
    HalvesUsed(d.buckets[bno].entries, d.buckets[bno].ld);
    NewBucketIsFree(d);
    forall i: nat | i < |r.table| && Mergeable(r, i) ensures OnlyTarget(r, i, target, extra) {
      SplitMergeable(d, bno, i);
      if d.table[i] == bno {
        var j := BuddySlot(r, i);
        assert r.table[i] in {bno, NewBucket(d)} && r.table[j] in {bno, NewBucket(d)};
        BuddyGroups(r, i, i);
      } else {
        CoarseButFact(d, i, bno, extra);
      }
    }
  }

  lemma SplitTight(d: Hashed, bno: nat)
    requires Numbering(d) && Grouped(d) && Live(d, bno) && d.buckets[bno].ld < d.depth
    requires Tight(d) || d.buckets[bno].ld + 1 == d.depth
    ensures Numbering(SplitAt(d, bno)) && Grouped(SplitAt(d, bno)) && Tight(SplitAt(d, bno))
  {
    hide FlipBit, Half, Grouped, Shr;
    SplitGrouped(d, bno);
    var r := SplitAt(d, bno);
    NewBucketIsFree(d);
    if d.buckets[bno].ld + 1 == d.depth {
      SplitLive(d, bno);
      assert bno in r.table;
      var i: nat :| i < |r.table| && r.table[i] == bno;
      assert LocalDepth(r, i) == r.depth;
    } else {
      var i: nat :| i < |d.table| && LocalDepth(d, i) == d.depth;
      assert LocalDepth(r, i) == r.depth;
    }
  }

  /** Once the target has taken the extra bytes, no buddies can merge. */
  lemma FilledCoarse(d: Hashed, b: nat, e: HEntry)
    requires Numbering(d) && Grouped(d) && Live(d, b) && CoarseBut(d, b, EntrySize(e.name))
    ensures var r := WithEntries(d, b, d.buckets[b].entries + [e]);
      Numbering(r) && Grouped(r) && Coarse(r)
  {
    hide FlipBit, Grouped, EntrySize, Used, Pow2, CoarseBut;
    var es := d.buckets[b].entries;
    var r := WithEntries(d, b, es + [e]);
    WithEntriesShape(d, b, es + [e]);
    forall i: nat | i < |r.table| ensures !Mergeable(r, i) {
      if Mergeable(r, i) {
        FilledMergeable(d, b, e, i);
        CoarseButFact(d, i, b, EntrySize(e.name));
      }
    }
  }

  lemma FilledMergeable(d: Hashed, b: nat, e: HEntry, i: nat)
    requires Numbering(d) && Grouped(d) && Live(d, b) && i < |d.table|
    requires var r := WithEntries(d, b, d.buckets[b].entries + [e]); Numbering(r) && Grouped(r) && Mergeable(r, i)
    ensures Mergeable(d, i) && !OnlyTarget(d, i, b, EntrySize(e.name))
  {
    hide FlipBit, Grouped, EntrySize, Used, Pow2;
    BuddyGroups(WithEntries(d, b, d.buckets[b].entries + [e]), i, i);
    UsedAppend(d.buckets[b].entries, [e]);
    UsedOne(e);
  }

  lemma WithEntriesTight(d: Hashed, b: nat, es: seq<HEntry>)
    requires Numbering(d) && Grouped(d) && Live(d, b) && Tight(d)
    ensures Numbering(WithEntries(d, b, es)) && Grouped(WithEntries(d, b, es)) && Tight(WithEntries(d, b, es))
  {
    hide Grouped;
    WithEntriesShape(d, b, es);
    if d.depth > 0 {
      var i: nat :| i < |d.table| && LocalDepth(d, i) == d.depth;
      assert LocalDepth(WithEntries(d, b, es), i) == d.depth;
    }
  }

  lemma ShrPair(p: nat, k: nat)
    requires k > 0
    ensures Shr(2 * p, k) == Shr(2 * p + 1, k)
  {
  }

  lemma NotHalvableIsTight(d: Hashed)
    requires Numbering(d) && Grouped(d) && !Halvable(d)
    ensures Tight(d)
  {
    hide Grouped, Shr, Numbering, Pow2;
    if d.depth > 0 {
      EvenTable(d);
      var p: nat :| p < |d.table| / 2 && d.table[2 * p] != d.table[2 * p + 1];
      SplitPair(d, p);
    }
  }

  lemma EvenTable(d: Hashed)
    requires Numbering(d) && d.depth > 0
    ensures |d.table| % 2 == 0
  {
    assert Pow2(d.depth) == 2 * Pow2(d.depth - 1);
  }

  /** Adjacent slots of different buckets belong to buckets of full depth. */
  lemma SplitPair(d: Hashed, p: nat)
    requires Numbering(d) && Grouped(d) && 2 * p + 1 < |d.table| && d.table[2 * p] != d.table[2 * p + 1]
    ensures d.table[2 * p] in d.buckets && LocalDepth(d, 2 * p) == d.depth
  {
    hide Grouped, Shr, Pow2;
    GroupedFact(d, 2 * p, 2 * p + 1);
    var k := d.depth - LocalDepth(d, 2 * p);
    if k > 0 {
      ShrPair(p, k);
    }
  }

  /** The freelist is no longer than the numbers it can hold. */
  lemma FreelistBound(s: seq<nat>, n: nat)
    requires Distinct(s) && forall k :: 0 <= k < |s| ==> s[k] < n
    ensures |s| <= n
  {
    DistinctCount(s);
    SetOfBelow(set k | 0 <= k < |s| :: s[k], n);
  }

  lemma {:induction false} DistinctCount(s: seq<nat>)
    requires Distinct(s)
    ensures |set k | 0 <= k < |s| :: s[k]| == |s|
  {
    if s != [] {
      var init, last := s[..|s| - 1], s[|s| - 1];
      DistinctCount(init);
      var a, b := set k | 0 <= k < |init| :: init[k], set k | 0 <= k < |s| :: s[k];
      assert b == a + {last} by {
        assert s == init + [last];
        assert forall k :: 0 <= k < |init| ==> init[k] == s[k];
      }
    }
  }

  lemma {:induction false} SetOfBelow(a: set<nat>, n: nat)
    requires forall x :: x in a ==> x < n
    ensures |a| <= n
  {
    if n > 0 {
      SetOfBelow(a - {n - 1}, n - 1);
    } else {
      assert a == {};
    }
  }
}
