/**
A run of insertions and removals that ends with a removal failing: the table is at its largest while
nearly all buckets have been given back, and what one more removal gives back no longer fits the header.
*/
module DirOverflow {
  import opened Wrappers
  import opened Intervals
  import opened BitShift
  import opened HashedDir
  import opened DirShape
  import opened DirSpace
  import opened Directory
  import opened DirLayout

  // --- when there is room ------------------------------------------------------------------------

  /** A bucket at the largest depth that cannot merge keeps ten buckets live, so merging never runs out of room. */
  lemma {:induction false} MergingFits(hash: Name -> Hash64, d0: Hashed, d: Hashed, view: View, name: Name, h: Hash64)
    requires Numbering(d0) && MergeState(hash, d0, d, view, name) && !PrefixFits(hash, view, MAX_DEPTH - 1, Index(h, MAX_DEPTH - 1))
    ensures RemovalFits(hash, d0, view, name)
    decreases DepthOf(hash, d, name)
  {
    hide Index, Grouped, Placed, Shows, Pow2, BucketsOk, MergesAt, MergeDepth, Numbering, PrefixFits, MergedAt, RemovalFits, Used, FlipBit;
    InvShape(hash, d);
    if Coarse(d) {
      MergesDone(hash, d0, d, view, name);
    } else {
      var i: nat :| i < |d.table| && Mergeable(d, i);
      CrowdedIsDeep(hash, d, view, h);
      RoomForOne(d, Index(h, d.depth));
      MergeStep(hash, d0, d, view, name, i);
      MergedSizes(d, i);
      MergingFits(hash, d0, MergedAt(d, i), view, name, h);
    }
  }

  lemma CrowdedIsDeep(hash: Name -> Hash64, d: Hashed, view: View, h: Hash64)
    requires Inv(hash, d) && Shows(hash, d, view) && !PrefixFits(hash, view, MAX_DEPTH - 1, Index(h, MAX_DEPTH - 1))
    ensures d.depth == MAX_DEPTH && LocalDepth(d, Index(h, d.depth)) == MAX_DEPTH
  {
    hide Grouped, Placed, Shows, Shr, PrefixFits, Index;
    var i := Index(h, d.depth);
    GroupedFact(d, i, i);
    var ld := LocalDepth(d, i);
    BucketPrefixFits(hash, d, view, i);
    IndexPrefix(h, d.depth, ld);
    if ld < MAX_DEPTH {
      LongerPrefixFits(hash, view, h, ld, MAX_DEPTH - 1);
    }
  }

  lemma LongerPrefixFits(hash: Name -> Hash64, view: View, h: Hash64, j: nat, k: nat)
    requires j <= k <= 64 && PrefixFits(hash, view, j, Index(h, j))
    ensures PrefixFits(hash, view, k, Index(h, k))
  {
    hide Index;
    forall n | n in PrefixNames(hash, view, k, Index(h, k)) ensures n in PrefixNames(hash, view, j, Index(h, j)) {
      IndexPrefix(h, k, j);
      IndexPrefix(hash(n), k, j);
    }
    SumMono(PrefixNames(hash, view, k, Index(h, k)), PrefixNames(hash, view, j, Index(h, j)));
  }

  lemma RoomForOne(d: Hashed, i: nat)
    requires Numbering(d) && Grouped(d) && Roomy(d) && i < |d.table| && LocalDepth(d, i) == d.depth == MAX_DEPTH
    ensures HeaderHolds(|d.table|, |d.freelist| + 1)
  {
    hide Pow2, Grouped, Branch;
    TableSizes(d.depth);
    LiveCount(d);
    BranchesCount(d, i, d.depth);
    Fewer(Branches(d, i, d.depth), LiveSet(d));
  }

  /** Taking a name out fails only if afterwards all names with the same 8 leading hash bits fit one block, for any such bits. */
  lemma RemovalFitsWhileCrowded(hash: Name -> Hash64, d: Hashed, view: View, name: Name, h: Hash64)
    requires Inv(hash, d) && Shows(hash, d, view) && Coarse(d) && Roomy(d) && name in view
    requires !PrefixFits(hash, view - {name}, MAX_DEPTH - 1, Index(h, MAX_DEPTH - 1))
    ensures RemovalFits(hash, d, view - {name}, name)
  {
    hide Index, Grouped, Used, Removed, Placed, MergesAt, RemovalFits, Roomy, Pow2, Distinct, Coarse, PrefixFits;
    var b := Home(hash, d, name);
    assert HasName(d.buckets[b].entries, name);
    var k :| 0 <= k < |d.buckets[b].entries| && d.buckets[b].entries[k].name == name;
    var left := Removed(d.buckets[b].entries, k);
    assert Live(d, b);
    RemoveEntry(hash, d, b, k, view);
    RemovedMergesAt(d, b, left);
    SameShapeFits(hash, d, b, left, view - {name}, name);
    var r := WithEntries(d, b, left);
    MergeStart(hash, r, view - {name}, name);
    MergingFits(hash, r, r, view - {name}, name, h);
  }

  // --- names with given hashes -------------------------------------------------------------------

  const WORD := 11
  const LENGTH := 255

  function Shl(x: nat, k: nat): nat {
    if k == 0 then x else 2 * Shl(x, k - 1)
  }

  lemma {:induction false} ShlFacts(x: nat, k: nat, a: nat)
    requires x < Pow2(a)
    ensures Shr(Shl(x, k), k) == x && Shl(x, k) < Pow2(a + k)
  {
    if k > 0 {
      ShlFacts(x, k - 1, a);
    }
  }

  /** The first k units as a number in binary. */
  function Bits(n: Name, k: nat): (b: nat)
    requires k <= |n|
    ensures b < Pow2(k)
  {
    if k == 0 then 0 else 2 * Bits(n, k - 1) + if n[k - 1] == 1 then 1 else 0
  }

  /** A hash function that starts with the first units of the name. */
  function WordHash(n: Name): Hash64 {
    if |n| < WORD then 0 else
    ShlFacts(Bits(n, WORD), 64 - WORD, WORD);
    Shl(Bits(n, WORD), 64 - WORD)
  }

  /** The name of 255 units that starts with w in binary. */
  function Long(w: nat): (n: Name)
    ensures |n| == LENGTH
  {
    seq(LENGTH, i requires 0 <= i < LENGTH => if i < WORD && Shr(w, WORD - 1 - i) % 2 == 1 then 1 else 0)
  }

  lemma {:induction false} BitsOfLong(w: nat, k: nat)
    requires w < Pow2(WORD) && k <= WORD
    ensures Bits(Long(w), k) == Shr(w, WORD - k)
  {
    if k == 0 {
      ShrBound(w, WORD, 0);
    } else {
      BitsOfLong(w, k - 1);
      ShrSucc(w, WORD - k);
    }
  }

  lemma IndexOfLong(w: nat, k: nat)
    requires w < Pow2(WORD) && k <= WORD
    ensures Index(WordHash(Long(w)), k) == Shr(w, WORD - k)
  {
    hide Pow2, Shr, Shl, Bits, Long;
    BitsOfLong(w, WORD);
    assert Shr(w, 0) == w by { ShrZero(w); }
    ShlFacts(w, 64 - WORD, WORD);
    ShrAdd(Shl(w, 64 - WORD), 64 - WORD, WORD - k);
  }

  lemma ShrZero(w: nat)
    ensures Shr(w, 0) == w
  {
  }

  lemma LongDiffer(v: nat, w: nat)
    requires v < Pow2(WORD) && w < Pow2(WORD) && Long(v) == Long(w)
    ensures v == w
  {
    hide Long;
    IndexOfLong(v, WORD);
    IndexOfLong(w, WORD);
  }

  function Names(a: nat, b: nat): set<Name> {
    set w: nat | a <= w < b :: Long(w)
  }

  const SIZE := 532

  lemma {:induction false} NamesSize(a: nat, b: nat)
    requires a <= b <= Pow2(WORD)
    ensures SumSizes(Names(a, b)) == SIZE * (b - a)
  {
    hide Long, Pow2, SumSizes;
    if a == b {
      assert Names(a, b) == {};
      assert SumSizes({}) == 0 by { NoSizes(); }
    } else {
      NamesSize(a, b - 1);
      var last := Long(b - 1);
      forall w: nat | a <= w < b - 1 ensures Long(w) != last {
        if Long(w) == last {
          LongDiffer(w, b - 1);
        }
      }
      assert Names(a, b) == Names(a, b - 1) + {last};
      assert Names(a, b) - {last} == Names(a, b - 1);
      SumRemove(Names(a, b), last);
    }
  }

  lemma NoSizes()
    ensures SumSizes({}) == 0
  {
  }

  function Min(a: nat, b: nat): nat {
    if a < b then a else b
  }

  /** The names with a given prefix among the first b. */
  lemma PrefixOfNames(view: View, b: nat, k: nat, q: nat)
    requires view.Keys == Names(0, b) && b <= Pow2(WORD) && k <= WORD
    ensures PrefixNames(WordHash, view, k, q) == Names(q * Pow2(WORD - k), Min(b, (q + 1) * Pow2(WORD - k)))
  {
    hide Long, Pow2, Index, WordHash;
    var lo, hi := q * Pow2(WORD - k), (q + 1) * Pow2(WORD - k);
    forall w: nat | w < b ensures Index(WordHash(Long(w)), k) == q <==> lo <= w < hi {
      IndexOfLong(w, k);
      ShrGroup(w, WORD - k, q);
    }
    forall n ensures n in PrefixNames(WordHash, view, k, q) <==> n in Names(lo, Min(b, hi)) {
      if n in Names(0, b) {
        var w: nat :| w < b && n == Long(w);
        if n in Names(lo, Min(b, hi)) {
          assert n in PrefixNames(WordHash, view, k, q);
        }
      }
    }
  }

  // --- the directory along the run -----------------------------------------------------------------

  /** At nine bits four names share a prefix, so the next one is never crowded out. */
  lemma NeverCrowded(view: View, w: nat)
    requires view.Keys == Names(0, w) && w < Pow2(WORD)
    ensures !Crowded(WordHash, view, Long(w)) && Long(w) !in view
  {
    hide Long, Index, WordHash, SumSizes, PrefixNames, Shr;
    var q := Index(WordHash(Long(w)), MAX_DEPTH);
    assert Pow2(WORD - MAX_DEPTH) == 4;
    PrefixOfNames(view, w, MAX_DEPTH, q);
    PrefixSize(4 * q, Min(w, 4 * q + 4));
    if Long(w) in view {
      var v: nat :| v < w && Long(v) == Long(w);
      LongDiffer(v, w);
    }
  }

  /** The size of the names from lo on below hi, of which there may be none. */
  lemma PrefixSize(lo: nat, hi: nat)
    requires hi <= Pow2(WORD)
    ensures SumSizes(Names(lo, hi)) == if lo < hi then SIZE * (hi - lo) else 0
  {
    hide Long, Pow2, SumSizes;
    if lo < hi {
      NamesSize(lo, hi);
    } else {
      assert Names(lo, hi) == {};
      NoSizes();
    }
  }

  /** Names sharing at most eight bits do not fit one block as long as eight of them are there. */
  lemma EightOverflow(view: View, b: nat, k: nat, q: nat)
    requires view.Keys == Names(0, b) && b <= Pow2(WORD) && k < MAX_DEPTH && 8 * Shl(q, MAX_DEPTH - 1 - k) + 8 <= b
    ensures !PrefixFits(WordHash, view, k, q)
  {
    hide Long, WordHash, SumSizes, PrefixNames;
    var lo, hi := q * Pow2(WORD - k), (q + 1) * Pow2(WORD - k);
    PrefixOfNames(view, b, k, q);
    FirstOfPrefix(q, k);
    PrefixSize(lo, Min(b, hi));
  }

  lemma FirstOfPrefix(q: nat, k: nat)
    requires k < MAX_DEPTH
    ensures q * Pow2(WORD - k) == 8 * Shl(q, MAX_DEPTH - 1 - k) && (q + 1) * Pow2(WORD - k) >= q * Pow2(WORD - k) + 8
  {
    ShlIs(q, MAX_DEPTH - 1 - k);
    Pow2Mono(3, WORD - k);
    assert Pow2(WORD - k) == 8 * Pow2(MAX_DEPTH - 1 - k) by { EightTimes(MAX_DEPTH - 1 - k); }
    var p := Pow2(MAX_DEPTH - 1 - k);
    assert q * (8 * p) == 8 * (q * p);
    assert (q + 1) * (8 * p) == q * (8 * p) + 8 * p;
  }

  lemma EightTimes(k: nat)
    ensures Pow2(k + 3) == 8 * Pow2(k)
  {
    assert Pow2(k + 3) == 2 * Pow2(k + 2) == 4 * Pow2(k + 1);
  }

  lemma {:induction false} ShlIs(x: nat, k: nat)
    ensures Shl(x, k) == x * Pow2(k)
  {
    if k > 0 {
      ShlIs(x, k - 1);
      Regroup(x, Pow2(k - 1));
    }
  }

  /** With all the names in, every bucket is at the largest depth and every number is in use. */
  lemma AllDeep(d: Hashed, view: View)
    requires Inv(WordHash, d) && Shows(WordHash, d, view) && Roomy(d) && view.Keys == Names(0, Pow2(WORD))
    ensures d.nbuckets == 512
  {
    hide Long, Index, WordHash, Grouped, Placed, Shows, PrefixFits, Shr, Branch;
    TableSizes(MAX_DEPTH);
    forall i: nat | i < |d.table| ensures d.depth == MAX_DEPTH && LocalDepth(d, i) == MAX_DEPTH {
      var h := HashAt(i, d.depth);
      assert Index(h, MAX_DEPTH - 1) < 256;
      EightOverflow(view, Pow2(WORD), MAX_DEPTH - 1, Index(h, MAX_DEPTH - 1));
      CrowdedIsDeep(WordHash, d, view, h);
    }
    assert LocalDepth(d, 0) == MAX_DEPTH;
    forall i: nat, j: nat | i < j < |d.table| ensures d.table[i] != d.table[j] {
      GroupedFact(d, i, j);
      ShrZero(i);
      ShrZero(j);
    }
    DistinctCount(d.table);
    var inTable := set k | 0 <= k < |d.table| :: d.table[k];
    forall b | b in inTable ensures b in LiveSet(d) {
      assert Live(d, b);
    }
    Fewer(inTable, LiveSet(d));
    LiveCount(d);
  }

  /** Some hash selects each slot. */
  lemma HashAt(i: nat, depth: nat) returns (h: Hash64)
    requires depth <= 64 && i < Pow2(depth)
    ensures Index(h, depth) == i
  {
    hide Pow2;
    h := ShrOnto(i, 64 - depth, depth);
  }

  /** Down to the last eight names, taking one out does not fail. */
  lemma RoomWhileEight(d: Hashed, view: View, b: nat)
    requires Inv(WordHash, d) && Shows(WordHash, d, view) && Coarse(d) && Roomy(d)
    requires 8 <= b < Pow2(WORD) && view.Keys == Names(0, b + 1)
    ensures (view - {Long(b)}).Keys == Names(0, b) && RemovalFits(WordHash, d, view - {Long(b)}, Long(b))
  {
    hide Long, Index, WordHash, Inv, Numbering, Grouped, Coarse, Shows, Roomy, PrefixFits, RemovalFits, Pow2;
    LastOut(view, b);
    IndexOfLong(0, MAX_DEPTH - 1) by { PowerOfWord(); }
    assert Shr(0, 3) == 0;
    EightOverflow(view - {Long(b)}, b, MAX_DEPTH - 1, 0);
    RemovalFitsWhileCrowded(WordHash, d, view, Long(b), WordHash(Long(0)));
  }

  lemma PowerOfWord()
    ensures Pow2(WORD) == 2048
  {
    assert Pow2(5) == 32;
    assert Pow2(8) == 256;
  }

  lemma LastOut(view: View, b: nat)
    requires view.Keys == Names(0, b + 1) && b < Pow2(WORD)
    ensures (view - {Long(b)}).Keys == Names(0, b) && Long(b) in view
  {
    hide Long, Pow2;
    forall v: nat | v < b ensures Long(v) != Long(b) {
      if Long(v) == Long(b) {
        LongDiffer(v, b);
      }
    }
    assert Long(b) in Names(0, b + 1);
    assert Names(0, b + 1) == Names(0, b) + {Long(b)};
  }

  // --- the last eight names ----------------------------------------------------------------------

  /** The position of the highest set bit. */
  function TopBit(x: nat): (p: nat)
    requires x >= 1
    ensures Shr(x, p) == 1
  {
    if x == 1 then 0 else TopBit(x / 2) + 1
  }

  lemma {:induction false} TopBitBound(x: nat, k: nat)
    requires 1 <= x < Pow2(k)
    ensures TopBit(x) < k && Pow2(TopBit(x)) <= x
  {
    if x > 1 {
      TopBitBound(x / 2, k - 1);
    }
  }

  /** The slot a bucket starts at: the first, or a power of two. */
  function FirstSlot(k: nat): nat {
    if k == 0 then 0 else Pow2(k - 1)
  }

  /** With eight names at the lowest hashes, slots with the same highest bit share one empty bucket. */
  lemma SameTopBit(d: Hashed, view: View, x: nat)
    requires Inv(WordHash, d) && Shows(WordHash, d, view) && Coarse(d) && d.depth == MAX_DEPTH
    requires view.Keys == Names(0, 8) && 1 <= x < |d.table|
    ensures TopBit(x) < MAX_DEPTH && Pow2(TopBit(x)) < |d.table| && d.table[x] == d.table[Pow2(TopBit(x))]
  {
    hide Long, Index, WordHash, Grouped, Placed, Shows, Coarse, PrefixFits, Shr, TopBit, Pow2, BucketsOk;
    TopBitBound(x, MAX_DEPTH);
    var p, top := TopBit(x), Pow2(TopBit(x));
    ShrGroup(top, p, 1);
    if p >= 1 {
      var h := HashAt(x, MAX_DEPTH);
      var ld := LocalDepth(d, x);
      LeastDepth(WordHash, d, view, h);
      IndexPrefix(h, MAX_DEPTH, MAX_DEPTH - p);
      OneFits(view, MAX_DEPTH - p);
      ShrMono(x, top, p, MAX_DEPTH - ld);
      GroupedFact(d, x, top);
    } else {
      ShrZero(x);
      assert x == top by { assert Pow2(0) == 1 by { PowerZero(); } }
    }
  }

  lemma PowerZero()
    ensures Pow2(0) == 1
  {
  }

  /** No name has a prefix of eight bits or fewer that is 1. */
  lemma OneFits(view: View, k: nat)
    requires view.Keys == Names(0, 8) && k < MAX_DEPTH
    ensures PrefixFits(WordHash, view, k, 1)
  {
    hide Long, WordHash, SumSizes, PrefixNames, Pow2;
    PowerOfWord();
    PrefixOfNames(view, 8, k, 1);
    FirstOfPrefix(0, k);
    PrefixSize(1 * Pow2(WORD - k), Min(8, 2 * Pow2(WORD - k)));
  }

  lemma FewLive(d: Hashed, view: View)
    requires Inv(WordHash, d) && Shows(WordHash, d, view) && Coarse(d) && d.depth == MAX_DEPTH && view.Keys == Names(0, 8)
    ensures |LiveSet(d)| <= 10
  {
    hide Long, Index, WordHash, Grouped, Placed, Shows, Coarse, Shr, TopBit, Pow2, BucketsOk;
    forall k: nat | k < 10 ensures FirstSlot(k) < |d.table| {
      if k > 0 {
        SlotInTable(k - 1);
      }
    }
    var firsts: seq<nat> := seq(10, k requires 0 <= k < 10 => d.table[FirstSlot(k)]);
    var all := set k | 0 <= k < |firsts| :: firsts[k];
    forall b | b in LiveSet(d) ensures b in all {
      assert Live(d, b) && b in d.table;
      var x: nat :| x < |d.table| && d.table[x] == b;
      if x == 0 {
        assert firsts[0] == b;
      } else {
        SameTopBit(d, view, x);
        assert firsts[TopBit(x) + 1] == b;
      }
    }
    ValuesCount(firsts);
    Fewer(LiveSet(d), all);
  }

  lemma SlotInTable(k: nat)
    requires k < MAX_DEPTH
    ensures Pow2(k) < Pow2(MAX_DEPTH)
  {
    Pow2Mono(k, MAX_DEPTH - 1);
  }

  /** Once the first name is gone, the other seven fit one block whatever prefix they share. */
  lemma {:induction false} SevenMergeAll(view: View, h: Hash64, k: nat)
    requires view.Keys <= Names(1, 8) && k <= 64
    ensures MergeDepth(WordHash, view, h, k) == 0
  {
    hide Long, WordHash, SumSizes, Index;
    if k > 0 {
      var names := PrefixNames(WordHash, view, k - 1, Index(h, k - 1));
      assert names <= Names(1, 8);
      SumMono(names, Names(1, 8));
      PowerOfWord();
      PrefixSize(1, 8);
      SevenMergeAll(view, h, k - 1);
    }
  }

  /** Taking out the first of the eight lets nine merges run before the table is halved, and the header is full before that. */
  lemma NoRoomForNine(d: Hashed, view: View)
    requires Inv(WordHash, d) && Shows(WordHash, d, view) && Coarse(d) && view.Keys == Names(0, 8) && d.nbuckets == 512
    ensures Long(0) in view && !RemovalFits(WordHash, d, view - {Long(0)}, Long(0))
  {
    hide Long, Index, WordHash, Grouped, Placed, Shows, Coarse, Shr, Pow2, BucketsOk, MergeDepth, PrefixFits;
    PowerOfWord();
    var h := WordHash(Long(0));
    IndexOfLong(0, MAX_DEPTH - 1);
    assert Shr(0, 3) == 0 by { ShrGroup(0, 3, 0); }
    EightOverflow(view, 8, MAX_DEPTH - 1, 0);
    CrowdedIsDeep(WordHash, d, view, h);
    FewLive(d, view);
    LiveCount(d);
    TableSizes(MAX_DEPTH);
    FirstOut(view);
    SevenMergeAll(view - {Long(0)}, h, MAX_DEPTH);
  }

  lemma FirstOut(view: View)
    requires view.Keys == Names(0, 8)
    ensures Long(0) in view && (view - {Long(0)}).Keys <= Names(1, 8)
  {
    hide Long;
    assert Long(0) in Names(0, 8);
  }

  // --- the run ----------------------------------------------------------------------------------

  lemma LongIsHashed(l: Layout, view: View, w: nat)
    requires LayoutOk(WordHash, l, view) && Long(w) in view
    ensures l.format == HashedFormat
  {
    hide Long;
    if l.format == Embed {
      var i :| 0 <= i < |l.embedded| && l.embedded[i].name == Long(w);
      EmbedAtLeast(l.embedded, i);
    }
  }

  lemma {:induction false} EmbedAtLeast(es: seq<DirEntry>, i: nat)
    requires i < |es|
    ensures EmbedUsed(es) >= 10 + 2 * |es[i].name|
  {
    if i < |es| - 1 {
      EmbedAtLeast(es[..|es| - 1], i);
    }
  }

  /**
  Insert 2048 long names, take all but the first eight out again, the last one first. Each of these
  removals works; the next one fails, and the name stays where it is.
  */
  method RemovalOverflows() returns (l: Layout, r: Result<Layout, DirError>, ghost view: View)
    ensures LayoutOk(WordHash, l, view) && view.Keys == Names(0, 8) && Long(0) in view
    ensures l.format == HashedFormat && l.d.nbuckets == 512 && r == Err(HeaderOverflow)
  {
    hide LayoutOk, Crowded, Long, Pow2, RemovalHasRoom, WordHash;
    PowerOfWord();
    NothingStored(WordHash);
    l, view := NOTHING_STORED, map[];
    for w := 0 to 2048
      invariant LayoutOk(WordHash, l, view) && view.Keys == Names(0, w)
    {
      NeverCrowded(view, w);
      var more := InsertInto(WordHash, l, view, DirEntry(1, 1, Long(w)));
      assert Names(0, w + 1) == Names(0, w) + {Long(w)};
      l, view := more.value, view[Long(w) := Ref(1, 1)];
    }
    InTable(l, view, 2048);
    for w := 2048 downto 8
      invariant LayoutOk(WordHash, l, view) && view.Keys == Names(0, w)
      invariant l.format == HashedFormat && l.d.nbuckets == 512
    {
      HasRoomAbove(l, view, w);
      r := RemoveFrom(WordHash, l, view, Long(w));
      l, view := r.value, view - {Long(w)};
      LongIsHashed(l, view, 0) by { assert Long(0) in Names(0, w); }
    }
    LastHasNone(l, view);
    r := RemoveFrom(WordHash, l, view, Long(0));
  }

  lemma InTable(l: Layout, view: View, n: nat)
    requires LayoutOk(WordHash, l, view) && n == 2048 && view.Keys == Names(0, n)
    ensures l.format == HashedFormat && l.d.nbuckets == 512
  {
    hide Long, WordHash, Pow2, Inv, Shows, Coarse, Tight, Roomy;
    PowerOfWord();
    assert Long(0) in Names(0, n);
    LongIsHashed(l, view, 0);
    AllDeep(l.d, view);
  }

  lemma HasRoomAbove(l: Layout, view: View, w: nat)
    requires LayoutOk(WordHash, l, view) && l.format == HashedFormat && 8 <= w < 2048 && view.Keys == Names(0, w + 1)
    ensures Long(w) in view && (view - {Long(w)}).Keys == Names(0, w) && RemovalHasRoom(WordHash, l, view, Long(w))
  {
    hide Long, WordHash, Pow2, Shows, Coarse, Tight, Roomy, RemovalFits;
    PowerOfWord();
    LastOut(view, w);
    RoomWhileEight(l.d, view, w);
  }

  lemma LastHasNone(l: Layout, view: View)
    requires LayoutOk(WordHash, l, view) && l.format == HashedFormat && l.d.nbuckets == 512 && view.Keys == Names(0, 8)
    ensures Long(0) in view && !RemovalHasRoom(WordHash, l, view, Long(0))
  {
    hide Long, WordHash, Pow2, Shows, Coarse, Tight, Roomy, RemovalFits;
    NoRoomForNine(l.d, view);
  }
}
