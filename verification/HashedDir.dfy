/**
The hashed directory as data: header, table, freelist and buckets of an
extendible hash, the invariant that ties them together, and the effect of
splitting, doubling, merging and halving.
*/
module HashedDir {
  import opened BitShift

  const BLOCK := 4096
  const BUCKET_HDR := 24
  const MAX_DEPTH := 9

  /** UTF-16 code units. */
  type Name = seq<bv16>

  type Hash64 = h: nat | h < Pow2(64) witness 0

  datatype Ref = Ref(ino: nat, ftype: nat)

  datatype HEntry = HEntry(ino: nat, hash: Hash64, ftype: nat, name: Name) {
    function ToRef(): Ref { Ref(ino, ftype) }
  }

  datatype Bucket = Bucket(ld: nat, entries: seq<HEntry>)

  datatype Hashed = Hashed(depth: nat, nbuckets: nat, table: seq<nat>, freelist: seq<nat>, buckets: map<nat, Bucket>)

  /** The top depth bits of a hash. */
  function Index(h: Hash64, depth: nat): (i: nat)
    requires depth <= 64
    ensures i < Pow2(depth)
  {
    ShrBound(h, 64 - depth, depth);
    Shr(h, 64 - depth)
  }

  /** 20 bytes and the name, rounded up to a multiple of 4. */
  function EntrySize(name: Name): nat {
    (20 + 2 * |name| + 3) / 4 * 4
  }

  function Used(es: seq<HEntry>): nat {
    if es == [] then 0 else Used(es[..|es| - 1]) + EntrySize(es[|es| - 1].name)
  }

  predicate BucketFits(es: seq<HEntry>, extra: nat) {
    BUCKET_HDR + Used(es) + extra <= BLOCK
  }

  /** The hash bit that tells the two halves of a bucket of local depth ld apart. */
  predicate GoesUp(e: HEntry, ld: nat)
    requires ld < 64
  {
    Shr(e.hash, 63 - ld) % 2 == 1
  }

  /** The entries of one half of a split bucket, in order. */
  function Half(es: seq<HEntry>, ld: nat, up: bool): seq<HEntry>
    requires ld < 64
  {
    if es == [] then []
    else
      var last := es[|es| - 1];
      Half(es[..|es| - 1], ld, up) + if GoesUp(last, ld) == up then [last] else []
  }

  // --- invariant ---------------------------------------------------------------------

  predicate Live(d: Hashed, b: nat) {
    b < d.nbuckets && b !in d.freelist
  }

  ghost predicate Distinct(s: seq<nat>) {
    forall i, j :: 0 <= i < j < |s| ==> s[i] != s[j]
  }

  ghost predicate DistinctNames(es: seq<HEntry>) {
    forall i, j :: 0 <= i < j < |es| ==> es[i].name != es[j].name
  }

  /** Sizes, bucket numbers and the freelist. */
  ghost predicate Numbering(d: Hashed) {
    && d.depth <= MAX_DEPTH && |d.table| == Pow2(d.depth)
    && Distinct(d.freelist)
    && (forall k :: 0 <= k < |d.freelist| ==> d.freelist[k] < d.nbuckets)
    && (forall b: nat :: b < d.nbuckets ==> b in d.buckets)
    && (forall i :: 0 <= i < |d.table| ==> Live(d, d.table[i]))
    && (forall b: nat :: Live(d, b) ==> b in d.table)
  }

  /** The local depth of the bucket in slot i. */
  function LocalDepth(d: Hashed, i: nat): nat
    requires i < |d.table| && d.table[i] in d.buckets
  {
    d.buckets[d.table[i]].ld
  }

  /** The slots of a bucket of local depth ld are one aligned group of Pow2(depth - ld) slots. */
  ghost predicate Grouped(d: Hashed)
    requires Numbering(d)
  {
    forall i: nat, j: nat :: i < |d.table| && j < |d.table| ==> GroupedAt(d, i, j)
  }

  ghost predicate GroupedAt(d: Hashed, i: nat, j: nat)
    requires Numbering(d) && i < |d.table| && j < |d.table|
  {
    && LocalDepth(d, i) <= d.depth
    && (d.table[i] == d.table[j] <==> Shr(i, d.depth - LocalDepth(d, i)) == Shr(j, d.depth - LocalDepth(d, i)))
  }

  lemma GroupedFact(d: Hashed, i: nat, j: nat)
    requires Numbering(d) && Grouped(d) && i < |d.table| && j < |d.table|
    ensures GroupedAt(d, i, j)
  {
  }

  /** Every entry carries its name's hash and sits in the bucket its hash selects. */
  ghost predicate Placed(hash: Name -> Hash64, d: Hashed)
    requires Numbering(d)
  {
    forall b: nat, k: nat :: Live(d, b) && k < |d.buckets[b].entries| ==> PlacedAt(hash, d, b, d.buckets[b].entries[k])
  }

  ghost predicate PlacedAt(hash: Name -> Hash64, d: Hashed, b: nat, e: HEntry)
    requires Numbering(d)
  {
    e.hash == hash(e.name) && d.table[Index(e.hash, d.depth)] == b
  }

  ghost predicate BucketsOk(d: Hashed)
    requires Numbering(d)
  {
    forall b: nat :: Live(d, b) ==> BucketFits(d.buckets[b].entries, 0) && DistinctNames(d.buckets[b].entries)
  }

  ghost predicate Inv(hash: Name -> Hash64, d: Hashed) {
    Numbering(d) && Grouped(d) && Placed(hash, d) && BucketsOk(d)
  }

  // --- the map a directory stands for ---------------------------------------------------

  type View = map<Name, Ref>

  /** The bucket a name hashes to. */
  function Home(hash: Name -> Hash64, d: Hashed, n: Name): nat
    requires d.depth <= MAX_DEPTH && |d.table| == Pow2(d.depth)
  {
    d.table[Index(hash(n), d.depth)]
  }

  ghost predicate Shows(hash: Name -> Hash64, d: Hashed, view: View)
    requires Numbering(d)
  {
    && (forall b: nat, k: nat :: Live(d, b) && k < |d.buckets[b].entries| ==>
          var e := d.buckets[b].entries[k]; e.name in view && view[e.name] == e.ToRef())
    && (forall n :: n in view ==> HasName(d.buckets[Home(hash, d, n)].entries, n))
  }

  ghost predicate HasName(es: seq<HEntry>, n: Name) {
    exists k :: 0 <= k < |es| && es[k].name == n
  }

  // --- facts about halves ----------------------------------------------------------------

  lemma {:induction false} UsedAppend(a: seq<HEntry>, b: seq<HEntry>)
    ensures Used(a + b) == Used(a) + Used(b)
    decreases |b|
  {
    if b == [] {
      assert a + b == a;
    } else {
      assert (a + b)[..|a + b| - 1] == a + b[..|b| - 1];
      UsedAppend(a, b[..|b| - 1]);
    }
  }

  lemma {:induction false} HalvesUsed(es: seq<HEntry>, ld: nat)
    requires ld < 64
    ensures Used(Half(es, ld, false)) + Used(Half(es, ld, true)) == Used(es)
  {
    if es != [] {
      var init, last := es[..|es| - 1], es[|es| - 1];
      HalvesUsed(init, ld);
      var h, other := Half(init, ld, GoesUp(last, ld)), Half(init, ld, !GoesUp(last, ld));
      assert (h + [last])[..|h|] == h;
      assert other + [] == other;
    }
  }

  /** A half holds exactly the entries with its bit, without repetition. */
  lemma {:induction false} HalfMembers(es: seq<HEntry>, ld: nat, up: bool)
    requires ld < 64
    ensures forall e :: e in Half(es, ld, up) <==> e in es && GoesUp(e, ld) == up
    ensures DistinctNames(es) ==> DistinctNames(Half(es, ld, up))
  {
    if es != [] {
      var init, last := es[..|es| - 1], es[|es| - 1];
      HalfMembers(init, ld, up);
      assert es == init + [last];
      var h := Half(init, ld, up);
      if DistinctNames(es) {
        assert DistinctNames(init);
        forall i | 0 <= i < |h| ensures h[i].name != last.name {
          assert h[i] in init;
        }
      }
    }
  }

  // --- doubling and halving the table ---------------------------------------------------

  function DoubledTable(table: seq<nat>): (r: seq<nat>)
    ensures |r| == 2 * |table| && forall i :: 0 <= i < |r| ==> r[i] == table[i / 2]
  {
    seq(2 * |table|, i requires 0 <= i < 2 * |table| => table[i / 2])
  }

  function Doubled(d: Hashed): Hashed {
    d.(depth := d.depth + 1, table := DoubledTable(d.table))
  }

  lemma IndexSucc(h: Hash64, depth: nat)
    requires depth < 64
    ensures Index(h, depth + 1) / 2 == Index(h, depth)
    ensures Index(h, depth + 1) % 2 == Shr(h, 63 - depth) % 2
  {
    ShrSucc(h, 63 - depth);
  }

  lemma DoubledNumbering(d: Hashed)
    requires Numbering(d) && d.depth < MAX_DEPTH
    ensures Numbering(Doubled(d))
  {
    var r := Doubled(d);
    forall b: nat | Live(r, b) ensures b in r.table {
      assert Live(d, b);
      var i :| 0 <= i < |d.table| && d.table[i] == b;
      assert r.table[2 * i] == b;
    }
  }

  lemma DoubledGrouped(d: Hashed)
    requires Numbering(d) && Grouped(d) && d.depth < MAX_DEPTH
    ensures Numbering(Doubled(d)) && Grouped(Doubled(d))
  {
    var r := Doubled(d);
    DoubledNumbering(d);
    forall i: nat, j: nat | i < |r.table| && j < |r.table|
      ensures GroupedAt(r, i, j)
    {
      assert GroupedAt(d, i / 2, j / 2);
      assert r.table[i] == d.table[i / 2] && r.table[j] == d.table[j / 2];
    }
  }

  /** Entries, buckets and the map shown carry over when every hash keeps its bucket. */
  lemma SameHomes(hash: Name -> Hash64, d: Hashed, r: Hashed, view: View)
    requires Numbering(d) && Placed(hash, d) && BucketsOk(d) && Shows(hash, d, view) && Numbering(r)
    requires r.buckets == d.buckets && r.freelist == d.freelist && r.nbuckets == d.nbuckets
    requires forall h: Hash64 :: r.table[Index(h, r.depth)] == d.table[Index(h, d.depth)]
    ensures Placed(hash, r) && BucketsOk(r) && Shows(hash, r, view)
  {
    hide Index, Used;
    assert forall b: nat :: Live(r, b) <==> Live(d, b);
    forall b: nat, k: nat | Live(r, b) && k < |r.buckets[b].entries|
      ensures PlacedAt(hash, r, b, r.buckets[b].entries[k])
    {
      assert PlacedAt(hash, d, b, d.buckets[b].entries[k]);
    }
    forall n | n in view ensures HasName(r.buckets[Home(hash, r, n)].entries, n) {
      assert Home(hash, r, n) == Home(hash, d, n);
    }
  }

  lemma DoubledInv(hash: Name -> Hash64, d: Hashed, view: View)
    requires Inv(hash, d) && Shows(hash, d, view) && d.depth < MAX_DEPTH
    ensures Inv(hash, Doubled(d)) && Shows(hash, Doubled(d), view)
    ensures forall n :: Home(hash, Doubled(d), n) == Home(hash, d, n)
  {
    var r := Doubled(d);
    DoubledGrouped(d);
    forall h: Hash64 ensures r.table[Index(h, r.depth)] == d.table[Index(h, d.depth)] {
      IndexSucc(h, d.depth);
    }
    SameHomes(hash, d, r, view);
  }

  /** Every adjacent pair of slots points the same way. */
  predicate Halvable(d: Hashed) {
    |d.table| % 2 == 0 && forall p :: 0 <= p < |d.table| / 2 ==> d.table[2 * p] == d.table[2 * p + 1]
  }

  function HalvedTable(table: seq<nat>): (r: seq<nat>)
    ensures |r| == |table| / 2 && forall p :: 0 <= p < |r| ==> r[p] == table[2 * p]
  {
    seq(|table| / 2, p requires 0 <= p < |table| / 2 => table[2 * p])
  }

  function Halved(d: Hashed): Hashed
    requires d.depth > 0
  {
    d.(depth := d.depth - 1, table := HalvedTable(d.table))
  }

  lemma HalvedSlot(d: Hashed, i: nat)
    requires Halvable(d) && d.depth > 0 && i < |d.table|
    ensures i / 2 < |Halved(d).table| && Halved(d).table[i / 2] == d.table[i]
  {
    assert i == 2 * (i / 2) || i == 2 * (i / 2) + 1;
  }

  lemma HalvedNumbering(d: Hashed)
    requires Numbering(d) && Halvable(d) && d.depth > 0
    ensures Numbering(Halved(d))
  {
    var r := Halved(d);
    forall b: nat | Live(r, b) ensures b in r.table {
      assert Live(d, b);
      var i :| 0 <= i < |d.table| && d.table[i] == b;
      HalvedSlot(d, i);
    }
  }

  /** When every pair agrees, no bucket has the full depth. */
  lemma HalvableDepth(d: Hashed, p: nat)
    requires Numbering(d) && Grouped(d) && Halvable(d) && p < |d.table| / 2
    ensures LocalDepth(d, 2 * p) < d.depth
  {
    assert GroupedAt(d, 2 * p, 2 * p + 1);
  }

  lemma HalvedGrouped(d: Hashed)
    requires Numbering(d) && Grouped(d) && Halvable(d) && d.depth > 0
    ensures Numbering(Halved(d)) && Grouped(Halved(d))
  {
    var r := Halved(d);
    HalvedNumbering(d);
    forall i: nat, j: nat | i < |r.table| && j < |r.table|
      ensures GroupedAt(r, i, j)
    {
      hide Numbering, Halvable;
      HalvableDepth(d, i);
      assert GroupedAt(d, 2 * i, 2 * j);
      var k := d.depth - LocalDepth(d, 2 * i);
      assert Shr(2 * i, k) == Shr(i, k - 1) && Shr(2 * j, k) == Shr(j, k - 1);
    }
  }

  lemma HalvedInv(hash: Name -> Hash64, d: Hashed, view: View)
    requires Inv(hash, d) && Shows(hash, d, view) && Halvable(d) && d.depth > 0
    ensures Inv(hash, Halved(d)) && Shows(hash, Halved(d), view)
  {
    var r := Halved(d);
    HalvedGrouped(d);
    forall h: Hash64 ensures r.table[Index(h, r.depth)] == d.table[Index(h, d.depth)] {
      IndexSucc(h, r.depth);
      HalvedSlot(d, Index(h, d.depth));
    }
    SameHomes(hash, d, r, view);
  }

  // --- splitting a bucket -----------------------------------------------------------------

  /** A freed bucket number is reused before the file grows. */
  function NewBucket(d: Hashed): nat {
    if d.freelist == [] then d.nbuckets else d.freelist[|d.freelist| - 1]
  }

  /** The slots of bno whose bit k is set move to new_bno. */
  function SplitTable(table: seq<nat>, bno: nat, new_bno: nat, k: nat): (r: seq<nat>)
    ensures |r| == |table|
    ensures forall i :: 0 <= i < |r| ==> r[i] == if table[i] == bno && Shr(i, k) % 2 == 1 then new_bno else table[i]
  {
    seq(|table|, i requires 0 <= i < |table| => if table[i] == bno && Shr(i, k) % 2 == 1 then new_bno else table[i])
  }

  /** Split bucket bno by its next hash bit. */
  function SplitAt(d: Hashed, bno: nat): Hashed
    requires bno in d.buckets && d.buckets[bno].ld < d.depth <= MAX_DEPTH
  {
    var ld, es, new_bno := d.buckets[bno].ld, d.buckets[bno].entries, NewBucket(d);
    Hashed(
      d.depth,
      if d.freelist == [] then d.nbuckets + 1 else d.nbuckets,
      SplitTable(d.table, bno, new_bno, d.depth - 1 - ld),
      if d.freelist == [] then [] else d.freelist[..|d.freelist| - 1],
      d.buckets[bno := Bucket(ld + 1, Half(es, ld, false))][new_bno := Bucket(ld + 1, Half(es, ld, true))])
  }

  lemma NewBucketIsFree(d: Hashed)
    requires Numbering(d)
    ensures !Live(d, NewBucket(d))
  {
  }

  lemma SplitLive(d: Hashed, bno: nat)
    requires Numbering(d) && Live(d, bno) && d.buckets[bno].ld < d.depth
    ensures forall b: nat :: Live(SplitAt(d, bno), b) <==> Live(d, b) || b == NewBucket(d)
    ensures Distinct(SplitAt(d, bno).freelist)
  {
    var r, n := SplitAt(d, bno), |d.freelist|;
    if n > 0 {
      assert d.freelist == r.freelist + [NewBucket(d)];
      assert forall k :: 0 <= k < n - 1 ==> r.freelist[k] == d.freelist[k];
    }
  }

  /** Both halves keep at least one slot. */
  lemma SplitSlots(d: Hashed, bno: nat, i: nat) returns (lo: nat, hi: nat)
    requires Numbering(d) && Grouped(d) && Live(d, bno) && d.buckets[bno].ld < d.depth
    requires i < |d.table| && d.table[i] == bno
    ensures lo < |d.table| && hi < |d.table| && d.table[lo] == d.table[hi] == bno
    ensures Shr(lo, d.depth - 1 - d.buckets[bno].ld) % 2 == 0 && Shr(hi, d.depth - 1 - d.buckets[bno].ld) % 2 == 1
  {
    hide Grouped, FlipBit, Shr;
    var k := d.depth - 1 - d.buckets[bno].ld;
    var j := FlipBit(i, k);
    FlipBound(i, k, d.depth);
    FlipFacts(i, k);
    GroupedFact(d, i, j);
    lo, hi := if Shr(i, k) % 2 == 0 then i else j, if Shr(i, k) % 2 == 0 then j else i;
  }

  lemma SplitNumbering(d: Hashed, bno: nat)
    requires Numbering(d) && Grouped(d) && Live(d, bno) && d.buckets[bno].ld < d.depth
    ensures Numbering(SplitAt(d, bno))
  {
    hide Shr, Half;
    var r := SplitAt(d, bno);
    SplitLive(d, bno);
    NewBucketIsFree(d);
    var i :| 0 <= i < |d.table| && d.table[i] == bno;
    var lo, hi := SplitSlots(d, bno, i);
    assert r.table[lo] == bno && r.table[hi] == NewBucket(d);
    forall b: nat | Live(r, b) ensures b in r.table {
      if b != bno && b != NewBucket(d) {
        var x :| 0 <= x < |d.table| && d.table[x] == b;
        assert r.table[x] == b;
      }
    }
  }

  lemma SplitGroupedAt(d: Hashed, bno: nat, i: nat, j: nat)
    requires Numbering(d) && Grouped(d) && Live(d, bno) && d.buckets[bno].ld < d.depth
    requires Numbering(SplitAt(d, bno)) && i < |d.table| && j < |d.table|
    ensures GroupedAt(SplitAt(d, bno), i, j)
  {
    hide Grouped, Half, Shr, Distinct;
    var k := d.depth - d.buckets[bno].ld;
    NewBucketIsFree(d);
    GroupedFact(d, i, j);
    ShrSucc(i, k - 1);
    ShrSucc(j, k - 1);
  }

  lemma SplitGrouped(d: Hashed, bno: nat)
    requires Numbering(d) && Grouped(d) && Live(d, bno) && d.buckets[bno].ld < d.depth
    ensures Numbering(SplitAt(d, bno)) && Grouped(SplitAt(d, bno))
  {
    SplitNumbering(d, bno);
    forall i: nat, j: nat | i < |d.table| && j < |d.table| ensures GroupedAt(SplitAt(d, bno), i, j) {
      SplitGroupedAt(d, bno, i, j);
    }
  }

  /** The new home of a hash: unchanged, unless its bucket was split and its bit is set. */
  lemma SplitHome(d: Hashed, bno: nat, h: Hash64)
    requires Numbering(d) && Live(d, bno) && d.buckets[bno].ld < d.depth
    ensures var b := d.table[Index(h, d.depth)];
      SplitAt(d, bno).table[Index(h, d.depth)]
      == if b == bno && Shr(h, 63 - d.buckets[bno].ld) % 2 == 1 then NewBucket(d) else b
  {
    ShrAdd(h, 64 - d.depth, d.depth - 1 - d.buckets[bno].ld);
  }

  /** Where an entry of the split directory came from. */
  lemma SplitOrigin(d: Hashed, bno: nat, b: nat, k: nat) returns (x: nat)
    requires Numbering(d) && Live(d, bno) && d.buckets[bno].ld < d.depth
    requires Live(SplitAt(d, bno), b) && b in SplitAt(d, bno).buckets && k < |SplitAt(d, bno).buckets[b].entries|
    ensures var from, e := if b == NewBucket(d) then bno else b, SplitAt(d, bno).buckets[b].entries[k];
      && Live(d, from) && x < |d.buckets[from].entries| && d.buckets[from].entries[x] == e
      && (from == bno ==> GoesUp(e, d.buckets[bno].ld) == (b == NewBucket(d)))
  {
    hide Shr, Index, Half, Distinct;
    var r, ld, es := SplitAt(d, bno), d.buckets[bno].ld, d.buckets[bno].entries;
    SplitLive(d, bno);
    NewBucketIsFree(d);
    if b == bno || b == NewBucket(d) {
      var half := Half(es, ld, b == NewBucket(d));
      HalfMembers(es, ld, b == NewBucket(d));
      assert half[k] in half;
      x :| 0 <= x < |es| && es[x] == half[k];
    } else {
      x := k;
    }
  }

  lemma SplitPlaced(hash: Name -> Hash64, d: Hashed, bno: nat)
    requires Numbering(d) && Grouped(d) && Placed(hash, d) && Live(d, bno) && d.buckets[bno].ld < d.depth
    requires Numbering(SplitAt(d, bno))
    ensures Placed(hash, SplitAt(d, bno))
  {
    hide Shr, Index, Half, Distinct, Grouped;
    var r := SplitAt(d, bno);
    forall b: nat, k: nat | Live(r, b) && k < |r.buckets[b].entries|
      ensures PlacedAt(hash, r, b, r.buckets[b].entries[k])
    {
      var x := SplitOrigin(d, bno, b, k);
      var from := if b == NewBucket(d) then bno else b;
      assert PlacedAt(hash, d, from, d.buckets[from].entries[x]);
      SplitHome(d, bno, r.buckets[b].entries[k].hash);
    }
  }

  lemma SplitShowsEntries(hash: Name -> Hash64, d: Hashed, bno: nat, view: View)
    requires Numbering(d) && Shows(hash, d, view) && Live(d, bno) && d.buckets[bno].ld < d.depth
    requires Numbering(SplitAt(d, bno))
    ensures forall b: nat, k: nat :: Live(SplitAt(d, bno), b) && k < |SplitAt(d, bno).buckets[b].entries| ==>
      var e := SplitAt(d, bno).buckets[b].entries[k]; e.name in view && view[e.name] == e.ToRef()
  {
    hide Shr, Index, Half, Distinct, DistinctNames, HasName, SplitAt;
    var r := SplitAt(d, bno);
    forall b: nat, k: nat | Live(r, b) && k < |r.buckets[b].entries|
      ensures var e := r.buckets[b].entries[k]; e.name in view && view[e.name] == e.ToRef()
    {
      var x := SplitOrigin(d, bno, b, k);
    }
  }

  /** A name's entry follows its hash bit into one of the halves. */
  lemma SplitShowsName(hash: Name -> Hash64, d: Hashed, bno: nat, n: Name)
    requires Numbering(d) && Placed(hash, d) && Live(d, bno) && d.buckets[bno].ld < d.depth
    requires Numbering(SplitAt(d, bno)) && HasName(d.buckets[Home(hash, d, n)].entries, n)
    ensures HasName(SplitAt(d, bno).buckets[Home(hash, SplitAt(d, bno), n)].entries, n)
  {
    hide Shr, Index, Half, Distinct, DistinctNames;
    var r, ld, es := SplitAt(d, bno), d.buckets[bno].ld, d.buckets[bno].entries;
    NewBucketIsFree(d);
    SplitHome(d, bno, hash(n));
    var b := Home(hash, d, n);
    var x :| 0 <= x < |d.buckets[b].entries| && d.buckets[b].entries[x].name == n;
    assert PlacedAt(hash, d, b, d.buckets[b].entries[x]);
    if b == bno {
      InHalf(es, ld, GoesUp(es[x], ld), x);
    } else {
      assert r.buckets[b].entries[x].name == n;
    }
  }

  lemma InHalf(es: seq<HEntry>, ld: nat, up: bool, x: nat)
    requires ld < 64 && x < |es| && GoesUp(es[x], ld) == up
    ensures HasName(Half(es, ld, up), es[x].name)
  {
    HalfMembers(es, ld, up);
    var half := Half(es, ld, up);
    assert es[x] in half;
    var y :| 0 <= y < |half| && half[y] == es[x];
  }

  lemma SplitShows(hash: Name -> Hash64, d: Hashed, bno: nat, view: View)
    requires Numbering(d) && Placed(hash, d) && Shows(hash, d, view) && Live(d, bno) && d.buckets[bno].ld < d.depth
    requires Numbering(SplitAt(d, bno))
    ensures Shows(hash, SplitAt(d, bno), view)
  {
    hide Half, HasName, Placed, Index, SplitAt;
    SplitShowsEntries(hash, d, bno, view);
    forall n | n in view
      ensures HasName(SplitAt(d, bno).buckets[Home(hash, SplitAt(d, bno), n)].entries, n)
    {
      SplitShowsName(hash, d, bno, n);
    }
  }

  lemma SplitBuckets(d: Hashed, bno: nat)
    requires Numbering(d) && BucketsOk(d) && Live(d, bno) && d.buckets[bno].ld < d.depth
    requires Numbering(SplitAt(d, bno))
    ensures BucketsOk(SplitAt(d, bno))
  {
    hide Half, Distinct, Used, DistinctNames, Pow2;
    var ld, es := d.buckets[bno].ld, d.buckets[bno].entries;
    SplitLive(d, bno);
    NewBucketIsFree(d);
    HalvesUsed(es, ld);
    HalfMembers(es, ld, false);
    HalfMembers(es, ld, true);
  }

  lemma SplitInv(hash: Name -> Hash64, d: Hashed, bno: nat, view: View)
    requires Inv(hash, d) && Shows(hash, d, view) && Live(d, bno) && d.buckets[bno].ld < d.depth
    ensures Inv(hash, SplitAt(d, bno)) && Shows(hash, SplitAt(d, bno), view)
  {
    hide Grouped, Placed, Shows, BucketsOk, Half, SplitAt;
    SplitGrouped(d, bno);
    SplitPlaced(hash, d, bno);
    SplitShows(hash, d, bno, view);
    SplitBuckets(d, bno);
  }

  // --- merging two buddies -----------------------------------------------------------------------

  /** The slot that differs from i in the deepest bit of its bucket. */
  function BuddySlot(d: Hashed, i: nat): (j: nat)
    requires i < |d.table| == Pow2(d.depth) && d.table[i] in d.buckets && 0 < LocalDepth(d, i) <= d.depth
    ensures j < |d.table|
  {
    FlipBound(i, d.depth - LocalDepth(d, i), d.depth);
    FlipBit(i, d.depth - LocalDepth(d, i))
  }

  /** The bucket in slot i and its buddy have the same depth and fit one block. */
  ghost predicate Mergeable(d: Hashed, i: nat)
    requires Numbering(d) && Grouped(d) && i < |d.table|
  {
    && 0 < LocalDepth(d, i) <= d.depth
    && var j := BuddySlot(d, i);
    && LocalDepth(d, j) == LocalDepth(d, i)
    && BucketFits(d.buckets[d.table[i]].entries, Used(d.buckets[d.table[j]].entries))
  }

  function MergedTable(table: seq<nat>, from: nat, to: nat): (r: seq<nat>)
    ensures |r| == |table| && forall x :: 0 <= x < |r| ==> r[x] == if table[x] == from then to else table[x]
  {
    seq(|table|, x requires 0 <= x < |table| => if table[x] == from then to else table[x])
  }

  function MergedAt(d: Hashed, i: nat): Hashed
    requires i < |d.table| == Pow2(d.depth) && d.table[i] in d.buckets && 0 < LocalDepth(d, i) <= d.depth
    requires d.table[BuddySlot(d, i)] in d.buckets
  {
    var b, b2 := d.table[i], d.table[BuddySlot(d, i)];
    Hashed(
      d.depth,
      d.nbuckets,
      MergedTable(d.table, b2, b),
      d.freelist + [b2],
      d.buckets[b := Bucket(LocalDepth(d, i) - 1, d.buckets[b].entries + d.buckets[b2].entries)][b2 := Bucket(0, [])])
  }

  /** Which slots belong to a bucket and to its buddy. */
  lemma BuddyGroups(d: Hashed, i: nat, x: nat)
    requires Numbering(d) && Grouped(d) && i < |d.table| && x < |d.table| && 0 < LocalDepth(d, i) <= d.depth
    requires LocalDepth(d, BuddySlot(d, i)) == LocalDepth(d, i)
    ensures var j, k := BuddySlot(d, i), d.depth - LocalDepth(d, i);
      && d.table[j] != d.table[i]
      && (d.table[x] == d.table[i] <==> Shr(x, k) == Shr(i, k))
      && (d.table[x] == d.table[j] <==> Shr(x, k) == Sibling(Shr(i, k)))
      && (d.table[x] in {d.table[i], d.table[j]} <==> Shr(x, k + 1) == Shr(i, k + 1))
  {
    hide Grouped, Shr, FlipBit;
    var j, k := BuddySlot(d, i), d.depth - LocalDepth(d, i);
    FlipFacts(i, k);
    GroupedFact(d, i, x);
    GroupedFact(d, i, j);
    GroupedFact(d, j, x);
    ShrSucc(x, k);
    ShrSucc(i, k);
  }

  lemma MergedNumbering(d: Hashed, i: nat)
    requires Numbering(d) && Grouped(d) && i < |d.table| && Mergeable(d, i)
    ensures Numbering(MergedAt(d, i))
    ensures forall b: nat :: Live(MergedAt(d, i), b) <==> Live(d, b) && b != d.table[BuddySlot(d, i)]
  {
    var r, j := MergedAt(d, i), BuddySlot(d, i);
    BuddyGroups(d, i, i);
    assert Live(d, d.table[i]) && Live(d, d.table[j]);
    var b2 := d.table[j];
    assert forall b: nat :: b in d.freelist + [b2] <==> b in d.freelist || b == b2;
    forall b: nat | Live(r, b) ensures b in r.table {
      assert Live(d, b);
      assert b in d.table;
      var x :| 0 <= x < |d.table| && d.table[x] == b;
      assert r.table[x] == b;
    }
  }

  lemma MergedGroupedAt(d: Hashed, i: nat, x: nat, y: nat)
    requires Numbering(d) && Grouped(d) && i < |d.table| && Mergeable(d, i)
    requires Numbering(MergedAt(d, i)) && x < |d.table| && y < |d.table|
    ensures GroupedAt(MergedAt(d, i), x, y)
  {
    hide Grouped, Shr, FlipBit, Distinct, Used;
    GroupedFact(d, i, i);
    BuddyGroups(d, i, x);
    BuddyGroups(d, i, y);
    GroupedFact(d, x, y);
  }

  lemma MergedPlaced(hash: Name -> Hash64, d: Hashed, i: nat)
    requires Numbering(d) && Grouped(d) && Placed(hash, d) && i < |d.table| && Mergeable(d, i)
    requires Numbering(MergedAt(d, i))
    ensures Placed(hash, MergedAt(d, i))
  {
    hide Shr, Index, Distinct, Grouped, Used, FlipBit;
    var r := MergedAt(d, i);
    var b1, b2 := d.table[i], d.table[BuddySlot(d, i)];
    BuddyGroups(d, i, i);
    forall b: nat, k: nat | Live(r, b) && k < |r.buckets[b].entries|
      ensures PlacedAt(hash, r, b, r.buckets[b].entries[k])
    {
      var es1 := d.buckets[b1].entries;
      if b == b1 && k >= |es1| {
        assert PlacedAt(hash, d, b2, d.buckets[b2].entries[k - |es1|]);
      } else {
        assert PlacedAt(hash, d, b, d.buckets[b].entries[k]);
      }
    }
  }

  lemma MergedShows(hash: Name -> Hash64, d: Hashed, i: nat, view: View)
    requires Numbering(d) && Grouped(d) && Shows(hash, d, view) && i < |d.table| && Mergeable(d, i)
    requires Numbering(MergedAt(d, i))
    ensures Shows(hash, MergedAt(d, i), view)
  {
    hide Shr, Index, Distinct, Grouped, Used, FlipBit;
    var r := MergedAt(d, i);
    var b1, b2 := d.table[i], d.table[BuddySlot(d, i)];
    BuddyGroups(d, i, i);
    var es1 := d.buckets[b1].entries;
    forall b: nat, k: nat | Live(r, b) && k < |r.buckets[b].entries|
      ensures var e := r.buckets[b].entries[k]; e.name in view && view[e.name] == e.ToRef()
    {
      if b == b1 && k >= |es1| {
        assert r.buckets[b].entries[k] == d.buckets[b2].entries[k - |es1|];
      } else {
        assert r.buckets[b].entries[k] == d.buckets[b].entries[k];
      }
    }
    forall n | n in view ensures HasName(r.buckets[Home(hash, r, n)].entries, n) {
      MergedShowsName(hash, d, i, n);
    }
  }

  lemma MergedShowsName(hash: Name -> Hash64, d: Hashed, i: nat, n: Name)
    requires Numbering(d) && Grouped(d) && i < |d.table| && Mergeable(d, i)
    requires Numbering(MergedAt(d, i)) && HasName(d.buckets[Home(hash, d, n)].entries, n)
    ensures HasName(MergedAt(d, i).buckets[Home(hash, MergedAt(d, i), n)].entries, n)
  {
    hide Shr, Index, Distinct, Grouped, Used, FlipBit;
    var r := MergedAt(d, i);
    var b1, b2 := d.table[i], d.table[BuddySlot(d, i)];
    BuddyGroups(d, i, i);
    var es1 := d.buckets[b1].entries;
    var b := Home(hash, d, n);
    var x :| 0 <= x < |d.buckets[b].entries| && d.buckets[b].entries[x].name == n;
    if b == b2 {
      assert r.buckets[b1].entries[|es1| + x].name == n;
    } else {
      assert r.buckets[b].entries[x].name == n;
    }
  }

  lemma MergedBuckets(hash: Name -> Hash64, d: Hashed, i: nat)
    requires Inv(hash, d) && i < |d.table| && Mergeable(d, i)
    requires Numbering(MergedAt(d, i))
    ensures BucketsOk(MergedAt(d, i))
  {
    hide Shr, Index, Distinct, Grouped, FlipBit, Used;
    var b1, b2 := d.table[i], d.table[BuddySlot(d, i)];
    BuddyGroups(d, i, i);
    var es1, es2 := d.buckets[b1].entries, d.buckets[b2].entries;
    UsedAppend(es1, es2);
    forall x, y | 0 <= x < |es1| && 0 <= y < |es2| ensures es1[x].name != es2[y].name {
      assert PlacedAt(hash, d, b1, es1[x]) && PlacedAt(hash, d, b2, es2[y]);
    }
    assert DistinctNames(es1 + es2);
  }

  lemma MergedInv(hash: Name -> Hash64, d: Hashed, i: nat, view: View)
    requires Inv(hash, d) && Shows(hash, d, view) && i < |d.table| && Mergeable(d, i)
    ensures Inv(hash, MergedAt(d, i)) && Shows(hash, MergedAt(d, i), view)
  {
    MergedNumbering(d, i);
    forall x: nat, y: nat | x < |d.table| && y < |d.table| ensures GroupedAt(MergedAt(d, i), x, y) {
      MergedGroupedAt(d, i, x, y);
    }
    MergedPlaced(hash, d, i);
    MergedShows(hash, d, i, view);
    MergedBuckets(hash, d, i);
  }

  // --- single entries ---------------------------------------------------------------------------

  function WithEntries(d: Hashed, b: nat, es: seq<HEntry>): Hashed
    requires b in d.buckets
  {
    d.(buckets := d.buckets[b := d.buckets[b].(entries := es)])
  }

  lemma WithEntriesShape(d: Hashed, b: nat, es: seq<HEntry>)
    requires Numbering(d) && Grouped(d) && Live(d, b)
    ensures Numbering(WithEntries(d, b, es)) && Grouped(WithEntries(d, b, es))
  {
    var r := WithEntries(d, b, es);
    forall i: nat, j: nat | i < |r.table| && j < |r.table| ensures GroupedAt(r, i, j) {
      assert GroupedAt(d, i, j);
    }
  }

  lemma AddEntry(hash: Name -> Hash64, d: Hashed, e: HEntry, view: View)
    requires Inv(hash, d) && Shows(hash, d, view) && e.hash == hash(e.name) && e.name !in view
    requires BucketFits(d.buckets[Home(hash, d, e.name)].entries, EntrySize(e.name))
    ensures var b := Home(hash, d, e.name);
      var r := WithEntries(d, b, d.buckets[b].entries + [e]);
      Inv(hash, r) && Shows(hash, r, view[e.name := e.ToRef()])
  {
    hide Grouped, Index, Distinct, EntrySize, Shows, Placed;
    var b := Home(hash, d, e.name);
    var es := d.buckets[b].entries;
    WithEntriesShape(d, b, es + [e]);
    AddEntryPlaced(hash, d, e);
    AddEntryBucket(hash, d, e, view);
    AddEntryShows(hash, d, e, view);
  }

  lemma AddEntryPlaced(hash: Name -> Hash64, d: Hashed, e: HEntry)
    requires Numbering(d) && Placed(hash, d) && e.hash == hash(e.name)
    requires Numbering(WithEntries(d, Home(hash, d, e.name), d.buckets[Home(hash, d, e.name)].entries + [e]))
    ensures Placed(hash, WithEntries(d, Home(hash, d, e.name), d.buckets[Home(hash, d, e.name)].entries + [e]))
  {
    hide Index, Distinct;
    var b := Home(hash, d, e.name);
    var es := d.buckets[b].entries;
    var r := WithEntries(d, b, es + [e]);
    forall c: nat, k: nat | Live(r, c) && k < |r.buckets[c].entries|
      ensures PlacedAt(hash, r, c, r.buckets[c].entries[k])
    {
      if c != b || k < |es| {
        assert PlacedAt(hash, d, c, d.buckets[c].entries[k]);
      }
    }
  }

  lemma AddEntryBucket(hash: Name -> Hash64, d: Hashed, e: HEntry, view: View)
    requires Numbering(d) && BucketsOk(d) && Shows(hash, d, view) && e.name !in view
    requires BucketFits(d.buckets[Home(hash, d, e.name)].entries, EntrySize(e.name))
    requires Numbering(WithEntries(d, Home(hash, d, e.name), d.buckets[Home(hash, d, e.name)].entries + [e]))
    ensures BucketsOk(WithEntries(d, Home(hash, d, e.name), d.buckets[Home(hash, d, e.name)].entries + [e]))
  {
    hide Index, Distinct, HasName;
    var es := d.buckets[Home(hash, d, e.name)].entries;
    assert Live(d, Home(hash, d, e.name));
    assert (es + [e])[..|es|] == es;
    assert DistinctNames(es + [e]);
  }

  lemma AddEntryShows(hash: Name -> Hash64, d: Hashed, e: HEntry, view: View)
    requires Numbering(d) && Shows(hash, d, view) && e.name !in view
    requires Numbering(WithEntries(d, Home(hash, d, e.name), d.buckets[Home(hash, d, e.name)].entries + [e]))
    ensures var b := Home(hash, d, e.name);
      Shows(hash, WithEntries(d, b, d.buckets[b].entries + [e]), view[e.name := e.ToRef()])
  {
    hide Index, Distinct;
    var b := Home(hash, d, e.name);
    var es := d.buckets[b].entries;
    var r, v := WithEntries(d, b, es + [e]), view[e.name := e.ToRef()];
    forall c: nat, k: nat | Live(r, c) && k < |r.buckets[c].entries|
      ensures var x := r.buckets[c].entries[k]; x.name in v && v[x.name] == x.ToRef()
    {
      if c != b || k < |es| {
        assert r.buckets[c].entries[k] == d.buckets[c].entries[k];
      }
    }
    forall n | n in v ensures HasName(r.buckets[Home(hash, r, n)].entries, n) {
      if n == e.name {
        assert (es + [e])[|es|].name == n;
      } else {
        var c := Home(hash, d, n);
        var x :| 0 <= x < |d.buckets[c].entries| && d.buckets[c].entries[x].name == n;
        assert r.buckets[c].entries[x].name == n;
      }
    }
  }

  function Removed(es: seq<HEntry>, k: nat): (r: seq<HEntry>)
    requires k < |es|
    ensures |r| == |es| - 1
    ensures forall i :: 0 <= i < |r| ==> r[i] == es[if i < k then i else i + 1]
  {
    es[..k] + es[k + 1..]
  }

  lemma RemovedFacts(es: seq<HEntry>, k: nat)
    requires k < |es|
    ensures Used(Removed(es, k)) + EntrySize(es[k].name) == Used(es)
    ensures DistinctNames(es) ==> DistinctNames(Removed(es, k))
  {
    hide Used, EntrySize;
    RemovedUsed(es, k);
    var r := Removed(es, k);
    if DistinctNames(es) {
      forall i, j | 0 <= i < j < |r| ensures r[i].name != r[j].name {
        var x, y := if i < k then i else i + 1, if j < k then j else j + 1;
        assert es[x].name != es[y].name;
      }
    }
  }

  lemma RemovedUsed(es: seq<HEntry>, k: nat)
    requires k < |es|
    ensures Used(Removed(es, k)) + EntrySize(es[k].name) == Used(es)
  {
    hide EntrySize, Used;
    CutAround(es, k);
    UsedAround(es[..k], es[k], es[k + 1..]);
  }

  lemma CutAround(es: seq<HEntry>, k: nat)
    requires k < |es|
    ensures es[..k] + [es[k]] + es[k + 1..] == es
  {
  }

  lemma UsedAround(a: seq<HEntry>, m: HEntry, b: seq<HEntry>)
    ensures Used(a + [m] + b) == Used(a + b) + EntrySize(m.name)
  {
    hide EntrySize, Used;
    UsedAppend(a + [m], b);
    UsedAppend(a, [m]);
    UsedAppend(a, b);
    UsedOne(m);
  }

  lemma UsedOne(e: HEntry)
    ensures Used([e]) == EntrySize(e.name)
  {
    assert [e][..0] == [];
  }

  lemma RemoveEntry(hash: Name -> Hash64, d: Hashed, b: nat, k: nat, view: View)
    requires Inv(hash, d) && Shows(hash, d, view) && Live(d, b) && k < |d.buckets[b].entries|
    ensures var r := WithEntries(d, b, Removed(d.buckets[b].entries, k));
      Inv(hash, r) && Shows(hash, r, view - {d.buckets[b].entries[k].name})
  {
    hide Grouped, Index, Distinct, EntrySize, Used, Removed;
    var es := d.buckets[b].entries;
    var r := WithEntries(d, b, Removed(es, k));
    RemovedFacts(es, k);
    WithEntriesShape(d, b, Removed(es, k));
    RemoveEntryShows(hash, d, b, k, view);
  }

  lemma RemoveEntryShows(hash: Name -> Hash64, d: Hashed, b: nat, k: nat, view: View)
    requires Inv(hash, d) && Shows(hash, d, view) && Live(d, b) && k < |d.buckets[b].entries|
    requires Numbering(WithEntries(d, b, Removed(d.buckets[b].entries, k)))
    ensures var r := WithEntries(d, b, Removed(d.buckets[b].entries, k));
      Placed(hash, r) && Shows(hash, r, view - {d.buckets[b].entries[k].name})
  {
    hide Grouped, Index, Distinct, EntrySize, Used, Removed, HasName;
    var es := d.buckets[b].entries;
    var gone := es[k].name;
    var r, v := WithEntries(d, b, Removed(es, k)), view - {gone};
    RemovedFacts(es, k);
    assert PlacedAt(hash, d, b, es[k]);
    forall c: nat, x: nat | Live(r, c) && x < |r.buckets[c].entries|
      ensures PlacedAt(hash, r, c, r.buckets[c].entries[x])
      ensures var y := r.buckets[c].entries[x]; y.name in v && v[y.name] == y.ToRef()
    {
      var z := if c == b && x >= k then x + 1 else x;
      assert r.buckets[c].entries[x] == d.buckets[c].entries[z];
      assert PlacedAt(hash, d, c, d.buckets[c].entries[z]);
    }
    forall n | n in v ensures HasName(r.buckets[Home(hash, r, n)].entries, n) {
      if Home(hash, d, n) == b {
        RemovedHasName(es, k, n);
      }
    }
  }

  /** Removing another entry leaves a name in place. */
  lemma RemovedHasName(es: seq<HEntry>, k: nat, n: Name)
    requires HasName(es, n) && (k < |es| ==> es[k].name != n)
    ensures k < |es| ==> HasName(Removed(es, k), n)
  {
    var x :| 0 <= x < |es| && es[x].name == n;
    if k < |es| {
      assert Removed(es, k)[if x > k then x - 1 else x].name == n;
    }
  }
}
