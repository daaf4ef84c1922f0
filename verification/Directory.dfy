/**
A directory through its formats: empty, embedded in the inode, hashed. The
operations rewrite header and buckets step by step; each is proved to act on
the directory as on a plain map from names to inode references, and to keep
the hashed form in its canonical shape.
*/
module Directory {
  import opened Wrappers
  import opened BitShift
  import opened HashedDir
  import opened DirShape
  import opened DirSpace

  const INODE_PAYLOAD := 128
  const MAX_NAME := 255

  datatype DirEntry = DirEntry(ino: nat, ftype: nat, name: Name)

  datatype Format = Empty | Embed | HashedFormat

  datatype DirError = AlreadyExists | NotFound | DepthLimit | HeaderOverflow

  function ToDirEntry(e: HEntry): DirEntry {
    DirEntry(e.ino, e.ftype, e.name)
  }

  /** Bytes the embedded form takes. */
  function EmbedUsed(es: seq<DirEntry>): nat {
    if es == [] then 0 else EmbedUsed(es[..|es| - 1]) + 10 + 2 * |es[|es| - 1].name|
  }

  /** The payload has room for one more entry. */
  predicate EmbedHolds(format: Format, es: seq<DirEntry>, name: Name) {
    (if format == Embed then EmbedUsed(es) else 0) + 10 + 2 * |name| <= INODE_PAYLOAD
  }

  ghost predicate ShowsEmbedded(es: seq<DirEntry>, view: View) {
    && (forall i, j :: 0 <= i < j < |es| ==> es[i].name != es[j].name)
    && (forall i :: 0 <= i < |es| ==> es[i].name in view && view[es[i].name] == Ref(es[i].ino, es[i].ftype))
    && (forall n :: n in view ==> exists i :: 0 <= i < |es| && es[i].name == n)
  }

  /** What is stored of a directory: the form, the embedded entries, the header with its buckets. */
  datatype Layout = Layout(format: Format, embedded: seq<DirEntry>, d: Hashed)

  /** The stored form shows the view; a hashed form is in canonical shape, and its header fits its block. */
  ghost predicate LayoutOk(hash: Name -> Hash64, l: Layout, view: View) {
    match l.format
    case Empty => view == map[]
    case Embed => l.embedded != [] && EmbedUsed(l.embedded) <= INODE_PAYLOAD && ShowsEmbedded(l.embedded, view)
    case HashedFormat =>
      Inv(hash, l.d) && Shows(hash, l.d, view) && Coarse(l.d) && Tight(l.d) && Roomy(l.d) && view != map[]
  }

  class Directory {
    const hash: Name -> Hash64
    var format: Format
    var embedded: seq<DirEntry>
    var d: Hashed
    ghost var view: View

    constructor (hash: Name -> Hash64)
      ensures Valid() && this.hash == hash && view == map[]
    {
      this.hash := hash;
      format := Empty;
      embedded := [];
      d := Hashed(0, 0, [], [], map[]);
      view := map[];
    }

    /** A directory as it is read from its inode and blocks. */
    constructor Load(hash: Name -> Hash64, l: Layout, ghost v: View)
      requires LayoutOk(hash, l, v)
      ensures Valid() && this.hash == hash && view == v && Save() == l
    {
      this.hash := hash;
      format, embedded, d := l.format, l.embedded, l.d;
      view := v;
    }

    function Save(): Layout
      reads this
    {
      Layout(format, embedded, d)
    }

    lemma ValidSaved()
      ensures Valid() <==> LayoutOk(hash, Save(), view)
    {
    }

    /** The hashed form shows v in canonical shape, and its header fits its block. */
    ghost predicate HashedOk(v: View)
      reads this`d
    {
      Inv(hash, d) && Shows(hash, d, v) && Coarse(d) && Tight(d) && Roomy(d)
    }

    ghost predicate Valid()
      reads this
    {
      match format
      case Empty => view == map[]
      case Embed => embedded != [] && EmbedUsed(embedded) <= INODE_PAYLOAD && ShowsEmbedded(embedded, view)
      case HashedFormat => HashedOk(view) && view != map[]
    }

    // --- header and bucket blocks --------------------------------------------------------

    method DhdrWrite(depth: nat, nbuckets: nat, table: seq<nat>, freelist: seq<nat>) returns (ok: bool)
      modifies this`d
      ensures ok == HeaderHolds(|table|, |freelist|)
      ensures d == if ok then old(d).(depth := depth, nbuckets := nbuckets, table := table, freelist := freelist)
                   else old(d)
    {
      if HEADER_HDR + 4 * |table| + 4 * |freelist| > BLOCK {
        return false;
      }
      d := d.(depth := depth, nbuckets := nbuckets, table := table, freelist := freelist);
      return true;
    }

    method BucketWrite(bno: nat, ld: nat, entries: seq<HEntry>)
      requires BucketFits(entries, 0)
      modifies this`d
      ensures d == old(d).(buckets := old(d).buckets[bno := Bucket(ld, entries)])
    {
      d := d.(buckets := d.buckets[bno := Bucket(ld, entries)]);
    }

    // --- reading -----------------------------------------------------------------------------

    method DirFind(name: Name) returns (r: Option<DirEntry>)
      requires Valid()
      ensures r.Some? <==> name in view
      ensures r.Some? ==> r.value == DirEntry(view[name].ino, view[name].ftype, name)
    {
      match format
      case Empty => return None;
      case Embed =>
        for i := 0 to |embedded|
          invariant forall k :: 0 <= k < i ==> embedded[k].name != name
        {
          if embedded[i].name == name {
            return Some(embedded[i]);
          }
        }
        return None;
      case HashedFormat =>
        r := HashedFind(name, view);
    }

    /** Two block reads: the header, then the bucket the hash selects. */
    method HashedFind(name: Name, ghost v: View) returns (r: Option<DirEntry>)
      requires HashedOk(v)
      ensures r.Some? <==> name in v
      ensures r.Some? ==> r.value == DirEntry(v[name].ino, v[name].ftype, name)
    {
      var h := hash(name);
      var bno := d.table[Index(h, d.depth)];
      var k := FindInBucket(bno, h, name, v);
      if k.None? {
        return None;
      }
      var e := d.buckets[bno].entries[k.value];
      return Some(DirEntry(e.ino, e.ftype, e.name));
    }

    /** Scan a bucket, comparing the cached hash and then the name. */
    method FindInBucket(bno: nat, h: Hash64, name: Name, ghost v: View) returns (k: Option<nat>)
      requires HashedOk(v) && h == hash(name) && bno == Home(hash, d, name)
      ensures k.Some? <==> name in v
      ensures Live(d, bno)
      ensures k.Some? ==> k.value < |d.buckets[bno].entries|
      ensures k.Some? ==> var e := d.buckets[bno].entries[k.value]; e.name == name && e.ToRef() == v[name]
    {
      hide Coarse, Tight, Grouped, BucketsOk, Index;
      assert Live(d, bno);
      var entries := d.buckets[bno].entries;
      for i := 0 to |entries|
        invariant forall x :: 0 <= x < i ==> entries[x].name != name
      {
        assert PlacedAt(hash, d, bno, entries[i]);
        if entries[i].hash == h && entries[i].name == name {
          return Some(i);
        }
      }
      assert !HasName(entries, name);
      return None;
    }

    /** All entries, bucket by bucket; readdir order is left to the caller. */
    method DirList() returns (out: seq<DirEntry>)
      requires Valid()
      ensures ShowsEmbedded(out, view)
    {
      match format
      case Empty => out := [];
      case Embed => out := embedded;
      case HashedFormat => out := HashedList();
    }

    method HashedList() returns (out: seq<DirEntry>)
      requires HashedOk(view)
      ensures ShowsEmbedded(out, view)
    {
      hide Inv, Shows, Coarse, Tight;
      out := [];
      for b := 0 to d.nbuckets
        invariant Collected(out, b)
      {
        if b !in d.freelist {
          out := ListBucket(out, b);
        } else {
          NoHomeInFreelist(hash, d, b);
        }
      }
      HomeBelow(hash, d);
    }

    /** out lists exactly the entries of the buckets below b. */
    ghost predicate Collected(out: seq<DirEntry>, b: nat)
      requires HashedOk(view)
      reads this
    {
      && (forall i, j :: 0 <= i < j < |out| ==> out[i].name != out[j].name)
      && (forall i :: 0 <= i < |out| ==> out[i].name in view && view[out[i].name] == Ref(out[i].ino, out[i].ftype))
      && (forall i :: 0 <= i < |out| ==> Home(hash, d, out[i].name) < b)
      && (forall n :: n in view && Home(hash, d, n) < b ==> exists i :: 0 <= i < |out| && out[i].name == n)
    }

    method ListBucket(soFar: seq<DirEntry>, b: nat) returns (out: seq<DirEntry>)
      requires HashedOk(view) && Live(d, b) && Collected(soFar, b)
      ensures Collected(out, b + 1)
    {
      hide HashedOk, Inv, Collected;
      var entries := BucketOf(b);
      var listed := [];
      for k := 0 to |entries|
        invariant |listed| == k
        invariant forall i :: 0 <= i < k ==> listed[i] == ToDirEntry(entries[i])
      {
        listed := listed + [DirEntry(entries[k].ino, entries[k].ftype, entries[k].name)];
      }
      out := soFar + listed;
      CollectedMore(soFar, listed, b);
    }

    function BucketOf(b: nat): seq<HEntry>
      requires HashedOk(view) && Live(d, b)
      reads this
    {
      d.buckets[b].entries
    }

    lemma CollectedMore(soFar: seq<DirEntry>, listed: seq<DirEntry>, b: nat)
      requires HashedOk(view) && Live(d, b) && Collected(soFar, b)
      requires |listed| == |d.buckets[b].entries|
      requires forall i :: 0 <= i < |listed| ==> listed[i] == ToDirEntry(d.buckets[b].entries[i])
      ensures Collected(soFar + listed, b + 1)
    {
      hide Coarse, Tight, Grouped, Index, Used, Pow2, Distinct;
      var out, entries := soFar + listed, d.buckets[b].entries;
      assert DistinctNames(entries);
      forall i | 0 <= i < |listed|
        ensures listed[i].name in view && view[listed[i].name] == Ref(listed[i].ino, listed[i].ftype)
        ensures Home(hash, d, listed[i].name) == b
      {
        assert PlacedAt(hash, d, b, entries[i]);
      }
      forall n | n in view && Home(hash, d, n) < b + 1
        ensures exists i :: 0 <= i < |out| && out[i].name == n
      {
        if Home(hash, d, n) == b {
          var k :| 0 <= k < |entries| && entries[k].name == n;
          assert out[|soFar| + k].name == n;
        } else {
          var k :| 0 <= k < |soFar| && soFar[k].name == n;
          assert out[k].name == n;
        }
      }
    }

    // --- inserting ---------------------------------------------------------------------------

    /** Insert an entry, converting to the hashed form when the inode payload overflows. */
    method DirInsert(entry: DirEntry) returns (r: Result<(), DirError>)
      requires Valid() && entry.ino != 0 && |entry.name| <= MAX_NAME
      modifies this
      ensures r == Err(AlreadyExists) <==> entry.name in old(view)
      ensures r.Ok? ==> Valid() && view == old(view)[entry.name := Ref(entry.ino, entry.ftype)]
      ensures r.Err? ==> r.error in {AlreadyExists, DepthLimit}
      ensures r == Err(DepthLimit) <==> entry.name !in old(view) && Crowded(hash, old(view), entry.name)
      ensures r.Ok? ==> (format == HashedFormat <==> old(format) == HashedFormat || !EmbedHolds(old(format), old(embedded), entry.name))
    {
      hide HashedOk, Crowded, ShowsEmbedded, EntrySize;
      var present := DirFind(entry.name);
      if present.Some? {
        return Err(AlreadyExists);
      }
      if format != HashedFormat {
        if format == Empty {
          format := Embed;
          embedded := [];
          NothingEmbedded();
        }
        if EmbedUsed(embedded) + 10 + 2 * |entry.name| <= INODE_PAYLOAD {
          EmbedUsedOne(embedded, entry);
          EmbeddedNotCrowded(hash, embedded, view, entry.name);
          ShowsEmbeddedAppend(embedded, view, entry);
          embedded := embedded + [entry];
          view := view[entry.name := Ref(entry.ino, entry.ftype)];
          return Ok(());
        }
        // the payload has no room for one more: the entries go to buckets
        DirToHashed();
      }
      r := HashedInsert(entry, view);
      if r.Ok? {
        OkWasNotCrowded(view, entry);
        view := view[entry.name := Ref(entry.ino, entry.ftype)];
        assert entry.name in view;
      }
    }

    lemma OkWasNotCrowded(v: View, entry: DirEntry)
      requires entry.name !in v && HashedOk(v[entry.name := Ref(entry.ino, entry.ftype)])
      ensures !Crowded(hash, v, entry.name)
    {
      AddedWasNotCrowded(hash, d, v, entry.name, Ref(entry.ino, entry.ftype));
    }

    /** Spread the embedded entries over a fresh header and one bucket. */
    method DirToHashed()
      requires format == Embed && EmbedUsed(embedded) <= INODE_PAYLOAD && ShowsEmbedded(embedded, view)
      modifies this`format, this`embedded, this`d
      ensures format == HashedFormat && HashedOk(view)
    {
      var entries := embedded;
      format := HashedFormat;
      embedded := [];
      hide HashedOk, EmbeddedView, Used, EmbedUsed, ShowsEmbedded;
      FreshBlocks();
      assert entries[..0] == [];
      NothingEmbedded();
      for i := 0 to |entries|
        invariant format == HashedFormat && HashedOk(EmbeddedView(entries[..i])) && OneBucketOnly(d)
        invariant Used(d.buckets[0].entries) <= 3 * EmbedUsed(entries[..i])
      {
        EmbedStep(entries, i, view);
        InsertSmall(entries[i], EmbeddedView(entries[..i]));
      }
      assert entries[..|entries|] == entries;
      EmbeddedViewIsView(entries, view);
    }

    /** A depth-0 header and one empty bucket. */
    method FreshBlocks()
      modifies this`d
      ensures HashedOk(map[]) && OneBucketOnly(d) && Used(d.buckets[0].entries) == 0
    {
      d := Hashed(0, 1, [0], [], map[0 := Bucket(0, [])]);
      FreshIsOk(hash, d);
    }

    /** While everything fits one bucket, inserting just appends to it. */
    method InsertSmall(e: DirEntry, ghost v: View)
      requires HashedOk(v) && e.name !in v && OneBucketOnly(d)
      requires Used(d.buckets[0].entries) <= 3 * INODE_PAYLOAD && 2 * |e.name| <= INODE_PAYLOAD
      modifies this`d
      ensures HashedOk(v[e.name := Ref(e.ino, e.ftype)]) && OneBucketOnly(d)
      ensures Used(d.buckets[0].entries) <= Used(old(d).buckets[0].entries) + 3 * (10 + 2 * |e.name|)
    {
      OneBucket(hash, d, e.name);
      GrownUsed(d.buckets[0].entries, HEntry(e.ino, hash(e.name), e.ftype, e.name));
      var r := HashedInsert(e, v);
    }

    /** Insert into the bucket the hash selects, splitting until the entry fits. */
    method HashedInsert(entry: DirEntry, ghost v: View) returns (r: Result<(), DirError>)
      requires HashedOk(v) && entry.name !in v
      modifies this`d
      ensures r.Ok? ==> HashedOk(v[entry.name := Ref(entry.ino, entry.ftype)])
      ensures r.Err? ==> r.error == DepthLimit && Crowded(hash, v, entry.name)
      ensures var b := Home(hash, old(d), entry.name);
        BucketFits(old(d).buckets[b].entries, EntrySize(entry.name)) ==>
          r.Ok? && d == WithEntries(old(d), b, old(d).buckets[b].entries
                                               + [HEntry(entry.ino, hash(entry.name), entry.ftype, entry.name)])
    {
      var h := hash(entry.name);
      var new_entry := HEntry(entry.ino, h, entry.ftype, entry.name);
      while true
        invariant Inv(hash, d) && Shows(hash, d, v) && Tight(d) && Roomy(d)
        invariant CoarseBut(d, Home(hash, d, entry.name), EntrySize(entry.name))
        invariant BucketFits(old(d).buckets[Home(hash, old(d), entry.name)].entries, EntrySize(entry.name)) ==> d == old(d)
        decreases MAX_DEPTH - d.buckets[Home(hash, d, entry.name)].ld
      {
        var bno := d.table[Index(h, d.depth)];
        var entries, ld := d.buckets[bno].entries, d.buckets[bno].ld;
        TargetFacts(hash, d, entry.name);
        if BucketFits(entries, EntrySize(entry.name)) {
          AddEntry(hash, d, new_entry, v);
          FilledCoarse(d, bno, new_entry);
          WithEntriesTight(d, bno, entries + [new_entry]);
          GrownUsed(entries, new_entry);
          BucketWrite(bno, ld, entries + [new_entry]);
          return Ok(());
        }
        if ld == d.depth && d.depth >= MAX_DEPTH {
          FullBucketIsCrowded(hash, d, v, entry.name);
          return Err(DepthLimit);
        }
        SplitBucket(bno, v, entry.name);
      }
    }

    /** Split a bucket by its next hash bit, doubling the table if it is at full depth. The header always has room. */
    method SplitBucket(bno: nat, ghost v: View, ghost name: Name)
      requires Inv(hash, d) && Shows(hash, d, v) && Tight(d) && Roomy(d) && bno == Home(hash, d, name)
      requires CoarseBut(d, bno, EntrySize(name)) && !BucketFits(d.buckets[bno].entries, EntrySize(name))
      requires d.buckets[bno].ld < MAX_DEPTH && d.buckets[bno].ld <= d.depth
      modifies this`d
      ensures Inv(hash, d) && Shows(hash, d, v) && Tight(d) && CoarseBut(d, Home(hash, d, name), EntrySize(name))
      ensures Roomy(d)
      ensures d.buckets[Home(hash, d, name)].ld == old(d).buckets[bno].ld + 1
    {
      hide Shows, Tight, CoarseBut, Index, Used, Half, EntrySize, SplitAt, Grouped, Placed, BucketsOk, Numbering, Pow2;
      TargetFacts(hash, d, name);
      SplitKeepsAll(hash, d, v, name);
      ghost var was := d;
      SplitFits(d, if d.buckets[bno].ld == d.depth then d.depth + 1 else d.depth, if d.freelist == [] then 0 else |d.freelist| - 1);
      SplitBlocks(bno);
      SplitStaysRoomy(was, d);
    }

    method SplitBlocks(bno: nat)
      requires bno in d.buckets && d.buckets[bno].ld <= d.depth <= MAX_DEPTH && d.buckets[bno].ld < MAX_DEPTH
      requires BucketFits(d.buckets[bno].entries, 0)
      requires HeaderHolds(if d.buckets[bno].ld == d.depth then 2 * |d.table| else |d.table|,
                           if d.freelist == [] then 0 else |d.freelist| - 1)
      modifies this`d
      ensures d == SplitAt(if old(d).buckets[bno].ld == old(d).depth then Doubled(old(d)) else old(d), bno)
      ensures d.nbuckets == old(d).nbuckets || d.freelist == []
      ensures HeaderHolds(|d.table|, |d.freelist|)
    {
      hide Used, Half, Shr, Pow2;
      var entries, ld := d.buckets[bno].entries, d.buckets[bno].ld;
      var depth, table := d.depth, d.table;
      if ld == depth {
        depth := depth + 1;
        table := DoubleTable(table);
      }
      // a number given back by a merge is used up before new ones
      var new_bno, new_count, freelist := d.nbuckets, d.nbuckets + 1, d.freelist;
      if |freelist| > 0 {
        new_bno, new_count := freelist[|freelist| - 1], d.nbuckets;
        freelist := freelist[..|freelist| - 1];
      }
      var stay, go := Partition(entries, ld);
      BucketWrite(bno, ld + 1, stay);
      BucketWrite(new_bno, ld + 1, go);
      table := RelabelSplit(table, bno, new_bno, depth - 1 - ld);
      var ok := DhdrWrite(depth, new_count, table, freelist);
      assert ok;
    }

    // --- removing -----------------------------------------------------------------------------

    /**
    Buddy-merge until nothing fits, halving the table whenever every pair of slots agrees. After a name
    has gone it works exactly when the header has room for the bucket numbers that come back.
    */
    method TryMerge(ghost v: View, ghost name: Name) returns (r: Result<(), DirError>)
      requires Inv(hash, d) && Shows(hash, d, v) && Roomy(d) && MergesAt(d, Home(hash, d, name))
      modifies this`d
      ensures r.Ok? ==> HashedOk(v)
      ensures r.Err? ==> r.error == HeaderOverflow
      ensures r.Ok? <==> RemovalFits(hash, old(d), v, name)
      ensures r.Ok? ==> d.nbuckets == old(d).nbuckets
    {
      hide Inv, Shows, Tight, Index, Used, Pow2, Grouped, MergesAt, Coarse, MergeDepth, MergeState, RemovalFits, Roomy, Numbering;
      MergeStart(hash, d, v, name);
      ghost var merging := true;
      while true
        invariant Inv(hash, d) && Numbering(d) && Grouped(d) && Shows(hash, d, v) && Roomy(d)
        invariant merging ==> MergeState(hash, old(d), d, v, name)
        invariant !merging ==> Coarse(d) && RemovalFits(hash, old(d), v, name)
        invariant d.nbuckets == old(d).nbuckets
        decreases d.nbuckets - |d.freelist| + d.depth
      {
        FewerFree(d);
        if d.depth == 0 {
          ShallowIsCanonical(hash, d);
          if merging {
            MergesDone(hash, old(d), d, v, name);
          }
          return Ok(());
        }
        ghost var was := d;
        var acted, ok, at := MergeOnce(v);
        if acted {
          assert merging by {
            if !merging {
              NotWhenCoarse(was, at);
            }
          }
          MergeStep(hash, old(d), was, v, name, at);
        }
        if !ok {
          return Err(HeaderOverflow);
        }
        if acted {
          MergeStateFacts(hash, old(d), d, v, name);
          MergedSizes(was, at);
          continue;
        }
        if merging {
          MergesDone(hash, old(d), d, v, name);
          merging := false;
        }
        EvenTable(d);
        var halvable, halved := HalveTable(d.table);
        if halvable {
          HalvedInv(hash, d, v);
          HalvedCoarse(d);
          HalvedRoomy(d);
          ok := DhdrWrite(d.depth - 1, d.nbuckets, halved, d.freelist);
          assert d == Halved(was);
          continue;
        }
        NotHalvableIsTight(d);
        return Ok(());
      }
    }

    /** Find the first slot whose bucket and buddy fit one block, and merge them. */
    method MergeOnce(ghost v: View) returns (acted: bool, ok: bool, ghost at: nat)
      requires Inv(hash, d) && Shows(hash, d, v) && d.depth > 0
      modifies this`d
      ensures Numbering(old(d)) && Grouped(old(d)) && (!acted ==> ok && d == old(d) && Coarse(d))
      ensures acted ==> at < |old(d).table| && Mergeable(old(d), at) && ok == HeaderHolds(|old(d).table|, |old(d).freelist| + 1)
      ensures acted && ok ==> d == MergedAt(old(d), at) && Inv(hash, d) && Shows(hash, d, v)
    {
      hide Shows, Index, Used, Grouped, Placed, FlipBit;
      InvShape(hash, d);
      for idx := 0 to |d.table|
        invariant d == old(d) && forall x: nat :: x < idx ==> !Mergeable(d, x)
      {
        GroupedFact(d, idx, idx);
        var bno := d.table[idx];
        var entries, ld := d.buckets[bno].entries, d.buckets[bno].ld;
        if ld == 0 {
          continue;
        }
        var buddy := FlipBit(idx, d.depth - ld);
        FlipBound(idx, d.depth - ld, d.depth);
        var bno2 := d.table[buddy];
        if bno2 == bno {
          BuddyDiffers(d, idx);
          continue;
        }
        var entries2, ld2 := d.buckets[bno2].entries, d.buckets[bno2].ld;
        if ld2 != ld || !BucketFits(entries, Used(entries2)) {
          continue;
        }
        ok := MergeAt(idx, buddy, v);
        return true, ok, idx;
      }
      return false, true, 0;
    }

    /** Append the buddy's entries, put its number on the freelist, and write the header. */
    method MergeAt(idx: nat, buddy: nat, ghost v: View) returns (ok: bool)
      requires Inv(hash, d) && Shows(hash, d, v) && idx < |d.table| && Mergeable(d, idx) && buddy == BuddySlot(d, idx)
      modifies this`d
      ensures ok == HeaderHolds(|old(d).table|, |old(d).freelist| + 1)
      ensures ok ==> d == MergedAt(old(d), idx) && Inv(hash, d) && Shows(hash, d, v)
    {
      hide Shows, Index, Used, Grouped, Placed, FlipBit;
      var bno, bno2 := d.table[idx], d.table[buddy];
      var entries, entries2, ld := d.buckets[bno].entries, d.buckets[bno2].entries, d.buckets[bno].ld;
      MergedInv(hash, d, idx, v);
      UsedAppend(entries, entries2);
      BucketWrite(bno, ld - 1, entries + entries2);
      EmptyFits();
      BucketWrite(bno2, 0, []);
      var table := RelabelMerge(d.table, bno2, bno);
      ok := DhdrWrite(d.depth, d.nbuckets, table, d.freelist + [bno2]);
      assert ok ==> d == MergedAt(old(d), idx);
    }

    /** Remove an entry by name and return it. */
    method DirRemove(name: Name) returns (r: Result<DirEntry, DirError>)
      requires Valid()
      modifies this
      ensures r == Err(NotFound) <==> name !in old(view)
      ensures r.Ok? ==> Valid() && view == old(view) - {name}
      ensures r.Ok? ==> r.value == DirEntry(old(view)[name].ino, old(view)[name].ftype, name)
      ensures r.Err? ==> r.error in {NotFound, HeaderOverflow}
      ensures r == Err(HeaderOverflow) <==>
        old(format) == HashedFormat && name in old(view) && !RemovalFits(hash, old(d), old(view) - {name}, name)
      ensures r.Ok? && format == HashedFormat ==> old(format) == HashedFormat && d.nbuckets == old(d).nbuckets
      ensures r.Ok? ==> format == if view == map[] then Empty else old(format)
    {
      match format
      case Empty => return Err(NotFound);
      case Embed =>
        r := EmbedRemove(name);
      case HashedFormat =>
        hide HashedOk;
        r := HashedRemove(name);
        if r.Err? {
          return;
        }
        view := view - {name};
        var left := HashedList();
        if |left| == 0 {
          // what is left fits the payload again: no bucket is needed
          format := Empty;
          d := Hashed(0, 0, [], [], map[]);
          assert view == map[];
        } else {
          assert left[0].name in view;
        }
    }

    /** Remove from the bucket the hash selects, then merge what now fits. */
    method HashedRemove(name: Name) returns (r: Result<DirEntry, DirError>)
      requires HashedOk(view)
      modifies this`d
      ensures r == Err(NotFound) <==> name !in view
      ensures r.Ok? ==> HashedOk(view - {name}) && r.value == DirEntry(view[name].ino, view[name].ftype, name)
      ensures r.Err? ==> r.error in {NotFound, HeaderOverflow}
      ensures r == Err(HeaderOverflow) <==> name in view && !RemovalFits(hash, old(d), view - {name}, name)
      ensures r.Ok? ==> d.nbuckets == old(d).nbuckets
    {
      hide Coarse, Tight, Grouped, Index, Used, Removed, Placed, MergesAt, RemovalFits, Roomy, Pow2, Distinct;
      var h := hash(name);
      var bno := d.table[Index(h, d.depth)];
      var k := FindInBucket(bno, h, name, view);
      if k.None? {
        return Err(NotFound);
      }
      var entries := d.buckets[bno].entries;
      var removed := entries[k.value];
      RemoveEntry(hash, d, bno, k.value, view);
      RemovedFacts(entries, k.value);
      RemovedMergesAt(d, bno, Removed(entries, k.value));
      SameShapeFits(hash, d, bno, Removed(entries, k.value), view - {name}, name);
      BucketWrite(bno, d.buckets[bno].ld, Removed(entries, k.value));
      var merged := TryMerge(view - {name}, name);
      if merged.Err? {
        return Err(merged.error);
      }
      return Ok(DirEntry(removed.ino, removed.ftype, removed.name));
    }

    /** Repack the payload without the entry. */
    method EmbedRemove(name: Name) returns (r: Result<DirEntry, DirError>)
      requires Valid() && format == Embed
      modifies this
      ensures r == Err(NotFound) <==> name !in old(view)
      ensures r.Ok? ==> Valid() && view == old(view) - {name}
      ensures r.Ok? ==> r.value == DirEntry(old(view)[name].ino, old(view)[name].ftype, name)
      ensures r.Err? ==> r.error == NotFound
      ensures format == if view == map[] then Empty else Embed
    {
      for i := 0 to |embedded|
        invariant forall k :: 0 <= k < i ==> embedded[k].name != name
      {
        if embedded[i].name == name {
          var removed := embedded[i];
          RepackFacts(embedded, i, view);
          embedded := embedded[..i] + embedded[i + 1..];
          view := view - {name};
          if embedded == [] {
            format := Empty;
          }
          return Ok(removed);
        }
      }
      return Err(NotFound);
    }

    // --- checking -----------------------------------------------------------------------------

    /** The structural directory check of fsck: every layout these operations leave passes it. */
    method DirCheck() returns (problems: nat)
      requires forall b: nat :: b < d.nbuckets ==> b in d.buckets
      requires d.depth <= MAX_DEPTH && |d.table| == Pow2(d.depth)
      ensures problems == 0 <==> CheckClean(hash, d)
      ensures Inv(hash, d) ==> problems == 0
    {
      problems := 0;
      for i := 0 to |d.table|
        invariant problems == 0 <==> forall x :: 0 <= x < i ==> Live(d, d.table[x])
      {
        if d.table[i] >= d.nbuckets {
          problems := problems + 1;
        }
        if d.table[i] in d.freelist {
          problems := problems + 1;
        }
      }
      for i := 0 to |d.freelist|
        invariant problems == 0 <==>
          (forall x :: 0 <= x < |d.table| ==> Live(d, d.table[x])) && forall x :: 0 <= x < i ==> d.freelist[x] < d.nbuckets
      {
        if d.freelist[i] >= d.nbuckets {
          problems := problems + 1;
        }
      }
      for b := 0 to d.nbuckets
        invariant problems == 0 <==>
          && (forall x :: 0 <= x < |d.table| ==> Live(d, d.table[x]))
          && (forall x :: 0 <= x < |d.freelist| ==> d.freelist[x] < d.nbuckets)
          && (forall c: nat :: c < b && Live(d, c) ==> BucketClean(hash, d, c))
      {
        if b !in d.freelist {
          var bad := CheckBucket(b);
          problems := problems + bad;
        }
      }
      if Inv(hash, d) {
        CleanWhenOk(hash, d);
      }
    }

    method CheckBucket(b: nat) returns (problems: nat)
      requires b in d.buckets && d.depth <= MAX_DEPTH && |d.table| == Pow2(d.depth)
      ensures problems == 0 <==> BucketClean(hash, d, b)
    {
      var entries, ld := d.buckets[b].entries, d.buckets[b].ld;
      problems := if ld > d.depth then 1 else 0;
      for k := 0 to |entries|
        invariant problems == 0 <==> ld <= d.depth && forall x :: 0 <= x < k ==> EntryClean(hash, d, b, entries[x])
      {
        var h := hash(entries[k].name);
        if h != entries[k].hash {
          problems := problems + 1;
        }
        if d.table[Index(h, d.depth)] != b {
          problems := problems + 1;
        }
      }
    }
  }

  // --- embedded entries -------------------------------------------------------------------------

  ghost function EmbeddedNames(es: seq<DirEntry>): set<Name> {
    set i | 0 <= i < |es| :: es[i].name
  }

  lemma {:induction false} EmbeddedSizes(es: seq<DirEntry>)
    ensures SumSizes(EmbeddedNames(es)) <= 3 * EmbedUsed(es)
  {
    if es == [] {
      assert EmbeddedNames(es) == {};
    } else {
      var init, last := es[..|es| - 1], es[|es| - 1].name;
      EmbeddedSizes(init);
      assert EmbeddedNames(es) == EmbeddedNames(init) + {last} by {
        assert es == init + [es[|es| - 1]];
        assert forall i :: 0 <= i < |init| ==> init[i] == es[i];
      }
      if last in EmbeddedNames(init) {
        assert EmbeddedNames(es) == EmbeddedNames(init);
      } else {
        SumRemove(EmbeddedNames(es), last);
        assert EmbeddedNames(es) - {last} == EmbeddedNames(init);
      }
    }
  }

  /** Entries that fit the payload leave room for any name in a block. */
  lemma EmbeddedNotCrowded(hash: Name -> Hash64, es: seq<DirEntry>, view: View, name: Name)
    requires EmbedUsed(es) <= INODE_PAYLOAD && ShowsEmbedded(es, view) && |name| <= MAX_NAME
    ensures !Crowded(hash, view, name)
  {
    hide Index, EmbedUsed;
    var shared := PrefixNames(hash, view, MAX_DEPTH, Index(hash(name), MAX_DEPTH));
    EmbeddedSizes(es);
    SumMono(shared, EmbeddedNames(es));
  }

  // --- the loops over tables and entries --------------------------------------------------------

  method DoubleTable(table: seq<nat>) returns (bigger: seq<nat>)
    ensures bigger == DoubledTable(table)
  {
    bigger := [];
    for k := 0 to |table|
      invariant |bigger| == 2 * k
      invariant forall i :: 0 <= i < 2 * k ==> bigger[i] == table[i / 2]
    {
      bigger := bigger + [table[k]] + [table[k]];
    }
  }

  /** All adjacent pairs agree, and the table keeping one of each. */
  method HalveTable(table: seq<nat>) returns (agree: bool, halved: seq<nat>)
    requires |table| % 2 == 0
    ensures agree <==> forall p :: 0 <= p < |table| / 2 ==> table[2 * p] == table[2 * p + 1]
    ensures halved == HalvedTable(table)
  {
    agree, halved := true, [];
    for k := 0 to |table| / 2
      invariant |halved| == k
      invariant forall p :: 0 <= p < k ==> halved[p] == table[2 * p]
      invariant agree <==> forall p :: 0 <= p < k ==> table[2 * p] == table[2 * p + 1]
    {
      agree := agree && table[2 * k] == table[2 * k + 1];
      halved := halved + [table[2 * k]];
    }
  }

  method Partition(entries: seq<HEntry>, ld: nat) returns (stay: seq<HEntry>, go: seq<HEntry>)
    requires ld < 64 && BucketFits(entries, 0)
    ensures stay == Half(entries, ld, false) && go == Half(entries, ld, true)
    ensures BucketFits(stay, 0) && BucketFits(go, 0)
  {
    stay, go := [], [];
    for k := 0 to |entries|
      invariant stay == Half(entries[..k], ld, false) && go == Half(entries[..k], ld, true)
    {
      assert entries[..k + 1][..k] == entries[..k];
      if Shr(entries[k].hash, 63 - ld) % 2 == 0 {
        stay := stay + [entries[k]];
      } else {
        go := go + [entries[k]];
      }
    }
    assert entries[..|entries|] == entries;
    HalvesUsed(entries, ld);
  }

  /** Redirect the slots of bno whose bit k is set. */
  method RelabelSplit(table: seq<nat>, bno: nat, new_bno: nat, k: nat) returns (r: seq<nat>)
    ensures r == SplitTable(table, bno, new_bno, k)
  {
    r := table;
    for idx := 0 to |table|
      invariant |r| == |table|
      invariant forall i :: 0 <= i < idx ==> r[i] == if table[i] == bno && Shr(i, k) % 2 == 1 then new_bno else table[i]
      invariant forall i :: idx <= i < |table| ==> r[i] == table[i]
    {
      if r[idx] == bno && Shr(idx, k) % 2 == 1 {
        r := r[idx := new_bno];
      }
    }
  }

  method RelabelMerge(table: seq<nat>, from: nat, to: nat) returns (r: seq<nat>)
    ensures r == MergedTable(table, from, to)
  {
    r := table;
    for idx := 0 to |table|
      invariant |r| == |table|
      invariant forall x :: 0 <= x < idx ==> r[x] == if table[x] == from then to else table[x]
      invariant forall x :: idx <= x < |table| ==> r[x] == table[x]
    {
      if r[idx] == from {
        r := r[idx := to];
      }
    }
  }

  // --- lemmas -------------------------------------------------------------------------------------

  predicate EntryClean(hash: Name -> Hash64, d: Hashed, b: nat, e: HEntry)
    requires d.depth <= MAX_DEPTH && |d.table| == Pow2(d.depth)
  {
    hash(e.name) == e.hash && d.table[Index(hash(e.name), d.depth)] == b
  }

  ghost predicate BucketClean(hash: Name -> Hash64, d: Hashed, b: nat)
    requires b in d.buckets && d.depth <= MAX_DEPTH && |d.table| == Pow2(d.depth)
  {
    d.buckets[b].ld <= d.depth
    && forall x :: 0 <= x < |d.buckets[b].entries| ==> EntryClean(hash, d, b, d.buckets[b].entries[x])
  }

  /** What the directory check tests. */
  ghost predicate CheckClean(hash: Name -> Hash64, d: Hashed)
    requires forall b: nat :: b < d.nbuckets ==> b in d.buckets
    requires d.depth <= MAX_DEPTH && |d.table| == Pow2(d.depth)
  {
    && (forall x :: 0 <= x < |d.table| ==> Live(d, d.table[x]))
    && (forall x :: 0 <= x < |d.freelist| ==> d.freelist[x] < d.nbuckets)
    && (forall c: nat :: c < d.nbuckets && Live(d, c) ==> BucketClean(hash, d, c))
  }

  /** The bucket that a name's hash selects has an entry of that hash and name: what a lookup goes by. */
  ghost predicate Findable(hash: Name -> Hash64, d: Hashed, name: Name)
    requires d.depth <= MAX_DEPTH && |d.table| == Pow2(d.depth)
  {
    var b := d.table[Index(hash(name), d.depth)];
    b in d.buckets && exists k :: 0 <= k < |d.buckets[b].entries| && d.buckets[b].entries[k].name == name && d.buckets[b].entries[k].hash == hash(name)
  }

  /** What passing the check means: no listed entry is lost, a lookup of its name finds it. */
  lemma CleanFinds(hash: Name -> Hash64, d: Hashed, b: nat, k: nat)
    requires forall c: nat :: c < d.nbuckets ==> c in d.buckets
    requires d.depth <= MAX_DEPTH && |d.table| == Pow2(d.depth) && CheckClean(hash, d)
    requires Live(d, b) && k < |d.buckets[b].entries|
    ensures Findable(hash, d, d.buckets[b].entries[k].name)
  {
    hide Index;
    assert BucketClean(hash, d, b) && EntryClean(hash, d, b, d.buckets[b].entries[k]);
  }

  /** What the check does not look at: repeated numbers, buckets no slot leads to, how slots are shared, full blocks and repeated names. */
  ghost predicate Untested(d: Hashed)
    requires forall i :: 0 <= i < |d.table| ==> d.table[i] in d.buckets && LocalDepth(d, i) <= d.depth
    requires forall b: nat :: b < d.nbuckets ==> b in d.buckets
  {
    && Distinct(d.freelist) && (forall b: nat :: Live(d, b) ==> b in d.table)
    && (forall i: nat, j: nat :: i < |d.table| && j < |d.table| ==>
          (d.table[i] == d.table[j] <==> Shr(i, d.depth - LocalDepth(d, i)) == Shr(j, d.depth - LocalDepth(d, i))))
    && forall b: nat :: Live(d, b) ==> BucketFits(d.buckets[b].entries, 0) && DistinctNames(d.buckets[b].entries)
  }

  /** Passing is the invariant but for exactly that. */
  lemma CleanIsInvButFor(hash: Name -> Hash64, d: Hashed)
    requires forall c: nat :: c < d.nbuckets ==> c in d.buckets
    requires d.depth <= MAX_DEPTH && |d.table| == Pow2(d.depth) && CheckClean(hash, d)
    ensures forall i :: 0 <= i < |d.table| ==> d.table[i] in d.buckets && LocalDepth(d, i) <= d.depth
    ensures Inv(hash, d) <==> Untested(d)
  {
    hide Index, Shr, Used;
    forall i | 0 <= i < |d.table| ensures d.table[i] in d.buckets && LocalDepth(d, i) <= d.depth {
      assert Live(d, d.table[i]) && BucketClean(hash, d, d.table[i]);
    }
    if Untested(d) {
      assert Numbering(d);
      forall b: nat, k: nat | Live(d, b) && k < |d.buckets[b].entries| ensures PlacedAt(hash, d, b, d.buckets[b].entries[k]) {
        assert BucketClean(hash, d, b) && EntryClean(hash, d, b, d.buckets[b].entries[k]);
      }
      assert Grouped(d);
    }
    if Inv(hash, d) {
      forall i: nat, j: nat | i < |d.table| && j < |d.table|
        ensures d.table[i] == d.table[j] <==> Shr(i, d.depth - LocalDepth(d, i)) == Shr(j, d.depth - LocalDepth(d, i))
      {
        GroupedFact(d, i, j);
      }
    }
  }

  lemma CleanWhenOk(hash: Name -> Hash64, d: Hashed)
    requires Inv(hash, d)
    ensures CheckClean(hash, d)
  {
    hide Index, Grouped;
    forall c: nat | Live(d, c) ensures BucketClean(hash, d, c) {
      var i: nat :| i < |d.table| && d.table[i] == c;
      GroupedFact(d, i, i);
      forall x | 0 <= x < |d.buckets[c].entries| ensures EntryClean(hash, d, c, d.buckets[c].entries[x]) {
        assert PlacedAt(hash, d, c, d.buckets[c].entries[x]);
      }
    }
  }

  lemma NoHomeInFreelist(hash: Name -> Hash64, d: Hashed, b: nat)
    requires Inv(hash, d) && b in d.freelist
    ensures forall n :: Home(hash, d, n) != b
  {
    hide Index, Grouped;
    forall n ensures Home(hash, d, n) != b {
      assert Live(d, Home(hash, d, n));
    }
  }

  lemma HomeBelow(hash: Name -> Hash64, d: Hashed)
    requires Inv(hash, d)
    ensures forall n :: Home(hash, d, n) < d.nbuckets
  {
    hide Index, Grouped;
    forall n ensures Home(hash, d, n) < d.nbuckets {
      assert Live(d, Home(hash, d, n));
    }
  }

  lemma MergeStart(hash: Name -> Hash64, d: Hashed, v: View, name: Name)
    requires Inv(hash, d) && Shows(hash, d, v) && Roomy(d) && MergesAt(d, Home(hash, d, name))
    ensures Numbering(d) && Grouped(d) && MergeState(hash, d, d, v, name)
  {
    hide Index, Shows, MergesAt, Placed, BucketsOk, MergeDepth;
    var i := Index(hash(name), d.depth);
    GroupedFact(d, i, i);
  }

  lemma MergeStateFacts(hash: Name -> Hash64, d0: Hashed, d: Hashed, v: View, name: Name)
    requires Numbering(d0) && MergeState(hash, d0, d, v, name)
    ensures Inv(hash, d) && Numbering(d) && Grouped(d) && Roomy(d)
  {
  }

  lemma NotWhenCoarse(d: Hashed, i: nat)
    requires Numbering(d) && Grouped(d) && i < |d.table| && Mergeable(d, i)
    ensures !Coarse(d)
  {
  }

  lemma FewerFree(d: Hashed)
    requires Numbering(d)
    ensures |d.freelist| <= d.nbuckets
  {
    FreelistBound(d.freelist, d.nbuckets);
  }

  lemma HalvedRoomy(d: Hashed)
    requires Roomy(d) && d.depth > 0
    ensures Roomy(Halved(d)) && HeaderHolds(|HalvedTable(d.table)|, |d.freelist|)
  {
  }

  lemma SameShapeFits(hash: Name -> Hash64, d: Hashed, b: nat, es: seq<HEntry>, v: View, name: Name)
    requires Inv(hash, d) && Live(d, b) && Roomy(d) && Numbering(WithEntries(d, b, es)) && b == Home(hash, d, name)
    ensures DepthOf(hash, d, name) <= 64 && Roomy(WithEntries(d, b, es)) && b == Home(hash, WithEntries(d, b, es), name)
    ensures RemovalFits(hash, d, v, name) <==> RemovalFits(hash, WithEntries(d, b, es), v, name)
  {
    hide Index, MergeDepth;
    var i := Index(hash(name), d.depth);
    GroupedFact(d, i, i);
  }

  lemma EmptyFits()
    ensures BucketFits([], 0)
  {
  }

  lemma BuddyDiffers(d: Hashed, i: nat)
    requires Numbering(d) && Grouped(d) && i < |d.table| && 0 < LocalDepth(d, i) <= d.depth
    ensures d.table[BuddySlot(d, i)] != d.table[i]
  {
    hide Grouped, Shr, FlipBit;
    FlipFacts(i, d.depth - LocalDepth(d, i));
    GroupedFact(d, i, BuddySlot(d, i));
  }

  lemma ShallowIsCanonical(hash: Name -> Hash64, d: Hashed)
    requires Inv(hash, d) && d.depth == 0
    ensures Coarse(d) && Tight(d)
  {
    forall i: nat | i < |d.table| ensures !Mergeable(d, i) {
      GroupedFact(d, i, i);
    }
  }

  /** The bucket a name hashes to is live, no deeper than the table, and within its block. */
  lemma TargetFacts(hash: Name -> Hash64, d: Hashed, name: Name)
    requires Inv(hash, d)
    ensures var b := Home(hash, d, name);
      Live(d, b) && b in d.buckets && d.buckets[b].ld <= d.depth <= MAX_DEPTH && BucketFits(d.buckets[b].entries, 0)
  {
    hide Index, Grouped;
    var i := Index(hash(name), d.depth);
    assert Live(d, d.table[i]);
    GroupedFact(d, i, i);
  }

  lemma GrownUsed(es: seq<HEntry>, e: HEntry)
    ensures Used(es + [e]) == Used(es) + EntrySize(e.name)
  {
    UsedAppend(es, [e]);
    UsedOne(e);
  }

  /** One round of doubling if needed, then splitting, keeps everything the insert loop relies on. */
  lemma SplitKeepsAll(hash: Name -> Hash64, d: Hashed, v: View, name: Name)
    requires Inv(hash, d) && Shows(hash, d, v) && Tight(d)
    requires var b := Home(hash, d, name);
      && CoarseBut(d, b, EntrySize(name)) && !BucketFits(d.buckets[b].entries, EntrySize(name))
      && d.buckets[b].ld < MAX_DEPTH && d.buckets[b].ld <= d.depth
    ensures var b := Home(hash, d, name);
      var base := if d.buckets[b].ld == d.depth then Doubled(d) else d;
      && b in base.buckets && base.buckets[b].ld < base.depth <= MAX_DEPTH
      && var r := SplitAt(base, b);
      && Inv(hash, r) && Shows(hash, r, v) && Tight(r)
      && CoarseBut(r, Home(hash, r, name), EntrySize(name))
      && r.buckets[Home(hash, r, name)].ld == d.buckets[b].ld + 1
  {
    hide Index, Used, Half, EntrySize, Shows, Placed, BucketsOk, CoarseBut, Grouped, Tight;
    var b := Home(hash, d, name);
    TargetFacts(hash, d, name);
    var base := d;
    if d.buckets[b].ld == d.depth {
      base := Doubled(d);
      DoubledInv(hash, d, v);
      DoubledCoarseBut(d, b, EntrySize(name));
    }
    TargetFacts(hash, base, name);
    SplitInv(hash, base, b, v);
    SplitHome(base, b, hash(name));
    SplitCoarseBut(base, b, Home(hash, SplitAt(base, b), name), EntrySize(name));
    SplitTight(base, b);
    NewBucketIsFree(base);
  }

  lemma FreshIsOk(hash: Name -> Hash64, d: Hashed)
    requires d == Hashed(0, 1, [0], [], map[0 := Bucket(0, [])])
    ensures Inv(hash, d) && Shows(hash, d, map[]) && Coarse(d) && Tight(d)
  {
    assert Numbering(d);
    forall i: nat, j: nat | i < |d.table| && j < |d.table| ensures GroupedAt(d, i, j) {
      assert i == 0 && j == 0;
    }
    ShallowIsCanonical(hash, d);
  }

  predicate OneBucketOnly(d: Hashed) {
    d.nbuckets == 1 && 0 in d.buckets
  }

  lemma OneBucket(hash: Name -> Hash64, d: Hashed, n: Name)
    requires Inv(hash, d) && d.nbuckets == 1
    ensures Home(hash, d, n) == 0
  {
    hide Index, Grouped;
    assert Live(d, Home(hash, d, n));
  }

  // --- embedded entries -----------------------------------------------------------------------------

  ghost function EmbeddedView(es: seq<DirEntry>): View {
    if es == [] then map[]
    else var e := es[|es| - 1]; EmbeddedView(es[..|es| - 1])[e.name := Ref(e.ino, e.ftype)]
  }

  lemma {:induction false} EmbeddedViewKeys(es: seq<DirEntry>, n: Name)
    ensures n in EmbeddedView(es) <==> exists i :: 0 <= i < |es| && es[i].name == n
  {
    if es != [] {
      var init := es[..|es| - 1];
      EmbeddedViewKeys(init, n);
      if i :| 0 <= i < |init| && init[i].name == n {
        assert es[i].name == n;
      }
    }
  }

  /** One more entry of the payload: its name is new, and it takes its share of the bytes. */
  lemma EmbedStep(es: seq<DirEntry>, i: nat, view: View)
    requires i < |es| && EmbedUsed(es) <= INODE_PAYLOAD && ShowsEmbedded(es, view)
    ensures es[i].name !in EmbeddedView(es[..i])
    ensures EmbeddedView(es[..i + 1]) == EmbeddedView(es[..i])[es[i].name := Ref(es[i].ino, es[i].ftype)]
    ensures EmbedUsed(es[..i + 1]) == EmbedUsed(es[..i]) + 10 + 2 * |es[i].name|
    ensures EmbedUsed(es[..i]) + 10 + 2 * |es[i].name| <= INODE_PAYLOAD
  {
    var more, less := es[..i + 1], es[..i];
    assert more[..i] == less && more[i] == es[i];
    assert EmbedUsed(more) == EmbedUsed(more[..i]) + 10 + 2 * |more[i].name|;
    assert EmbeddedView(more) == EmbeddedView(more[..i])[more[i].name := Ref(more[i].ino, more[i].ftype)];
    EmbedUsedMono(es, i + 1);
    EmbeddedViewHas(es, i);
  }

  lemma EmbedUsedOne(es: seq<DirEntry>, e: DirEntry)
    ensures EmbedUsed(es + [e]) == EmbedUsed(es) + 10 + 2 * |e.name|
  {
    assert (es + [e])[..|es|] == es;
  }

  lemma NothingEmbedded()
    ensures EmbedUsed([]) == 0 && ShowsEmbedded([], map[]) && EmbeddedView([]) == map[]
  {
  }

  lemma EmbeddedViewHas(es: seq<DirEntry>, i: nat)
    requires i < |es| && forall x, y :: 0 <= x < y < |es| ==> es[x].name != es[y].name
    ensures es[i].name !in EmbeddedView(es[..i])
  {
    EmbeddedViewKeys(es[..i], es[i].name);
  }

  lemma {:induction false} EmbeddedViewIsView(es: seq<DirEntry>, view: View)
    requires ShowsEmbedded(es, view)
    ensures EmbeddedView(es) == view
  {
    forall n ensures n in EmbeddedView(es) <==> n in view {
      EmbeddedViewKeys(es, n);
    }
    forall i | 0 <= i < |es| ensures EmbeddedView(es)[es[i].name] == view[es[i].name] {
      EmbeddedViewValue(es, i);
    }
  }

  lemma {:induction false} EmbeddedViewValue(es: seq<DirEntry>, i: nat)
    requires i < |es| && forall x, y :: 0 <= x < y < |es| ==> es[x].name != es[y].name
    ensures es[i].name in EmbeddedView(es) && EmbeddedView(es)[es[i].name] == Ref(es[i].ino, es[i].ftype)
  {
    if i < |es| - 1 {
      EmbeddedViewValue(es[..|es| - 1], i);
    }
  }

  lemma {:induction false} EmbedUsedAppend(a: seq<DirEntry>, b: seq<DirEntry>)
    ensures EmbedUsed(a + b) == EmbedUsed(a) + EmbedUsed(b)
    decreases |b|
  {
    if b == [] {
      assert a + b == a;
    } else {
      assert (a + b)[..|a + b| - 1] == a + b[..|b| - 1];
      EmbedUsedAppend(a, b[..|b| - 1]);
    }
  }

  lemma EmbedUsedMono(es: seq<DirEntry>, i: nat)
    requires i <= |es|
    ensures EmbedUsed(es[..i]) <= EmbedUsed(es)
  {
    assert es == es[..i] + es[i..];
    EmbedUsedAppend(es[..i], es[i..]);
  }

  lemma ShowsEmbeddedAppend(es: seq<DirEntry>, view: View, e: DirEntry)
    requires ShowsEmbedded(es, view) && e.name !in view
    ensures ShowsEmbedded(es + [e], view[e.name := Ref(e.ino, e.ftype)])
  {
    var r, v := es + [e], view[e.name := Ref(e.ino, e.ftype)];
    forall n | n in v ensures exists i :: 0 <= i < |r| && r[i].name == n {
      if n == e.name {
        assert r[|es|].name == n;
      } else {
        var i :| 0 <= i < |es| && es[i].name == n;
        assert r[i].name == n;
      }
    }
  }

  lemma RepackFacts(es: seq<DirEntry>, k: nat, view: View)
    requires ShowsEmbedded(es, view) && k < |es|
    ensures var r := es[..k] + es[k + 1..];
      && ShowsEmbedded(r, view - {es[k].name}) && EmbedUsed(r) <= EmbedUsed(es)
      && (r == [] ==> view - {es[k].name} == map[])
  {
    hide EmbedUsed;
    RepackShows(es, k, es[..k] + es[k + 1..], view);
    RepackUsed(es[..k], es[k], es[k + 1..]);
    RejoinAround(es, k);
  }

  lemma RepackShows(es: seq<DirEntry>, k: nat, r: seq<DirEntry>, view: View)
    requires ShowsEmbedded(es, view) && k < |es| == |r| + 1
    requires forall i :: 0 <= i < |r| ==> r[i] == es[if i < k then i else i + 1]
    ensures ShowsEmbedded(r, view - {es[k].name})
    ensures r == [] ==> view - {es[k].name} == map[]
  {
    var v := view - {es[k].name};
    forall n | n in v ensures exists i :: 0 <= i < |r| && r[i].name == n {
      var i :| 0 <= i < |es| && es[i].name == n;
      assert r[if i < k then i else i - 1].name == n;
    }
  }

  lemma RejoinAround(es: seq<DirEntry>, k: nat)
    requires k < |es|
    ensures es[..k] + ([es[k]] + es[k + 1..]) == es
  {
  }

  lemma RepackUsed(a: seq<DirEntry>, m: DirEntry, b: seq<DirEntry>)
    ensures EmbedUsed(a + b) <= EmbedUsed(a + ([m] + b))
  {
    hide EmbedUsed;
    EmbedUsedAppend(a, [m] + b);
    EmbedUsedAppend([m], b);
    EmbedUsedAppend(a, b);
  }
}
