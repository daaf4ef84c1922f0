/** The AG map: where blocks lie on the device, and what moving or dropping groups does to that. */
module ResizeLaws {
  import opened Wrappers
  import opened Geometry
  import opened ExtentTree
  import opened ExtentSpec


  /** blocks blocks of a group, from agBlock on, lie at byte off of the device. */
  datatype Seg = Seg(agBlock: nat, blocks: nat, off: nat)

  datatype AgEntry = AgEntry(present: bool, immovable: bool, length: nat, segs: seq<Seg>)

  function Bytes(blocks: nat): nat {
    blocks * BLOCKSIZE
  }

  function SegEnd(s: Seg): nat {
    s.off + Bytes(s.blocks)
  }

  predicate Holds(s: Seg, local: nat) {
    s.agBlock <= local < s.agBlock + s.blocks
  }

  function FindSeg(segs: seq<Seg>, local: nat): Option<nat> {
    if segs == [] then None
    else if Holds(segs[0], local) then Some(segs[0].off + Bytes(local - segs[0].agBlock))
    else FindSeg(segs[1..], local)
  }

  /** The device offset of a block address. */
  function Resolve(entries: seq<AgEntry>, ag: nat, local: nat): Option<nat> {
    if ag < |entries| && entries[ag].present && local < entries[ag].length
    then FindSeg(entries[ag].segs, local) else None
  }

  // --- order -----------------------------------------------------------------------------

  predicate Apart(a: Seg, b: Seg) {
    SegEnd(a) <= b.off || SegEnd(b) <= a.off
  }

  predicate Elsewhere(a: Seg, b: Seg) {
    a.agBlock + a.blocks <= b.agBlock || b.agBlock + b.blocks <= a.agBlock
  }

  ghost predicate SegOk(e: AgEntry, s: Seg) {
    s.blocks >= 1 && s.off % BLOCKSIZE == 0 && s.agBlock + s.blocks <= e.length
  }

  ghost predicate Covered(e: AgEntry, local: nat) {
    exists i :: 0 <= i < |e.segs| && Holds(e.segs[i], local)
  }

  /** A present group is mapped throughout, each block once; an absent one not at all. */
  ghost predicate EntryOk(e: AgEntry) {
    && (!e.present ==> e.segs == [])
    && (forall i :: 0 <= i < |e.segs| ==> SegOk(e, e.segs[i]))
    && (forall i, j :: 0 <= i < j < |e.segs| ==> Elsewhere(e.segs[i], e.segs[j]))
    && (e.present ==> forall l: nat :: l < e.length ==> Covered(e, l))
  }

  ghost predicate SegsApart(a: seq<Seg>, b: seq<Seg>) {
    forall i, j :: 0 <= i < |a| && 0 <= j < |b| ==> Apart(a[i], b[j])
  }

  /** No byte of the device belongs to two segments. */
  ghost predicate NoOverlap(entries: seq<AgEntry>) {
    && (forall a, i, j :: 0 <= a < |entries| && 0 <= i < j < |entries[a].segs| ==> Apart(entries[a].segs[i], entries[a].segs[j]))
    && (forall a, b :: 0 <= a < |entries| && 0 <= b < |entries| && a != b ==> SegsApart(entries[a].segs, entries[b].segs))
  }

  ghost predicate Within(entries: seq<AgEntry>, size: nat) {
    forall a, i :: 0 <= a < |entries| && 0 <= i < |entries[a].segs| ==> SegEnd(entries[a].segs[i]) <= size
  }

  const MAP_HDR := 24

  /** The bytes of the map as it is written: a header, eight bytes a group and sixteen a segment. */
  function MapBytes(entries: seq<AgEntry>): nat {
    if entries == [] then MAP_HDR else MapBytes(entries[..|entries| - 1]) + 8 + 16 * |entries[|entries| - 1].segs|
  }

  /** What is written before entry a, and then with it; all of the map takes no less. */
  lemma {:induction false} MapBytesNext(entries: seq<AgEntry>, a: nat)
    requires a < |entries|
    ensures MapBytes(entries[..a + 1]) == MapBytes(entries[..a]) + 8 + 16 * |entries[a].segs| <= MapBytes(entries)
    decreases |entries|
  {
    var init := entries[..|entries| - 1];
    if a == |entries| - 1 {
      assert entries[..a + 1] == entries;
    } else {
      MapBytesNext(init, a);
      assert init[..a + 1] == entries[..a + 1] && init[..a] == entries[..a];
    }
  }

  lemma {:induction false} MapBytesAt(entries: seq<AgEntry>, a: nat, e: AgEntry)
    requires a < |entries|
    ensures MapBytes(entries[a := e]) + 16 * |entries[a].segs| == MapBytes(entries) + 16 * |e.segs|
  {
    var init, now := entries[..|entries| - 1], entries[a := e];
    if a == |entries| - 1 {
      assert now[..|now| - 1] == init;
    } else {
      MapBytesAt(init, a, e);
      assert now[..|now| - 1] == init[a := e];
    }
  }

  ghost predicate MapOk(entries: seq<AgEntry>, size: nat) {
    && (forall a :: 0 <= a < |entries| ==> EntryOk(entries[a]))
    && NoOverlap(entries) && Within(entries, size)
  }

  lemma {:induction false} Found(segs: seq<Seg>, local: nat) returns (i: nat)
    requires FindSeg(segs, local).Some?
    ensures i < |segs| && Holds(segs[i], local) && FindSeg(segs, local) == Some(segs[i].off + Bytes(local - segs[i].agBlock))
  {
    if Holds(segs[0], local) {
      i := 0;
    } else {
      i := Found(segs[1..], local);
      i := i + 1;
    }
  }

  lemma {:induction false} FindIt(segs: seq<Seg>, i: nat, local: nat)
    requires i < |segs| && Holds(segs[i], local)
    requires forall j, k :: 0 <= j < k < |segs| ==> Elsewhere(segs[j], segs[k])
    ensures FindSeg(segs, local) == Some(segs[i].off + Bytes(local - segs[i].agBlock))
  {
    if i > 0 {
      assert Elsewhere(segs[0], segs[i]);
      FindIt(segs[1..], i - 1, local);
    }
  }

  /** Every block of a present group has a place on the device. */
  lemma ResolveIsTotal(entries: seq<AgEntry>, size: nat, ag: nat, local: nat)
    requires MapOk(entries, size) && ag < |entries| && entries[ag].present && local < entries[ag].length
    ensures Resolve(entries, ag, local).Some?
    ensures Resolve(entries, ag, local).value + BLOCKSIZE <= size
  {
    var e := entries[ag];
    assert Covered(e, local);
    var i :| 0 <= i < |e.segs| && Holds(e.segs[i], local);
    FindIt(e.segs, i, local);
    InSegment(e.segs[i], local);
  }

  lemma InSegment(s: Seg, local: nat)
    requires Holds(s, local)
    ensures s.off + Bytes(local - s.agBlock) + BLOCKSIZE <= SegEnd(s)
  {
  }

  /** Two block addresses never share a byte of the device. */
  lemma ResolveIsInjective(entries: seq<AgEntry>, size: nat, ag: nat, x: nat, bg: nat, y: nat)
    requires MapOk(entries, size) && (ag != bg || x != y)
    requires Resolve(entries, ag, x).Some? && Resolve(entries, bg, y).Some?
    ensures var a, b := Resolve(entries, ag, x).value, Resolve(entries, bg, y).value;
      a + BLOCKSIZE <= b || b + BLOCKSIZE <= a
  {
    var i := Found(entries[ag].segs, x);
    var j := Found(entries[bg].segs, y);
    InSegment(entries[ag].segs[i], x);
    InSegment(entries[bg].segs[j], y);
    if ag == bg && i != j {
      if i < j {
        assert Apart(entries[ag].segs[i], entries[ag].segs[j]);
      } else {
        assert Apart(entries[ag].segs[j], entries[ag].segs[i]);
      }
    } else if ag != bg {
      assert Apart(entries[ag].segs[i], entries[bg].segs[j]);
    }
  }

  // --- what the addresses read ---------------------------------------------------------------

  /** The contents of a block address. */
  function Content(entries: seq<AgEntry>, dev: seq<bv8>, ag: nat, local: nat): Option<seq<bv8>> {
    match Resolve(entries, ag, local)
    case None => None
    case Some(o) => if o + BLOCKSIZE <= |dev| then Some(dev[o..o + BLOCKSIZE]) else None
  }

  /** Every address of the groups not listed reads as before. */
  ghost predicate SameContents(entries: seq<AgEntry>, dev: seq<bv8>, now: seq<AgEntry>, devNow: seq<bv8>, except: set<nat>) {
    forall ag: nat, local: nat :: ag !in except ==> Content(now, devNow, ag, local) == Content(entries, dev, ag, local)
  }

  // --- regions ---------------------------------------------------------------------------------

  /** A stretch of the device meets a segment; an empty one meets what it lies strictly inside of. */
  predicate Meets(off: nat, len: nat, s: Seg) {
    off < SegEnd(s) && s.off < off + len
  }

  ghost predicate Overlapping(entries: seq<AgEntry>, off: nat, len: nat, skip: int) {
    exists a, i :: 0 <= a < |entries| && a != skip && 0 <= i < |entries[a].segs| && Meets(off, len, entries[a].segs[i])
  }

  /** A stretch that no segment reaches into. */
  ghost predicate Vacant(entries: seq<AgEntry>, off: nat, len: nat) {
    forall a, i :: 0 <= a < |entries| && 0 <= i < |entries[a].segs| ==> !Meets(off, len, entries[a].segs[i])
  }

  // --- copying ------------------------------------------------------------------------------------

  function Put(dev: seq<bv8>, off: nat, buf: seq<bv8>): (r: seq<bv8>)
    requires off + |buf| <= |dev|
    ensures |r| == |dev|
    ensures forall k :: 0 <= k < |dev| ==> r[k] == if off <= k < off + |buf| then buf[k - off] else dev[k]
  {
    dev[..off] + buf + dev[off + |buf|..]
  }

  /** The bytes of segment s have arrived at the group's new home, up to the given count. */
  ghost predicate Arrived(dev: seq<bv8>, now: seq<bv8>, s: Seg, dest: nat, count: nat) {
    var to := dest + Bytes(s.agBlock);
    to + count <= |now| && s.off + count <= |dev| && now[to..to + count] == dev[s.off..s.off + count]
  }

  /** Outside a stretch nothing changed. */
  ghost predicate SameOutside(dev: seq<bv8>, now: seq<bv8>, off: nat, len: nat) {
    |now| == |dev| && forall k :: 0 <= k < |dev| && !(off <= k < off + len) ==> now[k] == dev[k]
  }

  function Moved(e: AgEntry, dest: nat): AgEntry {
    e.(segs := [Seg(0, e.length, dest)])
  }

  lemma MovedOk(entries: seq<AgEntry>, size: nat, ag: nat, dest: nat)
    requires MapOk(entries, size) && ag < |entries| && entries[ag].present && entries[ag].length >= 1
    requires dest % BLOCKSIZE == 0 && dest + Bytes(entries[ag].length) <= size
    requires !Overlapping(entries, dest, Bytes(entries[ag].length), ag)
    ensures MapOk(entries[ag := Moved(entries[ag], dest)], size)
  {
    var e := Moved(entries[ag], dest);
    var now := entries[ag := e];
    assert EntryOk(e) by {
      forall l: nat | l < e.length ensures Covered(e, l) {
        assert Holds(e.segs[0], l);
      }
    }
    forall a, b, i, j | 0 <= a < |now| && 0 <= b < |now| && a != b && 0 <= i < |now[a].segs| && 0 <= j < |now[b].segs|
      ensures Apart(now[a].segs[i], now[b].segs[j])
    {
      if a == ag {
        assert !Meets(dest, Bytes(e.length), entries[b].segs[j]);
      } else if b == ag {
        assert !Meets(dest, Bytes(e.length), entries[a].segs[i]);
      }
    }
    forall a, i, j | 0 <= a < |now| && 0 <= i < j < |now[a].segs| ensures Apart(now[a].segs[i], now[a].segs[j]) {
      assert a != ag;
    }
  }

  /** After the copy every address reads as before: the move is invisible above the map. */
  lemma MovedContents(entries: seq<AgEntry>, dev: seq<bv8>, now: seq<bv8>, ag: nat, dest: nat)
    requires MapOk(entries, |dev|) && ag < |entries| && entries[ag].present
    requires dest + Bytes(entries[ag].length) <= |dev|
    requires !Overlapping(entries, dest, Bytes(entries[ag].length), ag)
    requires SameOutside(dev, now, dest, Bytes(entries[ag].length))
    requires forall i :: 0 <= i < |entries[ag].segs| ==>
      Arrived(dev, now, entries[ag].segs[i], dest, Bytes(entries[ag].segs[i].blocks))
    ensures SameContents(entries, dev, entries[ag := Moved(entries[ag], dest)], now, {})
  {
    var e := entries[ag];
    var after := entries[ag := Moved(e, dest)];
    forall a: nat, l: nat ensures Content(after, now, a, l) == Content(entries, dev, a, l) {
      if a == ag && l < e.length {
        ResolveIsTotal(entries, |dev|, ag, l);
        var i := Found(e.segs, l);
        FindIt(Moved(e, dest).segs, 0, l);
        MovedBlock(dev, now, e.segs[i], dest, e.length, l);
      } else if Resolve(entries, a, l).Some? {
        var i := Found(entries[a].segs, l);
        assert !Meets(dest, Bytes(e.length), entries[a].segs[i]);
        InSegment(entries[a].segs[i], l);
        SameBlock(dev, now, dest, Bytes(e.length), Resolve(entries, a, l).value);
      }
    }
  }

  lemma SameBlock(dev: seq<bv8>, now: seq<bv8>, off: nat, len: nat, o: nat)
    requires SameOutside(dev, now, off, len) && o + BLOCKSIZE <= |dev| && (o + BLOCKSIZE <= off || off + len <= o)
    ensures now[o..o + BLOCKSIZE] == dev[o..o + BLOCKSIZE]
  {
  }

  lemma MovedBlock(dev: seq<bv8>, now: seq<bv8>, s: Seg, dest: nat, length: nat, l: nat)
    requires Holds(s, l) && l < length && SegEnd(s) <= |dev| && dest + Bytes(length) <= |dev| == |now|
    requires Arrived(dev, now, s, dest, Bytes(s.blocks))
    ensures var o, p := s.off + Bytes(l - s.agBlock), dest + Bytes(l);
      o + BLOCKSIZE <= |dev| && p + BLOCKSIZE <= |now| && now[p..p + BLOCKSIZE] == dev[o..o + BLOCKSIZE]
  {
    var o, p := s.off + Bytes(l - s.agBlock), dest + Bytes(l);
    var x, to, n := Bytes(l - s.agBlock), dest + Bytes(s.agBlock), Bytes(s.blocks);
    assert p == to + x && o == s.off + x;
    SliceOfSlice(now, to, n, x, BLOCKSIZE);
    SliceOfSlice(dev, s.off, n, x, BLOCKSIZE);
  }

  lemma SliceOfSlice(a: seq<bv8>, lo: nat, n: nat, x: nat, k: nat)
    requires lo + n <= |a| && x + k <= n
    ensures a[lo..lo + n][x..x + k] == a[lo + x..lo + x + k]
  {
    var b := a[lo..lo + n];
    var l, r := b[x..x + k], a[lo + x..lo + x + k];
    forall i | 0 <= i < k ensures l[i] == r[i] {
      assert b[x + i] == a[lo + (x + i)];
    }
    assert l == r;
  }

  // --- dropping ---------------------------------------------------------------------------------

  function Retired(e: AgEntry): AgEntry {
    AgEntry(false, false, e.length, [])
  }

  lemma RetiredOk(entries: seq<AgEntry>, size: nat, ag: nat)
    requires MapOk(entries, size) && ag < |entries|
    ensures MapOk(entries[ag := Retired(entries[ag])], size)
  {
    var now := entries[ag := Retired(entries[ag])];
    forall a | 0 <= a < |now| ensures EntryOk(now[a]) && (a != ag ==> now[a] == entries[a]) {
    }
  }

  lemma RetiredContents(entries: seq<AgEntry>, dev: seq<bv8>, ag: nat)
    requires ag < |entries|
    ensures SameContents(entries, dev, entries[ag := Retired(entries[ag])], dev, {ag})
  {
  }

  lemma ContentsTrans(e0: seq<AgEntry>, d0: seq<bv8>, e1: seq<AgEntry>, d1: seq<bv8>, e2: seq<AgEntry>, d2: seq<bv8>, a: set<nat>, b: set<nat>)
    requires SameContents(e0, d0, e1, d1, a) && SameContents(e1, d1, e2, d2, b)
    ensures SameContents(e0, d0, e2, d2, a + b)
  {
    hide Content;
  }

  // --- adding ------------------------------------------------------------------------------------

  lemma AddedOk(entries: seq<AgEntry>, size: nat, e: AgEntry)
    requires MapOk(entries, size) && e.present && e.length >= 1 && |e.segs| == 1
    requires e.segs[0] == Seg(0, e.length, e.segs[0].off) && e.segs[0].off % BLOCKSIZE == 0 && SegEnd(e.segs[0]) <= size
    requires !Overlapping(entries, e.segs[0].off, Bytes(e.length), -1)
    ensures MapOk(entries + [e], size)
  {
    var now := entries + [e];
    assert EntryOk(e) by {
      forall l: nat | l < e.length ensures Covered(e, l) {
        assert Holds(e.segs[0], l);
      }
    }
    forall a, b, i, j | 0 <= a < |now| && 0 <= b < |now| && a != b && 0 <= i < |now[a].segs| && 0 <= j < |now[b].segs|
      ensures Apart(now[a].segs[i], now[b].segs[j])
    {
      if a == |entries| {
        assert !Meets(e.segs[0].off, Bytes(e.length), entries[b].segs[j]);
      } else if b == |entries| {
        assert !Meets(e.segs[0].off, Bytes(e.length), entries[a].segs[i]);
      }
    }
    forall a, i, j | 0 <= a < |now| && 0 <= i < j < |now[a].segs| ensures Apart(now[a].segs[i], now[a].segs[j]) {
      assert a < |entries|;
    }
  }

  /** Writing into a stretch no segment reaches into, and mapping it as a new group, disturbs no other. */
  lemma AddedContents(entries: seq<AgEntry>, dev: seq<bv8>, now: seq<bv8>, e: AgEntry, off: nat, len: nat)
    requires MapOk(entries, |dev|) && SameOutside(dev, now, off, len) && !Overlapping(entries, off, len, -1)
    ensures SameContents(entries, dev, entries + [e], now, {|entries|})
  {
    forall a: nat, l: nat | a != |entries| ensures Content(entries + [e], now, a, l) == Content(entries, dev, a, l) {
      assert Resolve(entries + [e], a, l) == Resolve(entries, a, l);
      if Resolve(entries, a, l).Some? {
        var i := Found(entries[a].segs, l);
        assert !Meets(off, len, entries[a].segs[i]);
        InSegment(entries[a].segs[i], l);
        SameBlock(dev, now, off, len, Resolve(entries, a, l).value);
      }
    }
  }

  // --- gaps ------------------------------------------------------------------------------------------

  /** A list of all mapped stretches of the device, as runs of bytes. */
  ghost predicate Listed(entries: seq<AgEntry>, all: seq<Extent>) {
    && (forall a, i :: 0 <= a < |entries| && 0 <= i < |entries[a].segs| ==> Stretch(entries[a].segs[i]) in all)
    && (forall x :: x in all ==> IsStretch(entries, x))
  }

  function Stretch(s: Seg): Extent {
    Extent(s.off, 0, Bytes(s.blocks))
  }

  ghost predicate IsStretch(entries: seq<AgEntry>, x: Extent) {
    exists a, i :: 0 <= a < |entries| && 0 <= i < |entries[a].segs| && x == Stretch(entries[a].segs[i])
  }

  /** No stretch of the list reaches into off..off+len. */
  ghost predicate Clear(all: seq<Extent>, off: nat, len: nat) {
    forall x :: x in all ==> !(off < x.first + x.blocks && x.first < off + len)
  }

  lemma ClearIsVacant(entries: seq<AgEntry>, all: seq<Extent>, off: nat, len: nat)
    requires Listed(entries, all)
    ensures Clear(all, off, len) <==> Vacant(entries, off, len)
  {
    if Clear(all, off, len) {
      forall a, i | 0 <= a < |entries| && 0 <= i < |entries[a].segs| ensures !Meets(off, len, entries[a].segs[i]) {
        assert Stretch(entries[a].segs[i]) in all;
      }
    }
    if Vacant(entries, off, len) {
      forall x | x in all ensures !(off < x.first + x.blocks && x.first < off + len) {
        assert IsStretch(entries, x);
        var a, i :| 0 <= a < |entries| && 0 <= i < |entries[a].segs| && x == Stretch(entries[a].segs[i]);
        assert !Meets(off, len, entries[a].segs[i]);
      }
    }
  }

  // --- what lies beyond -----------------------------------------------------------------------------

  ghost predicate Sticks(e: AgEntry, size: nat) {
    e.present && exists i :: 0 <= i < |e.segs| && SegEnd(e.segs[i]) > size
  }

  /** The groups that still have a segment beyond the new end. */
  ghost function Beyond(entries: seq<AgEntry>, size: nat): set<nat> {
    set a: nat | a < |entries| && Sticks(entries[a], size)
  }

  /** Dealing with one group leaves fewer beyond the end. */
  lemma BeyondFalls(entries: seq<AgEntry>, size: nat, ag: nat, e: AgEntry)
    requires ag < |entries| && Sticks(entries[ag], size) && !Sticks(e, size)
    ensures |Beyond(entries[ag := e], size)| < |Beyond(entries, size)|
  {
    var now := entries[ag := e];
    assert Beyond(now, size) == Beyond(entries, size) - {ag};
    assert ag in Beyond(entries, size);
  }

  lemma NoneBeyond(entries: seq<AgEntry>, size: nat, new_size: nat)
    requires MapOk(entries, size) && forall a :: 0 <= a < |entries| ==> !Sticks(entries[a], new_size)
    ensures MapOk(entries, new_size)
  {
    forall a, i | 0 <= a < |entries| && 0 <= i < |entries[a].segs| ensures SegEnd(entries[a].segs[i]) <= new_size {
      assert EntryOk(entries[a]);
    }
  }
}
