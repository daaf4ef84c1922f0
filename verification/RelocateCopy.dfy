/**
Copying a group to its new home chunk by chunk, where the new home may reach into the group's own
segments: what the copy does to the device, and exactly when no address notices.
*/
module RelocateCopy {
  import opened Wrappers
  import opened Geometry
  import opened ResizeLaws

  const CHUNK := 256 * BLOCKSIZE

  /** Read n bytes, then write them elsewhere. */
  datatype Move = Move(from: nat, to: nat, n: nat)

  ghost predicate MovesFit(ms: seq<Move>, size: nat) {
    forall k :: 0 <= k < |ms| ==> ms[k].from + ms[k].n <= size && ms[k].to + ms[k].n <= size
  }

  function Step(dev: seq<bv8>, m: Move): (r: seq<bv8>)
    requires m.from + m.n <= |dev| && m.to + m.n <= |dev|
    ensures |r| == |dev|
  {
    Put(dev, m.to, dev[m.from..m.from + m.n])
  }

  ghost function Perform(dev: seq<bv8>, ms: seq<Move>): (r: seq<bv8>)
    requires MovesFit(ms, |dev|)
    ensures |r| == |dev|
    decreases |ms|
  {
    if ms == [] then dev else Perform(Step(dev, ms[0]), ms[1..])
  }

  lemma {:induction false} PerformConcat(dev: seq<bv8>, a: seq<Move>, b: seq<Move>)
    requires MovesFit(a, |dev|) && MovesFit(b, |dev|)
    ensures MovesFit(a + b, |dev|) && Perform(dev, a + b) == Perform(Perform(dev, a), b)
    decreases |a|
  {
    if a == [] {
      assert a + b == b;
    } else {
      assert (a + b)[0] == a[0] && (a + b)[1..] == a[1..] + b;
      PerformConcat(Step(dev, a[0]), a[1..], b);
    }
  }

  // --- when every chunk arrives ---------------------------------------------------------------------

  predicate Between(lo: nat, n: nat, x: nat) {
    lo <= x < lo + n
  }

  /** What an earlier chunk writes, no later one has still to read. */
  ghost predicate ReadFirst(ms: seq<Move>) {
    forall i, j :: 0 <= i < j < |ms| ==> ms[i].to + ms[i].n <= ms[j].from || ms[j].from + ms[j].n <= ms[i].to
  }

  ghost predicate TosApart(ms: seq<Move>) {
    forall i, j :: 0 <= i < j < |ms| ==> ms[i].to + ms[i].n <= ms[j].to || ms[j].to + ms[j].n <= ms[i].to
  }

  ghost predicate FromsApart(ms: seq<Move>) {
    forall i, j :: 0 <= i < j < |ms| ==> ms[i].from + ms[i].n <= ms[j].from || ms[j].from + ms[j].n <= ms[i].from
  }

  lemma {:induction false} Untouched(dev: seq<bv8>, ms: seq<Move>, x: nat)
    requires MovesFit(ms, |dev|) && x < |dev| && forall k :: 0 <= k < |ms| ==> !Between(ms[k].to, ms[k].n, x)
    ensures Perform(dev, ms)[x] == dev[x]
    decreases |ms|
  {
    if ms != [] {
      Untouched(Step(dev, ms[0]), ms[1..], x);
    }
  }

  lemma {:induction false} Delivered(dev: seq<bv8>, ms: seq<Move>, k: nat, p: nat)
    requires MovesFit(ms, |dev|) && TosApart(ms) && ReadFirst(ms) && k < |ms| && p < ms[k].n
    ensures ms[k].to + p < |dev| && ms[k].from + p < |dev| && Perform(dev, ms)[ms[k].to + p] == dev[ms[k].from + p]
    decreases |ms|
  {
    hide Step;
    var m, rest := ms[0], ms[1..];
    Tail(ms, |dev|);
    if k == 0 {
      StepAt(dev, m, m.to + p);
      FirstApart(ms, m.to + p);
      Untouched(Step(dev, m), rest, m.to + p);
    } else {
      assert rest[k - 1] == ms[k];
      StepAt(dev, m, ms[k].from + p);
      Delivered(Step(dev, m), rest, k - 1, p);
    }
  }

  lemma Tail(ms: seq<Move>, size: nat)
    requires ms != [] && MovesFit(ms, size) && TosApart(ms) && ReadFirst(ms)
    ensures MovesFit(ms[1..], size) && TosApart(ms[1..]) && ReadFirst(ms[1..])
    ensures ms[0].from + ms[0].n <= size && ms[0].to + ms[0].n <= size
    ensures forall k :: 1 <= k < |ms| ==> ms[0].to + ms[0].n <= ms[k].from || ms[k].from + ms[k].n <= ms[0].to
  {
    forall i, j | 0 <= i < j < |ms| - 1
      ensures ms[1..][i].to + ms[1..][i].n <= ms[1..][j].to || ms[1..][j].to + ms[1..][j].n <= ms[1..][i].to
      ensures ms[1..][i].to + ms[1..][i].n <= ms[1..][j].from || ms[1..][j].from + ms[1..][j].n <= ms[1..][i].to
    {
      assert ms[1..][i] == ms[i + 1] && ms[1..][j] == ms[j + 1];
    }
  }

  lemma FirstApart(ms: seq<Move>, x: nat)
    requires ms != [] && TosApart(ms) && Between(ms[0].to, ms[0].n, x)
    ensures forall k :: 0 <= k < |ms[1..]| ==> !Between(ms[1..][k].to, ms[1..][k].n, x)
  {
    forall k | 0 <= k < |ms[1..]| ensures !Between(ms[1..][k].to, ms[1..][k].n, x) {
      assert ms[1..][k] == ms[k + 1];
    }
  }

  lemma StepAt(dev: seq<bv8>, m: Move, x: nat)
    requires m.from + m.n <= |dev| && m.to + m.n <= |dev| && x < |dev|
    ensures Step(dev, m)[x] == if Between(m.to, m.n, x) then dev[m.from + (x - m.to)] else dev[x]
  {
  }

  /** A device with one byte set. */
  function Mark(size: nat, y: nat): (dev: seq<bv8>)
    ensures |dev| == size && forall x :: 0 <= x < size ==> dev[x] == if x == y then 1 else 0
  {
    seq(size, x requires 0 <= x < size => if x == y then 1 else 0)
  }

  ghost predicate ZeroBut(dev: seq<bv8>, y: int) {
    forall x :: 0 <= x < |dev| && x != y ==> dev[x] == 0
  }

  lemma {:induction false} StaysZero(dev: seq<bv8>, ms: seq<Move>)
    requires MovesFit(ms, |dev|) && ZeroBut(dev, -1)
    ensures ZeroBut(Perform(dev, ms), -1)
    decreases |ms|
  {
    if ms != [] {
      StaysZero(Step(dev, ms[0]), ms[1..]);
    }
  }

  lemma StepZero(dev: seq<bv8>, m: Move, y: nat)
    requires m.from + m.n <= |dev| && m.to + m.n <= |dev| && ZeroBut(dev, y) && !Between(m.from, m.n, y)
    ensures ZeroBut(Step(dev, m), if Between(m.to, m.n, y) then -1 else y)
  {
    var buf := dev[m.from..m.from + m.n];
    forall k | 0 <= k < |buf| ensures buf[k] == 0 {
      assert buf[k] == dev[m.from + k];
    }
  }

  /** A byte that is overwritten before it is read is nowhere afterwards. */
  lemma {:induction false} Wiped(dev: seq<bv8>, ms: seq<Move>, y: nat, i: nat)
    requires MovesFit(ms, |dev|) && ZeroBut(dev, y) && y < |dev| && i < |ms| && Between(ms[i].to, ms[i].n, y)
    requires forall k :: 0 <= k <= i ==> !Between(ms[k].from, ms[k].n, y)
    ensures ZeroBut(Perform(dev, ms), -1)
    decreases |ms|
  {
    var m, next := ms[0], Step(dev, ms[0]);
    StepZero(dev, m, y);
    if i == 0 {
      StaysZero(next, ms[1..]);
    } else {
      Wiped(next, ms[1..], y, i - 1);
    }
  }

  /** If some chunk is overwritten before it is read, there are contents that do not arrive. */
  lemma Lost(size: nat, ms: seq<Move>) returns (y: nat, k: nat)
    requires MovesFit(ms, size) && FromsApart(ms) && !ReadFirst(ms) && forall i :: 0 <= i < |ms| ==> ms[i].n >= 1
    ensures y < size && k < |ms| && Between(ms[k].from, ms[k].n, y)
    ensures Perform(Mark(size, y), ms)[ms[k].to + (y - ms[k].from)] == 0 && Mark(size, y)[y] == 1
  {
    var i, j :| 0 <= i < j < |ms| && !(ms[i].to + ms[i].n <= ms[j].from || ms[j].from + ms[j].n <= ms[i].to);
    y, k := if ms[i].to <= ms[j].from then ms[j].from else ms[i].to, j;
    forall x | 0 <= x <= i ensures !Between(ms[x].from, ms[x].n, y) {
      assert ms[x].from + ms[x].n <= ms[j].from || ms[j].from + ms[j].n <= ms[x].from;
    }
    Wiped(Mark(size, y), ms, y, i);
  }

  // --- the chunks of a group --------------------------------------------------------------------

  /** The chunks of a segment from byte taken on, forwards. */
  function SegMoves(s: Seg, dest: nat, taken: nat): seq<Move>
    decreases Bytes(s.blocks) - taken
  {
    if taken >= Bytes(s.blocks) then [] else
    var n := if CHUNK < Bytes(s.blocks) - taken then CHUNK else Bytes(s.blocks) - taken;
    [Move(s.off + taken, dest + Bytes(s.agBlock) + taken, n)] + SegMoves(s, dest, taken + n)
  }

  function GroupMoves(segs: seq<Seg>, dest: nat): seq<Move> {
    if segs == [] then [] else SegMoves(segs[0], dest, 0) + GroupMoves(segs[1..], dest)
  }

  /** A chunk of segment s on its way to the group's new home. */
  ghost predicate ChunkOf(m: Move, s: Seg, dest: nat) {
    m.n >= 1 && s.off <= m.from && m.from + m.n <= SegEnd(s) && m.to == dest + Bytes(s.agBlock) + (m.from - s.off)
  }

  ghost predicate Reads(ms: seq<Move>, s: Seg, dest: nat, q: nat) {
    exists k :: 0 <= k < |ms| && ChunkOf(ms[k], s, dest) && Between(ms[k].from, ms[k].n, q)
  }

  lemma {:induction false} SegMovesFacts(s: Seg, dest: nat, taken: nat, ms: seq<Move>)
    requires ms == SegMoves(s, dest, taken)
    ensures
      && (forall k :: 0 <= k < |ms| ==> ChunkOf(ms[k], s, dest) && s.off + taken <= ms[k].from)
      && (forall i, j :: 0 <= i < j < |ms| ==> ms[i].from + ms[i].n <= ms[j].from)
      && (forall q: nat :: s.off + taken <= q < SegEnd(s) ==> Reads(ms, s, dest, q))
    decreases Bytes(s.blocks) - taken
  {
    if taken < Bytes(s.blocks) {
      var n, rest := ms[0].n, ms[1..];
      assert rest == SegMoves(s, dest, taken + n);
      SegMovesFacts(s, dest, taken + n, rest);
      forall q: nat | s.off + taken <= q < SegEnd(s) ensures Reads(ms, s, dest, q) {
        if q < s.off + taken + n {
          assert ChunkOf(ms[0], s, dest) && Between(ms[0].from, ms[0].n, q);
        } else {
          assert Reads(rest, s, dest, q);
          var k :| 0 <= k < |rest| && ChunkOf(rest[k], s, dest) && Between(rest[k].from, rest[k].n, q);
          assert ms[k + 1] == rest[k];
        }
      }
    }
  }

  ghost predicate SegsDistinct(segs: seq<Seg>) {
    && (forall i, j :: 0 <= i < j < |segs| ==> Apart(segs[i], segs[j]))
    && (forall i, j :: 0 <= i < j < |segs| ==> Elsewhere(segs[i], segs[j]))
  }

  ghost predicate ChunkOfSome(m: Move, segs: seq<Seg>, dest: nat) {
    exists i :: 0 <= i < |segs| && ChunkOf(m, segs[i], dest)
  }

  lemma {:induction false} GroupChunks(segs: seq<Seg>, dest: nat, ms: seq<Move>)
    requires ms == GroupMoves(segs, dest)
    ensures forall k :: 0 <= k < |ms| ==> ChunkOfSome(ms[k], segs, dest)
    decreases |segs|
  {
    hide SegMoves, ChunkOf;
    if segs != [] {
      var s, rest := segs[0], segs[1..];
      var a, b := SegMoves(s, dest, 0), GroupMoves(rest, dest);
      SegMovesFacts(s, dest, 0, a);
      GroupChunks(rest, dest, b);
      forall k | 0 <= k < |ms| ensures ChunkOfSome(ms[k], segs, dest) {
        if k < |a| {
          assert ms[k] == a[k] && ChunkOf(a[k], segs[0], dest);
        } else {
          assert ms[k] == b[k - |a|] && ChunkOfSome(b[k - |a|], rest, dest);
          var i :| 0 <= i < |rest| && ChunkOf(b[k - |a|], rest[i], dest);
          assert rest[i] == segs[i + 1];
        }
      }
    }
  }

  predicate MovesApart(m: Move, o: Move) {
    && (m.from + m.n <= o.from || o.from + o.n <= m.from)
    && (m.to + m.n <= o.to || o.to + o.n <= m.to)
  }

  lemma {:induction false} GroupApart(segs: seq<Seg>, dest: nat, ms: seq<Move>)
    requires SegsDistinct(segs) && ms == GroupMoves(segs, dest)
    ensures forall i, j :: 0 <= i < j < |ms| ==> MovesApart(ms[i], ms[j])
    decreases |segs|
  {
    hide SegMoves;
    if segs != [] {
      var s, rest := segs[0], segs[1..];
      var a, b := SegMoves(s, dest, 0), GroupMoves(rest, dest);
      SegMovesFacts(s, dest, 0, a);
      GroupApart(rest, dest, b);
      GroupChunks(rest, dest, b);
      forall i, j | 0 <= i < j < |ms| ensures MovesApart(ms[i], ms[j]) {
        if j < |a| {
          InRow(a, s, dest, i, j);
        } else if i >= |a| {
          assert ms[i] == b[i - |a|] && ms[j] == b[j - |a|];
        } else {
          assert ms[j] == b[j - |a|] && ChunkOfSome(b[j - |a|], rest, dest);
          var x :| 0 <= x < |rest| && ChunkOf(b[j - |a|], rest[x], dest);
          assert rest[x] == segs[x + 1];
          ChunksApart(a[i], s, b[j - |a|], rest[x], dest);
        }
      }
    }
  }

  lemma InRow(a: seq<Move>, s: Seg, dest: nat, i: nat, j: nat)
    requires i < j < |a| && ChunkOf(a[i], s, dest) && ChunkOf(a[j], s, dest) && a[i].from + a[i].n <= a[j].from
    ensures MovesApart(a[i], a[j])
  {
  }

  lemma {:induction false} GroupReads(segs: seq<Seg>, dest: nat, i: nat, q: nat, ms: seq<Move>)
    requires i < |segs| && segs[i].off <= q < SegEnd(segs[i]) && ms == GroupMoves(segs, dest)
    ensures Reads(ms, segs[i], dest, q)
    decreases |segs|
  {
    hide SegMoves, Reads;
    var a, b := SegMoves(segs[0], dest, 0), GroupMoves(segs[1..], dest);
    if i == 0 {
      SegMovesFacts(segs[0], dest, 0, a);
    } else {
      GroupReads(segs[1..], dest, i - 1, q, b);
    }
    ReadsConcat(a, b, segs[i], dest, q);
  }

  lemma GroupMovesFacts(segs: seq<Seg>, dest: nat, ms: seq<Move>)
    requires SegsDistinct(segs) && ms == GroupMoves(segs, dest)
    ensures
      && (forall k :: 0 <= k < |ms| ==> ChunkOfSome(ms[k], segs, dest))
      && FromsApart(ms) && TosApart(ms)
      && (forall i, q: nat :: 0 <= i < |segs| && segs[i].off <= q < SegEnd(segs[i]) ==> Reads(ms, segs[i], dest, q))
  {
    hide GroupMoves, ChunkOfSome, Reads, SegsDistinct;
    GroupChunks(segs, dest, ms);
    GroupApart(segs, dest, ms);
    forall i, q: nat | 0 <= i < |segs| && segs[i].off <= q < SegEnd(segs[i]) ensures Reads(ms, segs[i], dest, q) {
      GroupReads(segs, dest, i, q, ms);
    }
  }

  lemma ReadsConcat(a: seq<Move>, b: seq<Move>, s: Seg, dest: nat, q: nat)
    requires Reads(a, s, dest, q) || Reads(b, s, dest, q)
    ensures Reads(a + b, s, dest, q)
  {
    if Reads(a, s, dest, q) {
      var k :| 0 <= k < |a| && ChunkOf(a[k], s, dest) && Between(a[k].from, a[k].n, q);
      assert (a + b)[k] == a[k];
    } else {
      var k :| 0 <= k < |b| && ChunkOf(b[k], s, dest) && Between(b[k].from, b[k].n, q);
      assert (a + b)[|a| + k] == b[k];
    }
  }

  lemma ChunksApart(m: Move, s: Seg, o: Move, t: Seg, dest: nat)
    requires ChunkOf(m, s, dest) && ChunkOf(o, t, dest) && Apart(s, t) && Elsewhere(s, t)
    ensures MovesApart(m, o)
  {
  }

  /** The chunks of a group inside the device that moves to a place inside the device. */
  lemma GroupWithin(e: AgEntry, dest: nat, size: nat)
    requires EntryOk(e) && SegsDistinct(e.segs) && dest + Bytes(e.length) <= size
    requires forall i :: 0 <= i < |e.segs| ==> SegEnd(e.segs[i]) <= size
    ensures MovesFit(GroupMoves(e.segs, dest), size)
    ensures forall k :: 0 <= k < |GroupMoves(e.segs, dest)| ==>
      var m := GroupMoves(e.segs, dest)[k]; m.n >= 1 && dest <= m.to && m.to + m.n <= dest + Bytes(e.length)
  {
    hide GroupMoves;
    var ms := GroupMoves(e.segs, dest);
    GroupMovesFacts(e.segs, dest, ms);
    forall k | 0 <= k < |ms|
      ensures ms[k].n >= 1 && dest <= ms[k].to && ms[k].to + ms[k].n <= dest + Bytes(e.length) && ms[k].from + ms[k].n <= size
    {
      assert ChunkOfSome(ms[k], e.segs, dest);
      var i :| 0 <= i < |e.segs| && ChunkOf(ms[k], e.segs[i], dest);
      assert SegOk(e, e.segs[i]);
    }
  }

  lemma GroupsSegs(entries: seq<AgEntry>, size: nat, ag: nat)
    requires MapOk(entries, size) && ag < |entries|
    ensures EntryOk(entries[ag]) && SegsDistinct(entries[ag].segs)
    ensures forall i :: 0 <= i < |entries[ag].segs| ==> SegEnd(entries[ag].segs[i]) <= size
  {
  }

  // --- when no address notices ----------------------------------------------------------------

  /** The region that the group goes to, and that only its own segments may reach into. */
  ghost predicate Target(entries: seq<AgEntry>, size: nat, ag: nat, dest: nat) {
    && MapOk(entries, size) && ag < |entries| && entries[ag].present && dest + Bytes(entries[ag].length) <= size
    && !Overlapping(entries, dest, Bytes(entries[ag].length), ag)
  }

  /** If every chunk is read before it is overwritten, the move is invisible above the map. */
  lemma ReadFirstKeeps(entries: seq<AgEntry>, dev: seq<bv8>, ag: nat, dest: nat)
    requires Target(entries, |dev|, ag, dest) && ReadFirst(GroupMoves(entries[ag].segs, dest))
    ensures MovesFit(GroupMoves(entries[ag].segs, dest), |dev|)
    ensures SameContents(entries, dev, entries[ag := Moved(entries[ag], dest)], Perform(dev, GroupMoves(entries[ag].segs, dest)), {})
  {
    hide GroupMoves, Perform, SameContents, ReadFirst, Overlapping, SegsDistinct, Arrived;
    var e := entries[ag];
    GroupsSegs(entries, |dev|, ag);
    GroupWithin(e, dest, |dev|);
    var ms := GroupMoves(e.segs, dest);
    GroupMovesFacts(e.segs, dest, ms);
    var now := Perform(dev, ms);
    forall x | 0 <= x < |dev| && !(dest <= x < dest + Bytes(e.length)) ensures now[x] == dev[x] {
      Untouched(dev, ms, x);
    }
    forall i | 0 <= i < |e.segs| ensures Arrived(dev, now, e.segs[i], dest, Bytes(e.segs[i].blocks)) {
      assert SegOk(e, e.segs[i]);
      AllDelivered(dev, ms, e.segs[i], dest, e.length);
    }
    MovedContents(entries, dev, now, ag, dest);
  }

  lemma AllDelivered(dev: seq<bv8>, ms: seq<Move>, s: Seg, dest: nat, length: nat)
    requires MovesFit(ms, |dev|) && TosApart(ms) && ReadFirst(ms) && SegEnd(s) <= |dev|
    requires s.agBlock + s.blocks <= length && dest + Bytes(length) <= |dev|
    requires forall q: nat :: s.off <= q < SegEnd(s) ==> Reads(ms, s, dest, q)
    ensures Arrived(dev, Perform(dev, ms), s, dest, Bytes(s.blocks))
  {
    hide Perform, ReadFirst, TosApart;
    var now, to, n := Perform(dev, ms), dest + Bytes(s.agBlock), Bytes(s.blocks);
    var there, here := now[to..to + n], dev[s.off..s.off + n];
    forall p | 0 <= p < |here| ensures there[p] == here[p] {
      assert Reads(ms, s, dest, s.off + p);
      var k :| 0 <= k < |ms| && ChunkOf(ms[k], s, dest) && Between(ms[k].from, ms[k].n, s.off + p);
      Delivered(dev, ms, k, s.off + p - ms[k].from);
      assert there[p] == now[to + p] && here[p] == dev[s.off + p];
    }
  }

  /** Otherwise some contents of the group are lost. */
  lemma OverwrittenLoses(entries: seq<AgEntry>, size: nat, ag: nat, dest: nat) returns (dev: seq<bv8>)
    requires Target(entries, size, ag, dest) && !ReadFirst(GroupMoves(entries[ag].segs, dest))
    ensures |dev| == size && MovesFit(GroupMoves(entries[ag].segs, dest), size)
    ensures !SameContents(entries, dev, entries[ag := Moved(entries[ag], dest)], Perform(dev, GroupMoves(entries[ag].segs, dest)), {})
  {
    hide GroupMoves, Perform, ReadFirst, Overlapping, SegsDistinct, FromsApart, Mark;
    var e := entries[ag];
    GroupsSegs(entries, size, ag);
    GroupWithin(e, dest, size);
    var ms := GroupMoves(e.segs, dest);
    GroupMovesFacts(e.segs, dest, ms);
    var y, k := Lost(size, ms);
    dev := Mark(size, y);
    assert ChunkOfSome(ms[k], e.segs, dest);
    var i :| 0 <= i < |e.segs| && ChunkOf(ms[k], e.segs[i], dest);
    ByteDiffers(entries, dev, Perform(dev, ms), ag, dest, i, y);
  }

  lemma ByteDiffers(entries: seq<AgEntry>, dev: seq<bv8>, now: seq<bv8>, ag: nat, dest: nat, i: nat, y: nat)
    requires Target(entries, |dev|, ag, dest) && |now| == |dev| && i < |entries[ag].segs|
    requires var s := entries[ag].segs[i];
      s.off <= y < SegEnd(s) <= |dev| && s.agBlock + s.blocks <= entries[ag].length
      && now[dest + Bytes(s.agBlock) + (y - s.off)] != dev[y]
    ensures !SameContents(entries, dev, entries[ag := Moved(entries[ag], dest)], now, {})
  {
    hide Overlapping;
    var e, s := entries[ag], entries[ag].segs[i];
    var p := y - s.off;
    var l, r := s.agBlock + p / BLOCKSIZE, p % BLOCKSIZE;
    assert Holds(s, l) && l < e.length;
    ResolveIsTotal(entries, |dev|, ag, l);
    FindIt(e.segs, i, l);
    var after := entries[ag := Moved(e, dest)];
    FindIt(Moved(e, dest).segs, 0, l);
    var o, q := s.off + Bytes(l - s.agBlock), dest + Bytes(l);
    assert o + r == y && q + r == dest + Bytes(s.agBlock) + p;
    assert Content(entries, dev, ag, l) == Some(dev[o..o + BLOCKSIZE]);
    assert Content(after, now, ag, l) == Some(now[q..q + BLOCKSIZE]);
    assert dev[o..o + BLOCKSIZE][r] == dev[y] && now[q..q + BLOCKSIZE][r] == now[q + r];
  }

  /** Whatever the device holds, every address reads as before exactly if no chunk is overwritten unread. */
  lemma MoveKeepsExactlyWhen(entries: seq<AgEntry>, size: nat, ag: nat, dest: nat)
    requires Target(entries, size, ag, dest)
    ensures MovesFit(GroupMoves(entries[ag].segs, dest), size)
    ensures (forall dev: seq<bv8> :: |dev| == size ==>
               SameContents(entries, dev, entries[ag := Moved(entries[ag], dest)], Perform(dev, GroupMoves(entries[ag].segs, dest)), {}))
            <==> ReadFirst(GroupMoves(entries[ag].segs, dest))
  {
    hide GroupMoves, Perform, SameContents, ReadFirst, Overlapping, MapOk, SegsDistinct;
    GroupsSegs(entries, size, ag);
    GroupWithin(entries[ag], dest, size);
    var ms := GroupMoves(entries[ag].segs, dest);
    if ReadFirst(ms) {
      forall dev: seq<bv8> | |dev| == size
        ensures SameContents(entries, dev, entries[ag := Moved(entries[ag], dest)], Perform(dev, ms), {})
      {
        ReadFirstKeeps(entries, dev, ag, dest);
      }
    } else {
      var dev := OverwrittenLoses(entries, size, ag, dest);
    }
  }

  // --- the two usual cases ------------------------------------------------------------------------

  /** The new home of a group does not reach into segment s. */
  predicate SegClear(s: Seg, dest: nat, length: nat) {
    SegEnd(s) <= dest || dest + Bytes(length) <= s.off
  }

  predicate ClearOfOwn(e: AgEntry, dest: nat) {
    forall i :: 0 <= i < |e.segs| ==> SegClear(e.segs[i], dest, e.length)
  }

  lemma ClearIsReadFirst(e: AgEntry, dest: nat)
    requires EntryOk(e) && SegsDistinct(e.segs) && ClearOfOwn(e, dest)
    ensures ReadFirst(GroupMoves(e.segs, dest))
  {
    hide GroupMoves, SegsDistinct;
    var ms := GroupMoves(e.segs, dest);
    GroupMovesFacts(e.segs, dest, ms);
    forall i, j | 0 <= i < j < |ms| ensures ms[i].to + ms[i].n <= ms[j].from || ms[j].from + ms[j].n <= ms[i].to {
      assert ChunkOfSome(ms[i], e.segs, dest) && ChunkOfSome(ms[j], e.segs, dest);
      var x :| 0 <= x < |e.segs| && ChunkOf(ms[i], e.segs[x], dest);
      var y :| 0 <= y < |e.segs| && ChunkOf(ms[j], e.segs[y], dest);
      assert SegOk(e, e.segs[x]) && SegClear(e.segs[y], dest, e.length);
    }
  }

  /**
  A group in one piece, as groups are made and moved: it may go down the device, or to a place clear of
  where it is; going up into itself loses contents unless it is no longer than one chunk.
  */
  lemma OnePieceExactlyWhen(e: AgEntry, dest: nat)
    requires |e.segs| == 1
    ensures var s := e.segs[0];
      ReadFirst(GroupMoves(e.segs, dest)) <==>
        dest + Bytes(s.agBlock) <= s.off || SegEnd(s) <= dest + Bytes(s.agBlock) || Bytes(s.blocks) <= CHUNK
  {
    hide SegMoves;
    var s := e.segs[0];
    assert GroupMoves(e.segs[1..], dest) == [];
    var ms, to, n := SegMoves(s, dest, 0), dest + Bytes(s.agBlock), Bytes(s.blocks);
    assert GroupMoves(e.segs, dest) == ms;
    SegMovesFacts(s, dest, 0, ms);
    FirstChunk(s, dest);
    if s.off < to < SegEnd(s) && n > CHUNK {
      var y := if to < s.off + CHUNK then s.off + CHUNK else to;
      assert Reads(ms, s, dest, y);
      var k :| 0 <= k < |ms| && ChunkOf(ms[k], s, dest) && Between(ms[k].from, ms[k].n, y);
      assert k > 0 && Between(ms[0].to, ms[0].n, y);
    }
  }

  lemma FirstChunk(s: Seg, dest: nat)
    ensures var ms, n := SegMoves(s, dest, 0), Bytes(s.blocks);
      && (n > CHUNK ==> |ms| >= 1 && ms[0] == Move(s.off, dest + Bytes(s.agBlock), CHUNK))
      && (n <= CHUNK ==> |ms| <= 1)
  {
    if 0 < Bytes(s.blocks) <= CHUNK {
      assert SegMoves(s, dest, Bytes(s.blocks)) == [];
    }
  }
}
