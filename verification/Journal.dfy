/**
The metadata journal as data: block contents, journal transactions, the
validation of one transaction, and the list of transactions a replay finds.

Block addresses are identified with the device locations they resolve to
(ResizeLaws.ResolveIsInjective shows that the AG map never confuses two of
them). CRC32C is modelled as a collision-free checksum: the sum stored in a
commit record is the checksummed content itself. Garbage is what a torn write
leaves behind: it passes no checksum.
*/
module Journal {
  import opened Wrappers

  /** (4096 - 24) / 8 target addresses fit one descriptor block. */
  const MAX_TARGETS := 509

  datatype Block =
    | Payload(bytes: seq<bv8>)
    | Desc(seqno: nat, targets: seq<nat>)
    | Commit(seqno: nat, sum: seq<Block>)
    | Super(ckpt: Checkpoint)
    | Garbage(noise: nat)

  /** The journal fields of the superblock, with its generation. */
  datatype Checkpoint = Checkpoint(gen: nat, head: nat, seqno: nat)

  type Image = seq<Block>

  /**
  Where things live: the primary superblock at location 0, its backup copy, the first group's header,
  and the journal area.
  */
  datatype Geometry = Geometry(size: nat, backup: nat, header: nat, start: nat, length: nat) {
    predicate Ok() {
      && 0 < start && start + length <= size
      && 0 < backup < size && !InJournal(backup)
      && IsMeta(header)
    }

    predicate InJournal(l: int) {
      start <= l < start + length
    }

    /** A location that may hold journaled metadata. */
    predicate IsMeta(l: int) {
      0 < l < size && l != backup && !InJournal(l)
    }
  }

  /** A transaction in BTreeMap order: target addresses ascending, one new content per target. */
  datatype Txn = Txn(targets: seq<nat>, data: seq<Block>) {
    function Needed(): nat { |targets| + 2 }

    predicate Ok(g: Geometry) {
      && 0 < |targets| == |data|
      && (forall i, j :: 0 <= i < j < |targets| ==> targets[i] < targets[j])
      && (forall i :: 0 <= i < |targets| ==> g.IsMeta(targets[i]))
      && (forall i :: 0 <= i < |data| ==> data[i].Payload?)
    }

    /** The structural limits checked by commit. */
    predicate Fits(g: Geometry) {
      |targets| <= MAX_TARGETS && Needed() <= g.length
    }
  }

  /** The first group's header parses: it is what it was last written to be, not a torn write. */
  predicate HeaderParses(g: Geometry, img: Image)
    requires g.Ok() && |img| == g.size
  {
    img[g.header].Payload?
  }

  // --- one transaction in the journal ---------------------------------------

  /** The transaction found at position pos, if all its blocks are in place and carry this number. */
  function TryRead(g: Geometry, img: Image, pos: nat, seqno: nat): Option<Txn>
    requires g.Ok() && |img| == g.size
  {
    if pos + 2 > g.length then None else
    var d := img[g.start + pos];
    if !d.Desc? || d.seqno != seqno then None else
    var n := |d.targets|;
    if n == 0 || n > MAX_TARGETS || pos + n + 2 > g.length then None else
    var c := img[g.start + pos + n + 1];
    if !c.Commit? || c.seqno != seqno then None else
    var data := img[g.start + pos + 1 .. g.start + pos + 1 + n];
    if c.sum != [d] + data then None else Some(Txn(d.targets, data))
  }

  datatype Found = Found(pos: nat, txn: Txn)

  /** Look at the expected position, then at block 0 in case the writer wrapped. */
  function Probe(g: Geometry, img: Image, head: nat, seqno: nat): Option<Found>
    requires g.Ok() && |img| == g.size
  {
    match TryRead(g, img, head, seqno)
    case Some(t) => Some(Found(head, t))
    case None =>
      if head == 0 then None else
      match TryRead(g, img, 0, seqno)
      case Some(t) => Some(Found(0, t))
      case None => None
  }

  /** The journal index following a transaction. */
  function NextHead(g: Geometry, pos: nat, t: Txn): nat {
    var h := pos + |t.targets| + 2;
    if h >= g.length then 0 else h
  }

  // --- the transactions a replay finds ----------------------------------------

  /** The block at a journal index. */
  function Slot(g: Geometry, img: Image, i: nat): Block
    requires g.Ok() && |img| == g.size && i < g.length
  {
    img[g.start + i]
  }

  predicate DescAtLeast(b: Block, seqno: nat) {
    b.Desc? && b.seqno >= seqno
  }

  /** Journal indices of descriptors numbered at or above seqno. */
  ghost function DescsFrom(g: Geometry, img: Image, seqno: nat): set<nat>
    requires g.Ok() && |img| == g.size
  {
    set i: nat | i < g.length && DescAtLeast(Slot(g, img, i), seqno)
  }

  /** Consuming one transaction removes its descriptor from the set: replay terminates. */
  lemma ProbeShrinksDescs(g: Geometry, img: Image, head: nat, seqno: nat)
    requires g.Ok() && |img| == g.size
    requires Probe(g, img, head, seqno).Some?
    ensures |DescsFrom(g, img, seqno + 1)| < |DescsFrom(g, img, seqno)|
  {
    var pos := Probe(g, img, head, seqno).value.pos;
    var a, b := DescsFrom(g, img, seqno), DescsFrom(g, img, seqno + 1);
    assert pos in a && pos !in b;
    assert b <= a - {pos};
    Fewer(b, a - {pos});
  }

  /** The transactions replay applies, in order, starting from a checkpoint position. */
  ghost function Pending(g: Geometry, img: Image, head: nat, seqno: nat): seq<Txn>
    requires g.Ok() && |img| == g.size
    decreases |DescsFrom(g, img, seqno)|
  {
    match Probe(g, img, head, seqno)
    case None => []
    case Some(f) =>
      ProbeShrinksDescs(g, img, head, seqno);
      [f.txn] + Pending(g, img, NextHead(g, f.pos, f.txn), seqno + 1)
  }

  /** Pending depends on the journal area only. */
  ghost predicate SameJournal(g: Geometry, a: Image, b: Image)
    requires g.Ok() && |a| == |b| == g.size
  {
    a[g.start .. g.start + g.length] == b[g.start .. g.start + g.length]
  }

  lemma SameJournalAt(g: Geometry, a: Image, b: Image, i: nat)
    requires g.Ok() && |a| == |b| == g.size && SameJournal(g, a, b) && i < g.length
    ensures a[g.start + i] == b[g.start + i]
  {
    var ja, jb := a[g.start .. g.start + g.length], b[g.start .. g.start + g.length];
    assert ja[i] == a[g.start + i] && jb[i] == b[g.start + i];
  }

  lemma TryReadSameJournal(g: Geometry, a: Image, b: Image, pos: nat, seqno: nat)
    requires g.Ok() && |a| == |b| == g.size && SameJournal(g, a, b)
    ensures TryRead(g, a, pos, seqno) == TryRead(g, b, pos, seqno)
  {
    if pos + 2 <= g.length {
      SameJournalAt(g, a, b, pos);
      var d := a[g.start + pos];
      if d.Desc? && pos + |d.targets| + 2 <= g.length {
        var n := |d.targets|;
        SameJournalAt(g, a, b, pos + n + 1);
        var da, db := a[g.start + pos + 1 .. g.start + pos + 1 + n], b[g.start + pos + 1 .. g.start + pos + 1 + n];
        forall i | 0 <= i < n ensures da[i] == db[i] {
          SameJournalAt(g, a, b, pos + 1 + i);
        }
        assert da == db;
      }
    }
  }

  lemma {:induction false} PendingSameJournal(g: Geometry, a: Image, b: Image, head: nat, seqno: nat)
    requires g.Ok() && |a| == |b| == g.size && SameJournal(g, a, b)
    ensures Pending(g, a, head, seqno) == Pending(g, b, head, seqno)
    decreases |DescsFrom(g, a, seqno)|
  {
    TryReadSameJournal(g, a, b, head, seqno);
    TryReadSameJournal(g, a, b, 0, seqno);
    if Probe(g, a, head, seqno).Some? {
      var f := Probe(g, a, head, seqno).value;
      ProbeShrinksDescs(g, a, head, seqno);
      PendingSameJournal(g, a, b, NextHead(g, f.pos, f.txn), seqno + 1);
    }
  }

  // --- applying transactions in place -----------------------------------------------

  /** The first n target writes of a transaction. */
  function ApplyFirst(img: Image, t: Txn, n: nat): (r: Image)
    requires n <= |t.targets| == |t.data|
    requires forall i :: 0 <= i < n ==> t.targets[i] < |img|
    ensures |r| == |img|
    ensures forall l :: 0 <= l < |img| && l !in t.targets[..n] ==> r[l] == img[l]
  {
    if n == 0 then img else
    var r := ApplyFirst(img, t, n - 1)[t.targets[n - 1] := t.data[n - 1]];
    assert t.targets[..n] == t.targets[..n - 1] + [t.targets[n - 1]];
    r
  }

  function Apply(img: Image, t: Txn): (r: Image)
    requires |t.targets| == |t.data|
    requires forall k :: 0 <= k < |t.targets| ==> t.targets[k] < |img|
    ensures |r| == |img|
    ensures forall l :: 0 <= l < |img| && l !in t.targets ==> r[l] == img[l]
  {
    assert t.targets[..|t.targets|] == t.targets;
    ApplyFirst(img, t, |t.targets|)
  }

  lemma {:induction false} ApplyFirstAt(img: Image, t: Txn, n: nat, i: nat)
    requires i < n <= |t.targets| == |t.data|
    requires forall k :: 0 <= k < n ==> t.targets[k] < |img|
    requires forall j, k :: 0 <= j < k < |t.targets| ==> t.targets[j] < t.targets[k]
    ensures ApplyFirst(img, t, n)[t.targets[i]] == t.data[i]
  {
    if i < n - 1 {
      ApplyFirstAt(img, t, n - 1, i);
    }
  }

  /**
  Every transaction in the list addresses metadata, neither the journal area nor a superblock copy,
  and puts nothing but a header where the header is.
  */
  ghost predicate Closed(g: Geometry, ts: seq<Txn>) {
    forall i :: 0 <= i < |ts| ==> ClosedTxn(g, ts[i])
  }

  ghost predicate ClosedTxn(g: Geometry, t: Txn) {
    && |t.targets| == |t.data|
    && (forall k :: 0 <= k < |t.targets| ==> g.IsMeta(t.targets[k]))
    && forall k :: 0 <= k < |t.targets| && t.targets[k] == g.header ==> t.data[k].Payload?
  }

  ghost function ApplyAll(g: Geometry, img: Image, ts: seq<Txn>): (r: Image)
    requires Closed(g, ts) && |img| == g.size
    ensures |r| == g.size
    decreases |ts|
  {
    if ts == [] then img else ApplyAll(g, Apply(img, ts[0]), ts[1..])
  }

  lemma ApplyKeepsJournal(g: Geometry, img: Image, t: Txn)
    requires g.Ok() && ClosedTxn(g, t) && |img| == g.size
    ensures SameJournal(g, img, Apply(img, t))
  {
    forall l | g.start <= l < g.start + g.length
      ensures Apply(img, t)[l] == img[l]
    {
      assert g.InJournal(l);
    }
  }

  lemma {:induction false} ApplyAllKeepsJournal(g: Geometry, img: Image, ts: seq<Txn>)
    requires g.Ok() && Closed(g, ts) && |img| == g.size
    ensures SameJournal(g, img, ApplyAll(g, img, ts))
    decreases |ts|
  {
    if ts != [] {
      ApplyKeepsJournal(g, img, ts[0]);
      ApplyAllKeepsJournal(g, Apply(img, ts[0]), ts[1..]);
    }
  }

  lemma {:induction false} ApplyAllAppend(g: Geometry, img: Image, ts: seq<Txn>, t: Txn)
    requires Closed(g, ts) && ClosedTxn(g, t) && |img| == g.size
    ensures Closed(g, ts + [t])
    ensures ApplyAll(g, img, ts + [t]) == Apply(ApplyAll(g, img, ts), t)
    decreases |ts|
  {
    if ts == [] {
      assert ts + [t] == [t];
      assert ApplyAll(g, img, [t]) == ApplyAll(g, Apply(img, t), []);
    } else {
      ApplyAllAppend(g, Apply(img, ts[0]), ts[1..], t);
      assert (ts + [t])[0] == ts[0] && (ts + [t])[1..] == ts[1..] + [t];
    }
  }

  /** ApplyAll works pointwise: at each location the last write wins, else the image shows through. */
  lemma {:induction false} ApplyAllPointwise(g: Geometry, a: Image, b: Image, ts: seq<Txn>, l: nat)
    requires Closed(g, ts) && |a| == |b| == g.size && l < g.size
    requires a[l] == b[l] || exists i :: 0 <= i < |ts| && l in ts[i].targets
    ensures ApplyAll(g, a, ts)[l] == ApplyAll(g, b, ts)[l]
    decreases |ts|
  {
    if ts != [] {
      var t := ts[0];
      assert ClosedTxn(g, t);
      assert t.targets[..|t.targets|] == t.targets;
      if a[l] == b[l] || l in t.targets {
        ApplyPointwise(a, b, t, |t.targets|, l);
      } else {
        var i :| 0 <= i < |ts| && l in ts[i].targets;
        assert ts[i] == ts[1..][i - 1];
      }
      ApplyAllPointwise(g, Apply(a, t), Apply(b, t), ts[1..], l);
    }
  }

  lemma {:induction false} ApplyPointwise(a: Image, b: Image, t: Txn, n: nat, l: nat)
    requires n <= |t.targets| == |t.data| && |a| == |b| && l < |a|
    requires forall k :: 0 <= k < n ==> t.targets[k] < |a|
    requires a[l] == b[l] || l in t.targets[..n]
    ensures ApplyFirst(a, t, n)[l] == ApplyFirst(b, t, n)[l]
  {
    if n > 0 {
      assert t.targets[..n] == t.targets[..n - 1] + [t.targets[n - 1]];
      if l != t.targets[n - 1] {
        ApplyPointwise(a, b, t, n - 1, l);
      }
    }
  }
}
