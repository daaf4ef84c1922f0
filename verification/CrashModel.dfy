/**
The write log of a device, the power-cut states it allows, and the writes a
commit issues. Writes between two syncs form one epoch; nothing orders them.
*/
module CrashModel {
  import opened Wrappers
  import opened Journal

  /** One recorded write: sync epoch, location, contents. */
  datatype Write = Write(epoch: nat, loc: nat, data: Block)

  function ApplyLog(img: Image, ws: seq<Write>): (r: Image)
    ensures |r| == |img|
  {
    if ws == [] then img
    else
      var r := ApplyLog(img, ws[..|ws| - 1]);
      var w := ws[|ws| - 1];
      if w.loc < |r| then r[w.loc := w.data] else r
  }

  /** Writes of the epochs that a sync has closed before epoch e. */
  function Finished(log: seq<Write>, e: nat): seq<Write> {
    if log == [] then []
    else Finished(log[..|log| - 1], e) + if log[|log| - 1].epoch < e then [log[|log| - 1]] else []
  }

  /** Writes issued in epoch e itself. */
  function Current(log: seq<Write>, e: nat): seq<Write> {
    if log == [] then []
    else Current(log[..|log| - 1], e) + if log[|log| - 1].epoch == e then [log[|log| - 1]] else []
  }

  ghost predicate Landed(ws: seq<Write>, l: nat, b: Block) {
    exists i :: 0 <= i < |ws| && ws[i].loc == l && ws[i].data == b
  }

  ghost predicate Touched(ws: seq<Write>, l: nat) {
    exists i :: 0 <= i < |ws| && ws[i].loc == l
  }

  /** A write to l was in flight and left garbage behind. */
  ghost predicate TornAt(durable: Image, ws: seq<Write>, img: Image, l: nat)
    requires l < |durable| == |img|
  {
    && img[l].Garbage? && img[l] != durable[l]
    && Touched(ws, l) && !Landed(ws, l, img[l])
  }

  /**
  What the medium may hold after a power cut: the durable image with any subset of the
  unsynced writes landed, and at most one of them torn.
  */
  ghost predicate CrashImage(durable: Image, ws: seq<Write>, img: Image) {
    && |img| == |durable|
    && (forall l: nat :: l < |img| ==>
          img[l] == durable[l] || Landed(ws, l, img[l]) || TornAt(durable, ws, img, l))
    && (forall l: nat, m: nat | l < |img| && m < |img| ::
          TornAt(durable, ws, img, l) && TornAt(durable, ws, img, m) ==> l == m)
  }

  /** Power may fail after the first p writes, with epoch e the open one. */
  ghost predicate CrashPoint(log: seq<Write>, p: nat, e: nat) {
    && p <= |log|
    && (p > 0 ==> log[p - 1].epoch <= e)
    && (p < |log| ==> e <= log[p].epoch)
  }

  // --- the writes of one commit -----------------------------------------------

  /** Where the next transaction goes: it never splits across the end of the journal. */
  function Position(g: Geometry, ck: Checkpoint, t: Txn): nat {
    if ck.head + t.Needed() > g.length then 0 else ck.head
  }

  function DescOf(t: Txn, seqno: nat): Block { Desc(seqno, t.targets) }

  function CommitOf(t: Txn, seqno: nat): Block { Commit(seqno, [DescOf(t, seqno)] + t.data) }

  function NextCheckpoint(g: Geometry, ck: Checkpoint, t: Txn): Checkpoint {
    Checkpoint(ck.gen + 1, NextHead(g, Position(g, ck, t), t), ck.seqno + 1)
  }

  /** The k-th block of a journaled transaction: descriptor, data in target order, commit record. */
  function JournalBlock(seqno: nat, t: Txn, k: nat): Block
    requires k < |t.data| + 2
  {
    if k == 0 then DescOf(t, seqno) else if k <= |t.data| then t.data[k - 1] else CommitOf(t, seqno)
  }

  function JournalWrites(g: Geometry, ck: Checkpoint, e: nat, t: Txn): (ws: seq<Write>)
    requires |t.targets| == |t.data|
    ensures |ws| == |t.targets| + 2
  {
    seq(|t.data| + 2, k requires 0 <= k < |t.data| + 2 =>
      Write(e, g.start + Position(g, ck, t) + k, JournalBlock(ck.seqno, t, k)))
  }

  function InPlaceWrites(e: nat, t: Txn): (ws: seq<Write>)
    requires |t.targets| == |t.data|
    ensures |ws| == |t.targets|
  {
    seq(|t.data|, i requires 0 <= i < |t.data| => Write(e, t.targets[i], t.data[i]))
  }

  function SuperWrites(g: Geometry, e: nat, ck: Checkpoint): seq<Write> {
    [Write(e, 0, Super(ck)), Write(e, g.backup, Super(ck))]
  }

  /** Journal, sync, apply in place, sync, checkpoint. */
  function CommitLog(g: Geometry, ck: Checkpoint, e: nat, t: Txn): seq<Write>
    requires |t.targets| == |t.data|
  {
    JournalWrites(g, ck, e, t) + InPlaceWrites(e + 1, t) + SuperWrites(g, e + 2, NextCheckpoint(g, ck, t))
  }

  // --- properties of logs --------------------------------------------------------

  lemma {:induction false} ApplyLogAppend(img: Image, a: seq<Write>, b: seq<Write>)
    ensures ApplyLog(img, a + b) == ApplyLog(ApplyLog(img, a), b)
    decreases |b|
  {
    if b == [] {
      assert a + b == a;
    } else {
      assert (a + b)[..|a + b| - 1] == a + b[..|b| - 1];
      ApplyLogAppend(img, a, b[..|b| - 1]);
    }
  }

  lemma {:induction false} FinishedAppend(a: seq<Write>, b: seq<Write>, e: nat)
    ensures Finished(a + b, e) == Finished(a, e) + Finished(b, e)
    decreases |b|
  {
    if b == [] {
      assert a + b == a;
    } else {
      assert (a + b)[..|a + b| - 1] == a + b[..|b| - 1];
      FinishedAppend(a, b[..|b| - 1], e);
    }
  }

  lemma {:induction false} CurrentAppend(a: seq<Write>, b: seq<Write>, e: nat)
    ensures Current(a + b, e) == Current(a, e) + Current(b, e)
    decreases |b|
  {
    if b == [] {
      assert a + b == a;
    } else {
      assert (a + b)[..|a + b| - 1] == a + b[..|b| - 1];
      CurrentAppend(a, b[..|b| - 1], e);
    }
  }

  ghost predicate AllBefore(log: seq<Write>, e: nat) { forall i :: 0 <= i < |log| ==> log[i].epoch < e }

  ghost predicate AllAt(log: seq<Write>, e: nat) { forall i :: 0 <= i < |log| ==> log[i].epoch == e }

  ghost predicate AllAfter(log: seq<Write>, e: nat) { forall i :: 0 <= i < |log| ==> log[i].epoch > e }

  lemma {:induction false} FilterBefore(log: seq<Write>, e: nat)
    requires AllBefore(log, e)
    ensures Finished(log, e) == log && Current(log, e) == []
  {
    if log != [] {
      FilterBefore(log[..|log| - 1], e);
    }
  }

  lemma {:induction false} FilterAt(log: seq<Write>, e: nat)
    requires AllAt(log, e)
    ensures Finished(log, e) == [] && Current(log, e) == log
  {
    if log != [] {
      FilterAt(log[..|log| - 1], e);
    }
  }

  lemma {:induction false} FilterAfter(log: seq<Write>, e: nat)
    requires AllAfter(log, e)
    ensures Finished(log, e) == [] && Current(log, e) == []
  {
    if log != [] {
      FilterAfter(log[..|log| - 1], e);
    }
  }

  /** A location no write touches keeps its contents. */
  lemma {:induction false} ApplyLogMiss(img: Image, ws: seq<Write>, l: nat)
    requires l < |img| && forall i :: 0 <= i < |ws| ==> ws[i].loc != l
    ensures ApplyLog(img, ws)[l] == img[l]
  {
    if ws != [] {
      ApplyLogMiss(img, ws[..|ws| - 1], l);
    }
  }

  /** A location that is written, always with the same contents, ends up with them. */
  lemma {:induction false} ApplyLogHit(img: Image, ws: seq<Write>, l: nat, k: nat)
    requires l < |img| && k < |ws| && ws[k].loc == l
    requires forall i :: 0 <= i < |ws| && ws[i].loc == l ==> ws[i].data == ws[k].data
    ensures ApplyLog(img, ws)[l] == ws[k].data
  {
    if ws[|ws| - 1].loc != l {
      ApplyLogHit(img, ws[..|ws| - 1], l, k);
    }
  }

  /** Consecutive locations written once each, in ascending order. */
  lemma ApplyConsecutive(img: Image, ws: seq<Write>, at: nat, l: nat)
    requires l < |img|
    requires forall m :: 0 <= m < |ws| ==> ws[m].loc == at + m
    ensures ApplyLog(img, ws)[l] == if at <= l < at + |ws| then ws[l - at].data else img[l]
  {
    if at <= l < at + |ws| {
      ApplyLogHit(img, ws, l, l - at);
    } else {
      ApplyLogMiss(img, ws, l);
    }
  }
}
