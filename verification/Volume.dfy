/**
A mounted volume as the journal code sees it: the device image, the recorded
write log with its sync epoch, and the in-memory journal fields of the
superblock. Commit, replay and the pending count run as loops over device
blocks and are proved against Journal, CrashModel and CrashSafety.
*/
module JournalVolume {
  import opened Wrappers
  import opened Journal
  import opened CrashModel
  import opened CrashSafety

  datatype CommitError = TransactionTooLarge | LargerThanJournal

  /** The journal position and number after the given transactions. */
  ghost function CheckpointAfter(g: Geometry, img: Image, head: nat, seqno: nat): (r: (nat, nat))
    requires g.Ok() && |img| == g.size
    decreases |DescsFrom(g, img, seqno)|
  {
    match Probe(g, img, head, seqno)
    case None => (head, seqno)
    case Some(f) =>
      ProbeShrinksDescs(g, img, head, seqno);
      CheckpointAfter(g, img, NextHead(g, f.pos, f.txn), seqno + 1)
  }

  /** The in-place writes of a list of transactions, one after the other. */
  ghost function ReplayWrites(e: nat, ts: seq<Txn>): seq<Write>
    requires forall i :: 0 <= i < |ts| ==> |ts[i].targets| == |ts[i].data|
  {
    if ts == [] then [] else ReplayWrites(e, ts[..|ts| - 1]) + InPlaceWrites(e, ts[|ts| - 1])
  }

  class Volume {
    const g: Geometry
    var image: Image
    var log: seq<Write>
    var epoch: nat
    var ck: Checkpoint

    ghost predicate Valid()
      reads this
    {
      g.Ok() && |image| == g.size
    }

    constructor (g: Geometry, image: Image, ck: Checkpoint)
      requires g.Ok() && |image| == g.size
      ensures Valid() && this.g == g && this.image == image && this.ck == ck && log == [] && epoch == 0
    {
      this.g, this.image, this.log, this.epoch, this.ck := g, image, [], 0, ck;
    }

    method Pwrite(loc: nat, data: Block)
      requires Valid() && loc < g.size
      modifies this`image, this`log
      ensures Valid() && log == old(log) + [Write(epoch, loc, data)]
      ensures image == old(image)[loc := data]
    {
      log := log + [Write(epoch, loc, data)];
      image := image[loc := data];
    }

    /** The epoch ends: everything written so far is durable. */
    method Sync()
      modifies this`epoch
      ensures epoch == old(epoch) + 1
    {
      epoch := epoch + 1;
    }

    method WriteSuperblock()
      requires Valid()
      modifies this`image, this`log, this`ck
      ensures Valid() && ck == old(ck).(gen := old(ck).gen + 1)
      ensures log == old(log) + SuperWrites(g, epoch, ck)
      ensures image == ApplyLog(old(image), SuperWrites(g, epoch, ck))
    {
      ck := ck.(gen := ck.gen + 1);
      var bytes := Super(ck);
      Pwrite(0, bytes);
      Pwrite(g.backup, bytes);
      ghost var ws := SuperWrites(g, epoch, ck);
      ApplyLogOne(old(image), ws[0]);
      ApplyLogOne(old(image)[0 := bytes], ws[1]);
      ApplyLogAppend(old(image), [ws[0]], [ws[1]]);
      assert ws == [ws[0]] + [ws[1]];
    }

    /** Make the writes of a transaction last, all or none of them. */
    method Commit(t: Txn) returns (r: Result<(), CommitError>)
      requires Valid() && (t == Txn([], []) || t.Ok(g))
      modifies this`image, this`log, this`epoch, this`ck
      ensures Valid()
      ensures r.Ok? <==> t.targets == [] || t.Fits(g)
      ensures r.Err? || t.targets == [] ==>
        image == old(image) && log == old(log) && epoch == old(epoch) && ck == old(ck)
      ensures r.Ok? && t.targets != [] ==>
        && log == old(log) + CommitLog(g, old(ck), old(epoch), t)
        && image == ApplyLog(old(image), CommitLog(g, old(ck), old(epoch), t))
        && epoch == old(epoch) + 2
        && ck == NextCheckpoint(g, old(ck), t)
    {
      if t.targets == [] {
        return Ok(());
      }
      if |t.targets| > MAX_TARGETS {
        return Err(TransactionTooLarge);
      }
      var needed := |t.targets| + 2;
      if needed > g.length {
        return Err(LargerThanJournal);
      }
      var head := ck.head;
      if head + needed > g.length {
        head := 0;
      }
      CommitAt(t, head);
      return Ok(());
    }

    /** Journal, sync, apply, sync, checkpoint. */
    method CommitAt(t: Txn, head: nat)
      requires Valid() && t.Ok(g) && t.Fits(g) && head == Position(g, ck, t)
      modifies this`image, this`log, this`epoch, this`ck
      ensures Valid()
      ensures log == old(log) + CommitLog(g, old(ck), old(epoch), t)
      ensures image == ApplyLog(old(image), CommitLog(g, old(ck), old(epoch), t))
      ensures epoch == old(epoch) + 2 && ck == NextCheckpoint(g, old(ck), t)
    {
      hide JournalWrites, InPlaceWrites, SuperWrites, ApplyLog, ClosedTxn;
      ghost var jw, aw := JournalWrites(g, ck, epoch, t), InPlaceWrites(epoch + 1, t);
      TxnIsClosed(g, t);
      WriteJournal(t, head);
      Sync();
      ApplyInPlace(t);
      Sync();
      // checkpoint
      ck := ck.(head := head + |t.targets| + 2);
      if ck.head >= g.length {
        ck := ck.(head := 0);
      }
      ck := ck.(seqno := ck.seqno + 1);
      WriteSuperblock();
      ApplyLogAppend(old(image), jw, aw);
      ApplyLogAppend(old(image), jw + aw, SuperWrites(g, epoch, ck));
    }

    /** Descriptor, data blocks and commit record, with a running checksum. */
    method WriteJournal(t: Txn, head: nat)
      requires Valid() && t.Ok(g) && t.Fits(g) && head == Position(g, ck, t)
      modifies this`image, this`log
      ensures Valid()
      ensures log == old(log) + JournalWrites(g, ck, epoch, t)
      ensures image == ApplyLog(old(image), JournalWrites(g, ck, epoch, t))
    {
      ghost var jw := JournalWrites(g, ck, epoch, t);
      var desc := DescOf(t, ck.seqno);
      var tc := [desc];
      Pwrite(g.start + head, desc);
      assert jw[..1] == [jw[0]];
      ApplyLogOne(old(image), jw[0]);
      var i := 0;
      while i < |t.data|
        invariant 0 <= i <= |t.data| && Valid()
        invariant tc == [desc] + t.data[..i]
        invariant log == old(log) + jw[..i + 1]
        invariant image == ApplyLog(old(image), jw[..i + 1])
      {
        tc := tc + [t.data[i]];
        assert jw[i + 1] == Write(epoch, g.start + head + 1 + i, t.data[i]);
        Pwrite(g.start + head + 1 + i, t.data[i]);
        assert jw[..i + 2] == jw[..i + 1] + [jw[i + 1]] && jw[..i + 2][..i + 1] == jw[..i + 1];
        i := i + 1;
      }
      assert t.data[..i] == t.data;
      assert jw[i + 1] == Write(epoch, g.start + head + 1 + i, CommitOf(t, ck.seqno));
      Pwrite(g.start + head + 1 + i, Block.Commit(ck.seqno, tc));
      assert jw == jw[..i + 1] + [jw[i + 1]];
    }

    method ApplyInPlace(t: Txn)
      requires Valid() && ClosedTxn(g, t)
      modifies this`image, this`log
      ensures Valid()
      ensures log == old(log) + InPlaceWrites(epoch, t)
      ensures image == ApplyLog(old(image), InPlaceWrites(epoch, t)) == Apply(old(image), t)
    {
      ghost var ws := InPlaceWrites(epoch, t);
      var i := 0;
      while i < |t.targets|
        invariant 0 <= i <= |t.targets| && Valid()
        invariant log == old(log) + ws[..i]
        invariant image == ApplyLog(old(image), ws[..i]) == ApplyFirst(old(image), t, i)
      {
        Pwrite(t.targets[i], t.data[i]);
        assert ws[..i + 1] == ws[..i] + [ws[i]] && ws[..i + 1][..i] == ws[..i];
        i := i + 1;
      }
      assert ws[..i] == ws;
    }

    /** Validate the transaction at a journal index, recomputing its checksum block by block. */
    method TryReadTxn(pos: nat, seqno: nat) returns (r: Option<Txn>)
      requires Valid()
      ensures r == TryRead(g, image, pos, seqno)
    {
      if pos + 2 > g.length {
        return None;
      }
      var desc := image[g.start + pos];
      if !desc.Desc? || desc.seqno != seqno {
        return None;
      }
      var count := |desc.targets|;
      if count == 0 || count > MAX_TARGETS || pos + count + 2 > g.length {
        return None;
      }
      var commit := image[g.start + pos + count + 1];
      if !commit.Commit? || commit.seqno != seqno {
        return None;
      }
      var blocks, tc := [], [desc];
      var i := 0;
      while i < count
        invariant 0 <= i <= count
        invariant blocks == image[g.start + pos + 1 .. g.start + pos + 1 + i]
        invariant tc == [desc] + blocks
      {
        var data := image[g.start + pos + 1 + i];
        tc := tc + [data];
        blocks := blocks + [data];
        i := i + 1;
      }
      if tc != commit.sum {
        return None;
      }
      return Some(Txn(desc.targets, blocks));
    }

    method ProbeTxn(head: nat, seqno: nat) returns (r: Option<Found>)
      requires Valid()
      ensures r == Probe(g, image, head, seqno)
    {
      var t := TryReadTxn(head, seqno);
      if t.Some? {
        return Some(Found(head, t.value));
      }
      if head != 0 {
        // the checkpoint lags behind, so the next one may stand at the journal's start
        t := TryReadTxn(0, seqno);
        if t.Some? {
          return Some(Found(0, t.value));
        }
      }
      return None;
    }

    /** Apply committed transactions found from the checkpoint on. */
    method Replay() returns (applied: nat)
      requires Valid() && Closed(g, Pending(g, image, ck.head, ck.seqno))
      modifies this`image, this`log, this`epoch, this`ck
      ensures Valid()
      ensures var ts := Pending(g, old(image), old(ck).head, old(ck).seqno);
        var end := CheckpointAfter(g, old(image), old(ck).head, old(ck).seqno);
        && applied == |ts|
        && SameMeta(g, image, ApplyAll(g, old(image), ts))
        && SameJournal(g, image, old(image))
        && (applied == 0 ==> image == old(image) && log == old(log) && ck == old(ck) && epoch == old(epoch))
        && (applied > 0 ==>
              && ck == Checkpoint(old(ck).gen + 1, end.0, end.1)
              && epoch == old(epoch) + 1
              && log == old(log) + ReplayWrites(old(epoch), ts) + SuperWrites(g, epoch, ck)
              && image[0] == image[g.backup] == Super(ck))
    {
      hide Pending, CheckpointAfter, DescsFrom, ReplayWrites, SameJournal, TryRead, Apply;
      ghost var ts := Pending(g, image, ck.head, ck.seqno);
      ghost var end := CheckpointAfter(g, image, ck.head, ck.seqno);
      var head: nat, seqno: nat := ck.head, ck.seqno;
      applied := 0;
      var more := true;
      assert ts[..0] == [] && ts[0..] == ts;
      NothingReplayed(g, epoch, log, image);
      while more
        invariant Valid() && epoch == old(epoch) && ck == old(ck)
        invariant applied <= |ts| && seqno == ck.seqno + applied
        invariant Pending(g, old(image), head, seqno) == ts[applied..]
        invariant CheckpointAfter(g, old(image), head, seqno) == end
        invariant Closed(g, ts[..applied]) && image == ApplyAll(g, old(image), ts[..applied])
        invariant log == old(log) + ReplayWrites(epoch, ts[..applied])
        invariant !more ==> Probe(g, old(image), head, seqno).None?
        decreases more, |DescsFrom(g, old(image), seqno)|
      {
        ApplyAllKeepsJournal(g, old(image), ts[..applied]);
        ProbeSameJournal(g, old(image), image, head, seqno);
        PendingStep(g, old(image), head, seqno);
        var found := ProbeTxn(head, seqno);
        if found.None? {
          more := false;
        } else {
          var f := found.value;
          ReplayAppend(g, old(image), epoch, ts, applied);
          ApplyInPlace(f.txn);
          head := f.pos + |f.txn.targets| + 2;
          if head >= g.length {
            head := 0;
          }
          seqno := seqno + 1;
          applied := applied + 1;
        }
      }
      PendingStep(g, old(image), head, seqno);
      assert ts[..applied] == ts;
      ApplyAllKeepsJournal(g, old(image), ts);
      if applied > 0 {
        Sync();
        ck := ck.(head := head, seqno := seqno);
        ghost var replayed := image;
        WriteSuperblock();
        AfterSuperblock(g, replayed, epoch, ck);
        SameJournalTrans(g, old(image), replayed, image);
      }
    }

    /** How many transactions replay would find, with the volume left as it is. */
    method JournalPending() returns (n: nat)
      requires Valid()
      ensures n == |Pending(g, image, ck.head, ck.seqno)|
    {
      hide Pending, CheckpointAfter, DescsFrom, Probe;
      var head: nat, seqno: nat := ck.head, ck.seqno;
      n := 0;
      var more := true;
      while more
        invariant n + |Pending(g, image, head, seqno)| == |Pending(g, image, ck.head, ck.seqno)|
        invariant !more ==> Probe(g, image, head, seqno).None?
        decreases more, |DescsFrom(g, image, seqno)|
      {
        PendingStep(g, image, head, seqno);
        var found := ProbeTxn(head, seqno);
        if found.None? {
          more := false;
        } else {
          head := found.value.pos + |found.value.txn.targets| + 2;
          if head >= g.length {
            head := 0;
          }
          seqno := seqno + 1;
          n := n + 1;
        }
      }
      PendingStep(g, image, head, seqno);
    }
  }

  /** One probe unfolds the list of pending transactions by one. */
  lemma PendingStep(g: Geometry, img: Image, head: nat, seqno: nat)
    requires g.Ok() && |img| == g.size
    ensures match Probe(g, img, head, seqno)
      case None => Pending(g, img, head, seqno) == [] && CheckpointAfter(g, img, head, seqno) == (head, seqno)
      case Some(f) =>
        var ts, next := Pending(g, img, head, seqno), NextHead(g, f.pos, f.txn);
        && ts != [] && f.txn == ts[0] && Pending(g, img, next, seqno + 1) == ts[1..]
        && CheckpointAfter(g, img, next, seqno + 1) == CheckpointAfter(g, img, head, seqno)
        && |DescsFrom(g, img, seqno + 1)| < |DescsFrom(g, img, seqno)|
  {
    if Probe(g, img, head, seqno).Some? {
      ProbeShrinksDescs(g, img, head, seqno);
    }
  }

  lemma ProbeSameJournal(g: Geometry, a: Image, b: Image, head: nat, seqno: nat)
    requires g.Ok() && |a| == |b| == g.size && SameJournal(g, a, b)
    ensures Probe(g, a, head, seqno) == Probe(g, b, head, seqno)
  {
    TryReadSameJournal(g, a, b, head, seqno);
    TryReadSameJournal(g, a, b, 0, seqno);
  }

  lemma SameJournalTrans(g: Geometry, a: Image, b: Image, c: Image)
    requires g.Ok() && |a| == |b| == |c| == g.size && SameJournal(g, a, b) && SameJournal(g, c, b)
    ensures SameJournal(g, c, a)
  {
  }

  lemma NothingReplayed(g: Geometry, e: nat, log: seq<Write>, img: Image)
    requires |img| == g.size
    ensures ReplayWrites(e, []) == [] && ApplyAll(g, img, []) == img && log + [] == log
  {
  }

  /** Replaying one more transaction extends image and log accordingly. */
  lemma ReplayAppend(g: Geometry, img: Image, e: nat, ts: seq<Txn>, k: nat)
    requires |img| == g.size && Closed(g, ts) && k < |ts|
    ensures Closed(g, ts[..k]) && Closed(g, ts[..k + 1]) && ClosedTxn(g, ts[k])
    ensures ApplyAll(g, img, ts[..k + 1]) == Apply(ApplyAll(g, img, ts[..k]), ts[k])
    ensures ReplayWrites(e, ts[..k + 1]) == ReplayWrites(e, ts[..k]) + InPlaceWrites(e, ts[k])
    ensures ts[k..][0] == ts[k] && ts[k..][1..] == ts[k + 1..]
  {
    assert ts[..k + 1] == ts[..k] + [ts[k]];
    assert ts[..k + 1][..k] == ts[..k];
    ApplyAllAppend(g, img, ts[..k], ts[k]);
  }

  lemma TxnIsClosed(g: Geometry, t: Txn)
    requires t.Ok(g)
    ensures ClosedTxn(g, t)
  {
  }

  lemma ApplyLogOne(img: Image, w: Write)
    requires w.loc < |img|
    ensures ApplyLog(img, [w]) == img[w.loc := w.data]
  {
    assert [w][..0] == [];
    assert ApplyLog(img, []) == img;
  }

  /** Writing the superblock touches its two copies only. */
  lemma AfterSuperblock(g: Geometry, img: Image, e: nat, ck: Checkpoint)
    requires g.Ok() && |img| == g.size
    ensures var r := ApplyLog(img, SuperWrites(g, e, ck));
      && r[0] == r[g.backup] == Super(ck)
      && SameMeta(g, r, img) && SameJournal(g, r, img)
  {
    var ws := SuperWrites(g, e, ck);
    ApplyLogHit(img, ws, 0, 0);
    ApplyLogHit(img, ws, g.backup, 1);
    forall l: nat | l < g.size && l != 0 && l != g.backup ensures ApplyLog(img, ws)[l] == img[l] {
      ApplyLogMiss(img, ws, l);
    }
  }
}
