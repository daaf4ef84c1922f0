/**
Crash safety of the journal: after any run of commits cut short anywhere by one
power failure, opening the volume restores exactly a prefix of the run.
*/
module CrashSafety {
  import opened Wrappers
  import opened Journal
  import opened CrashModel

  /**
  The primary superblock, or the backup copy when the primary is damaged. Where the backup is, only
  the first group's header tells.
  */
  function FindSuper(g: Geometry, img: Image): Option<Checkpoint>
    requires g.Ok() && |img| == g.size
  {
    if img[0].Super? then Some(img[0].ckpt)
    else if HeaderParses(g, img) && img[g.backup].Super? then Some(img[g.backup].ckpt)
    else None
  }

  ghost predicate SameMeta(g: Geometry, a: Image, b: Image)
    requires |a| == |b| == g.size
  {
    forall l: nat :: g.IsMeta(l) ==> a[l] == b[l]
  }

  /** Opening img finds a superblock and replays to the metadata of m. */
  ghost predicate RecoversTo(g: Geometry, img: Image, m: Image)
    requires g.Ok() && |img| == |m| == g.size
  {
    && FindSuper(g, img).Some?
    && var ck := FindSuper(g, img).value;
    && var ts := Pending(g, img, ck.head, ck.seqno);
    && Closed(g, ts)
    && SameMeta(g, ApplyAll(g, img, ts), m)
  }

  // --- which commit records an image holds ------------------------------------------

  /** The only commit record numbered seqno is the one of t, in its place. */
  ghost predicate OnlyCommit(g: Geometry, img: Image, seqno: nat, pos: nat, t: Txn)
    requires g.Ok() && |img| == g.size
  {
    forall i: nat :: i < g.length && Slot(g, img, i).Commit? && Slot(g, img, i).seqno == seqno ==>
      i == pos + |t.targets| + 1 && Slot(g, img, i) == CommitOf(t, seqno)
  }

  ghost predicate NoCommitFrom(g: Geometry, img: Image, seqno: nat)
    requires g.Ok() && |img| == g.size
  {
    forall i: nat :: i < g.length && Slot(g, img, i).Commit? ==> Slot(g, img, i).seqno < seqno
  }

  /** The checksum ties a commit record to one descriptor, one place and one content. */
  lemma OnlyTxnIsRead(g: Geometry, img: Image, seqno: nat, pos: nat, t: Txn, x: nat)
    requires g.Ok() && |img| == g.size && OnlyCommit(g, img, seqno, pos, t)
    ensures TryRead(g, img, x, seqno).Some? ==> x == pos && TryRead(g, img, x, seqno).value == t
  {
    if TryRead(g, img, x, seqno).Some? {
      var d := img[g.start + x];
      var n := |d.targets|;
      var data := img[g.start + x + 1 .. g.start + x + 1 + n];
      assert Slot(g, img, x + n + 1) == CommitOf(t, seqno);
      var s1, s2 := [d] + data, [DescOf(t, seqno)] + t.data;
      assert s1 == s2;
      assert d == s1[0] == s2[0];
      assert data == s1[1..] == s2[1..] == t.data;
    }
  }

  lemma NothingPending(g: Geometry, img: Image, head: nat, seqno: nat)
    requires g.Ok() && |img| == g.size && NoCommitFrom(g, img, seqno)
    ensures Pending(g, img, head, seqno) == []
  {
    forall x: nat
      ensures TryRead(g, img, x, seqno).None?
    {
      if TryRead(g, img, x, seqno).Some? {
        ReadNeedsCommit(g, img, x, seqno);
      }
    }
  }

  lemma ReadNeedsCommit(g: Geometry, img: Image, x: nat, seqno: nat)
    requires g.Ok() && |img| == g.size && TryRead(g, img, x, seqno).Some?
    ensures !NoCommitFrom(g, img, seqno)
  {
    assert Slot(g, img, x + |img[g.start + x].targets| + 1).seqno == seqno;
  }

  /** If t is the only transaction numbered as the checkpoint expects, replay finds it or stops. */
  lemma OnePending(g: Geometry, img: Image, ck: Checkpoint, t: Txn)
    requires g.Ok() && |img| == g.size
    requires OnlyCommit(g, img, ck.seqno, Position(g, ck, t), t)
    ensures var ps := Pending(g, img, ck.head, ck.seqno);
            if TryRead(g, img, Position(g, ck, t), ck.seqno).Some? then
              var next := NextCheckpoint(g, ck, t);
              ps == [t] + Pending(g, img, next.head, next.seqno)
            else ps == []
  {
    var pos := Position(g, ck, t);
    OnlyTxnIsRead(g, img, ck.seqno, pos, t, ck.head);
    OnlyTxnIsRead(g, img, ck.seqno, pos, t, 0);
    OnlyTxnIsRead(g, img, ck.seqno, pos, t, pos);
  }

  // --- the state between two commits ----------------------------------------------

  /** The previous commit of the run, whose checkpoint may not have landed yet. */
  datatype Previous = NoCommitYet | Since(ck: Checkpoint, txn: Txn)

  function Unsynced(g: Geometry, prev: Previous, e: nat, ck: Checkpoint): seq<Write> {
    if prev.NoCommitYet? then [] else SuperWrites(g, e, ck)
  }

  /**
  D is durable and the superblock writes of ck may still be in flight. The superblock
  lags by at most the previous transaction, which is already applied in place.
  */
  ghost predicate Ready(g: Geometry, D: Image, prev: Previous, ck: Checkpoint)
    requires g.Ok()
  {
    && |D| == g.size
    && HeaderParses(g, D)
    && NoCommitFrom(g, D, ck.seqno)
    && match prev
       case NoCommitYet => D[0] == D[g.backup] == Super(ck)
       case Since(last, t) =>
         && D[0] == D[g.backup] == Super(last)
         && t.Ok(g) && ck == NextCheckpoint(g, last, t)
         && OnlyCommit(g, D, last.seqno, Position(g, last, t), t)
         && forall i :: 0 <= i < |t.targets| ==> D[t.targets[i]] == t.data[i]
  }

  /** A journal write touches the journal only; a commit record lands only in its own place. */
  lemma JournalWriteCases(g: Geometry, ck: Checkpoint, e: nat, t: Txn, w: Write)
    requires g.Ok() && t.Ok(g) && t.Fits(g) && w in JournalWrites(g, ck, e, t)
    ensures g.InJournal(w.loc) && w.epoch == e && !w.data.Super? && !w.data.Garbage?
    ensures w.data.Commit? ==>
      w.data == CommitOf(t, ck.seqno) && w.loc == g.start + Position(g, ck, t) + |t.targets| + 1
  {
    var ws := JournalWrites(g, ck, e, t);
    var k :| 0 <= k < |ws| && ws[k] == w;
  }

  /** What any subset of the checkpoint and journal writes, one possibly torn, leaves of each location. */
  ghost predicate JournalEpochImage(g: Geometry, D: Image, prev: Previous, ck: Checkpoint, t: Txn, img: Image)
    requires g.Ok() && |D| == |img| == g.size
  {
    && SameMeta(g, img, D)
    && (forall i: nat :: i < g.length && Slot(g, img, i).Commit? ==>
          Slot(g, img, i) == Slot(g, D, i)
          || (i == Position(g, ck, t) + |t.targets| + 1 && Slot(g, img, i) == CommitOf(t, ck.seqno)))
    && FindSuper(g, img).Some?
    && (FindSuper(g, img).value == ck || (prev.Since? && FindSuper(g, img).value == prev.ck))
  }

  lemma JournalEpochCrash(g: Geometry, D: Image, prev: Previous, ck: Checkpoint, e: nat, t: Txn,
                          ws: seq<Write>, img: Image)
    requires g.Ok() && Ready(g, D, prev, ck) && t.Ok(g) && t.Fits(g)
    requires forall i :: 0 <= i < |ws| ==>
      ws[i] in Unsynced(g, prev, e, ck) || ws[i] in JournalWrites(g, ck, e, t)
    requires CrashImage(D, ws, img)
    ensures JournalEpochImage(g, D, prev, ck, t, img)
  {
    forall i | 0 <= i < |ws|
      ensures g.InJournal(ws[i].loc) || (prev.Since? && (ws[i].loc == 0 || ws[i].loc == g.backup) && ws[i].data == Super(ck))
      ensures g.InJournal(ws[i].loc) ==> ws[i] in JournalWrites(g, ck, e, t)
    {
      if ws[i] in JournalWrites(g, ck, e, t) {
        JournalWriteCases(g, ck, e, t, ws[i]);
      }
    }
    forall i: nat | i < g.length && Slot(g, img, i).Commit?
      ensures Slot(g, img, i) == Slot(g, D, i)
        || (i == Position(g, ck, t) + |t.targets| + 1 && Slot(g, img, i) == CommitOf(t, ck.seqno))
    {
      var l := g.start + i;
      if Landed(ws, l, img[l]) {
        var k :| 0 <= k < |ws| && ws[k].loc == l && ws[k].data == img[l];
        JournalWriteCases(g, ck, e, t, ws[k]);
      }
    }
    SuperSurvives(g, D, ck, ws, img);
  }

  /** At most one of the two superblock copies is torn, and the header is not being written. */
  lemma SuperSurvives(g: Geometry, D: Image, ck: Checkpoint, ws: seq<Write>, img: Image)
    requires g.Ok() && |D| == g.size && D[0].Super? && D[g.backup] == D[0] && HeaderParses(g, D)
    requires forall i :: 0 <= i < |ws| && !g.InJournal(ws[i].loc) ==> ws[i].data == Super(ck) && ws[i].loc != g.header
    requires CrashImage(D, ws, img)
    ensures FindSuper(g, img).Some?
    ensures FindSuper(g, img).value == D[0].ckpt
      || (FindSuper(g, img).value == ck && exists i :: 0 <= i < |ws| && !g.InJournal(ws[i].loc))
  {
    forall l: nat | l == 0 || l == g.backup
      ensures img[l] == D[0] || (img[l] == Super(ck) && exists i :: 0 <= i < |ws| && !g.InJournal(ws[i].loc))
              || TornAt(D, ws, img, l)
    {
      if Landed(ws, l, img[l]) {
        var k :| 0 <= k < |ws| && ws[k].loc == l && ws[k].data == img[l];
        assert !g.InJournal(ws[k].loc);
      }
    }
    assert !(TornAt(D, ws, img, 0) && TornAt(D, ws, img, g.backup));
  }

  /** Which commit records survive in the journal. */
  lemma CommitRecords(g: Geometry, D: Image, prev: Previous, ck: Checkpoint, t: Txn, img: Image)
    requires g.Ok() && Ready(g, D, prev, ck) && |img| == g.size && JournalEpochImage(g, D, prev, ck, t, img)
    ensures NoCommitFrom(g, img, ck.seqno + 1)
    ensures OnlyCommit(g, img, ck.seqno, Position(g, ck, t), t)
    ensures prev.Since? ==> OnlyCommit(g, img, prev.ck.seqno, Position(g, prev.ck, prev.txn), prev.txn)
  {
  }

  /** What replay finds from the checkpoint that expects t. */
  lemma PendingIsTxnOrNothing(g: Geometry, img: Image, ck: Checkpoint, t: Txn)
    requires g.Ok() && |img| == g.size
    requires NoCommitFrom(g, img, ck.seqno + 1) && OnlyCommit(g, img, ck.seqno, Position(g, ck, t), t)
    ensures var ps := Pending(g, img, ck.head, ck.seqno); ps == [] || ps == [t]
  {
    var next := NextCheckpoint(g, ck, t);
    NothingPending(g, img, next.head, next.seqno);
    OnePending(g, img, ck, t);
    assert [t] + [] == [t];
  }

  /** What replay finds when the superblock still points at the previous transaction u. */
  lemma PendingFromLaggingSuper(g: Geometry, img: Image, last: Checkpoint, u: Txn, t: Txn)
    requires g.Ok() && |img| == g.size
    requires OnlyCommit(g, img, last.seqno, Position(g, last, u), u)
    requires var ck := NextCheckpoint(g, last, u);
      NoCommitFrom(g, img, ck.seqno + 1) && OnlyCommit(g, img, ck.seqno, Position(g, ck, t), t)
    ensures var ps := Pending(g, img, last.head, last.seqno); ps == [] || ps == [u] || ps == [u, t]
  {
    OnePending(g, img, last, u);
    PendingIsTxnOrNothing(g, img, NextCheckpoint(g, last, u), t);
    assert [u] + [] == [u] && [u] + [t] == [u, t];
  }

  /** Power fails while transaction t is being journaled. */
  lemma CrashWhileJournaling(g: Geometry, D: Image, prev: Previous, ck: Checkpoint, e: nat, t: Txn,
                             ws: seq<Write>, img: Image)
    requires g.Ok() && Ready(g, D, prev, ck) && t.Ok(g) && t.Fits(g)
    requires forall i :: 0 <= i < |ws| ==>
      ws[i] in Unsynced(g, prev, e, ck) || ws[i] in JournalWrites(g, ck, e, t)
    requires CrashImage(D, ws, img)
    ensures RecoversTo(g, img, D) || RecoversTo(g, img, Apply(D, t))
  {
    JournalEpochCrash(g, D, prev, ck, e, t, ws, img);
    CommitRecords(g, D, prev, ck, t, img);
    if FindSuper(g, img).value == ck {
      PendingIsTxnOrNothing(g, img, ck, t);
      PrefixRecovered(g, D, img, t);
    } else {
      PendingFromLaggingSuper(g, img, prev.ck, prev.txn, t);
      ReapplyIsHarmless(g, D, img, prev.txn);
      PrefixRecovered(g, D, img, t);
      PrefixRecoveredAfter(g, D, img, prev.txn, t);
    }
  }

  lemma PrefixRecoveredAfter(g: Geometry, D: Image, img: Image, u: Txn, t: Txn)
    requires g.Ok() && |D| == |img| == g.size && t.Ok(g) && ClosedTxn(g, u) && SameMeta(g, Apply(img, u), D)
    ensures ClosedTxn(g, t) && Closed(g, [u]) && Closed(g, [u, t])
    ensures SameMeta(g, ApplyAll(g, img, [u]), D)
    ensures SameMeta(g, ApplyAll(g, img, [u, t]), Apply(D, t))
  {
    PrefixRecovered(g, D, Apply(img, u), t);
    assert [u, t][1..] == [t] && [u][1..] == [];
  }

  /** Applying nothing gives the state before t, applying t the state after. */
  lemma PrefixRecovered(g: Geometry, D: Image, img: Image, t: Txn)
    requires g.Ok() && |D| == |img| == g.size && t.Ok(g) && SameMeta(g, img, D)
    ensures ClosedTxn(g, t) && Closed(g, [t]) && Closed(g, [])
    ensures SameMeta(g, ApplyAll(g, img, []), D)
    ensures SameMeta(g, ApplyAll(g, img, [t]), Apply(D, t))
  {
    assert ApplyAll(g, D, [t]) == ApplyAll(g, Apply(D, t), []) == Apply(D, t);
    forall l: nat | g.IsMeta(l)
      ensures ApplyAll(g, img, [t])[l] == Apply(D, t)[l]
    {
      ApplyAllPointwise(g, img, D, [t], l);
    }
  }

  /** Replaying a transaction that is already in place changes nothing. */
  lemma ReapplyIsHarmless(g: Geometry, D: Image, img: Image, u: Txn)
    requires g.Ok() && |D| == |img| == g.size && u.Ok(g) && SameMeta(g, img, D)
    requires forall i :: 0 <= i < |u.targets| ==> D[u.targets[i]] == u.data[i]
    ensures ClosedTxn(g, u) && SameMeta(g, Apply(img, u), D)
  {
    forall l: nat | g.IsMeta(l)
      ensures Apply(img, u)[l] == D[l]
    {
      if l in u.targets {
        var i :| 0 <= i < |u.targets| && u.targets[i] == l;
        ApplyFirstAt(img, u, |u.targets|, i);
      }
    }
  }

  /** Power fails between two commits, before any block of the next transaction is written. */
  lemma CrashBetweenCommits(g: Geometry, D: Image, prev: Previous, ck: Checkpoint, e: nat, ws: seq<Write>, img: Image)
    requires g.Ok() && Ready(g, D, prev, ck)
    requires forall i :: 0 <= i < |ws| ==> ws[i] in Unsynced(g, prev, e, ck)
    requires CrashImage(D, ws, img)
    ensures RecoversTo(g, img, D)
  {
    OnlySuperMoves(g, D, prev, ck, e, ws, img);
    NothingPending(g, img, ck.head, ck.seqno);
    assert ApplyAll(g, img, []) == img;
    if FindSuper(g, img).value != ck {
      var last, u := prev.ck, prev.txn;
      OnePending(g, img, last, u);
      assert [u] + [] == [u];
      ReapplyIsHarmless(g, D, img, u);
      assert ApplyAll(g, img, [u]) == ApplyAll(g, Apply(img, u), []);
    }
  }

  lemma OnlySuperMoves(g: Geometry, D: Image, prev: Previous, ck: Checkpoint, e: nat, ws: seq<Write>, img: Image)
    requires g.Ok() && Ready(g, D, prev, ck)
    requires forall i :: 0 <= i < |ws| ==> ws[i] in Unsynced(g, prev, e, ck)
    requires CrashImage(D, ws, img)
    ensures SameMeta(g, img, D)
    ensures forall i: nat :: i < g.length ==> Slot(g, img, i) == Slot(g, D, i)
    ensures FindSuper(g, img).Some?
    ensures FindSuper(g, img).value == ck || (prev.Since? && FindSuper(g, img).value == prev.ck)
  {
    SuperSurvives(g, D, if prev.Since? then ck else D[0].ckpt, ws, img);
    forall i: nat | i < g.length ensures Slot(g, img, i) == Slot(g, D, i) {
      assert g.InJournal(g.start + i);
    }
  }

  // --- the journaled transaction is durable --------------------------------------------

  /** After the first sync the transaction is complete in the journal and nothing else has moved. */
  ghost predicate Journaled(g: Geometry, D: Image, J: Image, ck: Checkpoint, t: Txn)
    requires g.Ok() && |D| == |J| == g.size
  {
    && SameMeta(g, J, D)
    && HeaderParses(g, J) && J[0] == J[g.backup] == Super(ck)
    && NoCommitFrom(g, J, ck.seqno + 1)
    && OnlyCommit(g, J, ck.seqno, Position(g, ck, t), t)
    && TryRead(g, J, Position(g, ck, t), ck.seqno) == Some(t)
  }

  lemma AfterFirstSync(g: Geometry, D: Image, prev: Previous, ck: Checkpoint, e: nat, t: Txn)
    requires g.Ok() && Ready(g, D, prev, ck) && t.Ok(g) && t.Fits(g)
    ensures Journaled(g, D, ApplyLog(D, Unsynced(g, prev, e, ck) + JournalWrites(g, ck, e, t)), ck, t)
  {
    var sw, jw := Unsynced(g, prev, e, ck), JournalWrites(g, ck, e, t);
    var S := ApplyLog(D, sw);
    ApplyLogAppend(D, sw, jw);
    AfterSuperWrites(g, D, prev, ck, e);
    AfterJournalWrites(g, S, ck, e, t);
    var J := ApplyLog(S, jw);
    forall l: nat | l < g.size && !g.InJournal(l) ensures J[l] == S[l] {
      forall i | 0 <= i < |jw| ensures jw[i].loc != l {
        JournalWriteCases(g, ck, e, t, jw[i]);
      }
      ApplyLogMiss(S, jw, l);
    }
    forall i: nat | i < g.length
      ensures Slot(g, J, i).Commit? ==>
        Slot(g, J, i) == Slot(g, D, i)
        || (i == Position(g, ck, t) + |t.targets| + 1 && Slot(g, J, i) == CommitOf(t, ck.seqno))
    {
      JournalSlot(g, S, ck, e, t, i);
    }
  }

  lemma AfterSuperWrites(g: Geometry, D: Image, prev: Previous, ck: Checkpoint, e: nat)
    requires g.Ok() && Ready(g, D, prev, ck)
    ensures var S := ApplyLog(D, Unsynced(g, prev, e, ck));
      && S[0] == S[g.backup] == Super(ck)
      && forall l: nat :: l < g.size && l != 0 && l != g.backup ==> S[l] == D[l]
  {
    var sw := SuperWrites(g, e, ck);
    if prev.Since? {
      ApplyLogHit(D, sw, 0, 0);
      ApplyLogHit(D, sw, g.backup, 1);
      forall l: nat | l < g.size && l != 0 && l != g.backup ensures ApplyLog(D, sw)[l] == D[l] {
        ApplyLogMiss(D, sw, l);
      }
    }
  }

  /** A journal slot holds what it held, or the block of t that belongs there. */
  lemma JournalSlot(g: Geometry, S: Image, ck: Checkpoint, e: nat, t: Txn, i: nat)
    requires g.Ok() && |S| == g.size && |t.targets| == |t.data| && i < g.length
    ensures var J := ApplyLog(S, JournalWrites(g, ck, e, t));
      var k := i - Position(g, ck, t);
      if 0 <= k < |t.targets| + 2 then J[g.start + i] == JournalBlock(ck.seqno, t, k)
      else J[g.start + i] == S[g.start + i]
  {
    hide ApplyLog, JournalBlock, Position;
    var jw := JournalWrites(g, ck, e, t);
    ApplyConsecutive(S, jw, g.start + Position(g, ck, t), g.start + i);
  }

  lemma PositionFits(g: Geometry, ck: Checkpoint, t: Txn)
    requires g.Ok() && |t.targets| == |t.data| && t.Fits(g)
    ensures Position(g, ck, t) + |t.targets| + 2 <= g.length
  {
  }

  lemma AfterJournalWrites(g: Geometry, S: Image, ck: Checkpoint, e: nat, t: Txn)
    requires g.Ok() && |S| == g.size && 0 < |t.targets| == |t.data| && t.Fits(g)
    ensures TryRead(g, ApplyLog(S, JournalWrites(g, ck, e, t)), Position(g, ck, t), ck.seqno) == Some(t)
  {
    hide ApplyLog, JournalWrites, Position, TryRead;
    var J, pos, n := ApplyLog(S, JournalWrites(g, ck, e, t)), Position(g, ck, t), |t.targets|;
    PositionFits(g, ck, t);
    assert J[g.start + pos] == DescOf(t, ck.seqno) by {
      JournalSlot(g, S, ck, e, t, pos);
    }
    assert J[g.start + pos + n + 1] == CommitOf(t, ck.seqno) by {
      JournalSlot(g, S, ck, e, t, pos + n + 1);
    }
    forall i | 0 <= i < n ensures J[g.start + pos + 1 + i] == t.data[i] {
      JournalSlot(g, S, ck, e, t, pos + 1 + i);
    }
    CompleteTxnIsRead(g, J, pos, ck.seqno, t);
  }

  /** A transaction with its descriptor, data and commit record in place is valid. */
  lemma CompleteTxnIsRead(g: Geometry, J: Image, pos: nat, seqno: nat, t: Txn)
    requires g.Ok() && |J| == g.size && 0 < |t.targets| == |t.data| <= MAX_TARGETS && pos + |t.targets| + 2 <= g.length
    requires J[g.start + pos] == DescOf(t, seqno)
    requires J[g.start + pos + |t.targets| + 1] == CommitOf(t, seqno)
    requires forall i :: 0 <= i < |t.targets| ==> J[g.start + pos + 1 + i] == t.data[i]
    ensures TryRead(g, J, pos, seqno) == Some(t)
  {
    assert J[g.start + pos + 1 .. g.start + pos + 1 + |t.targets|] == t.data;
  }

  /** A durable transaction is the one and only transaction replay finds. */
  lemma JournaledIsPending(g: Geometry, D: Image, J: Image, ck: Checkpoint, t: Txn)
    requires g.Ok() && |D| == |J| == g.size && Journaled(g, D, J, ck, t)
    ensures Pending(g, J, ck.head, ck.seqno) == [t]
  {
    OnePending(g, J, ck, t);
    NothingPending(g, J, NextCheckpoint(g, ck, t).head, ck.seqno + 1);
    assert [t] + [] == [t];
  }

  /** Power fails while the journaled transaction is being applied in place. */
  lemma CrashWhileApplying(g: Geometry, D: Image, J: Image, ck: Checkpoint, e: nat, t: Txn, ws: seq<Write>, img: Image)
    requires g.Ok() && |D| == |J| == g.size && t.Ok(g) && Journaled(g, D, J, ck, t)
    requires forall i :: 0 <= i < |ws| ==> ws[i] in InPlaceWrites(e, t)
    requires CrashImage(J, ws, img)
    ensures RecoversTo(g, img, Apply(D, t))
  {
    forall i | 0 <= i < |ws| ensures ws[i].loc in t.targets && g.IsMeta(ws[i].loc) {
      InPlaceWriteCases(g, e, t, ws[i]);
    }
    OnlyTargetsMove(g, J, t, ws, img);
    PendingSameJournal(g, J, img, ck.head, ck.seqno);
    JournaledIsPending(g, D, J, ck, t);
    PrefixRecovered(g, D, J, t);
    forall l: nat | g.IsMeta(l)
      ensures ApplyAll(g, img, [t])[l] == Apply(D, t)[l]
    {
      ApplyAllPointwise(g, img, J, [t], l);
    }
  }

  lemma OnlyTargetsMove(g: Geometry, J: Image, t: Txn, ws: seq<Write>, img: Image)
    requires g.Ok() && |J| == g.size
    requires forall i :: 0 <= i < |ws| ==> ws[i].loc in t.targets && g.IsMeta(ws[i].loc)
    requires CrashImage(J, ws, img)
    ensures SameJournal(g, J, img) && img[0] == J[0] && img[g.backup] == J[g.backup]
    ensures forall l: nat :: l < g.size && l !in t.targets ==> img[l] == J[l]
  {
    forall l: nat | l < g.size && (l !in t.targets || !g.IsMeta(l)) ensures img[l] == J[l] {
    }
  }

  lemma InPlaceWriteCases(g: Geometry, e: nat, t: Txn, w: Write)
    requires t.Ok(g) && w in InPlaceWrites(e, t)
    ensures w.loc in t.targets && g.IsMeta(w.loc) && w.epoch == e
  {
    var ws := InPlaceWrites(e, t);
    var k :| 0 <= k < |ws| && ws[k] == w;
    assert w.loc == t.targets[k];
  }

  /** The effect of the in-place writes, location by location. */
  lemma AfterInPlaceWrites(g: Geometry, J: Image, e: nat, t: Txn)
    requires |J| == g.size && t.Ok(g)
    ensures var A := ApplyLog(J, InPlaceWrites(e, t));
      && (forall i :: 0 <= i < |t.targets| ==> A[t.targets[i]] == t.data[i])
      && (forall l: nat :: l < g.size && l !in t.targets ==> A[l] == J[l])
  {
    var ws := InPlaceWrites(e, t);
    assert forall i :: 0 <= i < |ws| ==> ws[i].loc == t.targets[i] && ws[i].data == t.data[i];
    forall i | 0 <= i < |t.targets| ensures ApplyLog(J, ws)[t.targets[i]] == t.data[i] {
      assert ws[i].loc == t.targets[i];
      ApplyLogHit(J, ws, t.targets[i], i);
    }
    forall l: nat | l < g.size && l !in t.targets ensures ApplyLog(J, ws)[l] == J[l] {
      ApplyLogMiss(J, ws, l);
    }
  }

  /** After the second sync the volume is ready for the next commit. */
  lemma AfterSecondSync(g: Geometry, D: Image, J: Image, ck: Checkpoint, e: nat, t: Txn)
    requires g.Ok() && |D| == |J| == g.size && t.Ok(g) && t.Fits(g) && Journaled(g, D, J, ck, t)
    ensures var A := ApplyLog(J, InPlaceWrites(e, t));
      Ready(g, A, Since(ck, t), NextCheckpoint(g, ck, t)) && SameMeta(g, A, Apply(D, t))
  {
    var A := ApplyLog(J, InPlaceWrites(e, t));
    AfterInPlaceWrites(g, J, e, t);
    forall l: nat | g.IsMeta(l) ensures A[l] == Apply(D, t)[l] {
      if l in t.targets {
        var i :| 0 <= i < |t.targets| && t.targets[i] == l;
        ApplyFirstAt(D, t, |t.targets|, i);
      }
    }
    forall l: nat | l < g.size && !g.IsMeta(l) ensures A[l] == J[l] {
    }
    forall i: nat | i < g.length ensures Slot(g, A, i) == Slot(g, J, i) {
      assert g.InJournal(g.start + i);
    }
  }

  // --- whole runs ----------------------------------------------------------------------

  ghost predicate TxnsOk(g: Geometry, txns: seq<Txn>) {
    forall i :: 0 <= i < |txns| ==> txns[i].Ok(g) && txns[i].Fits(g)
  }

  /** Everything a run of commits writes. */
  ghost function RunLog(g: Geometry, ck: Checkpoint, e: nat, txns: seq<Txn>): seq<Write>
    requires TxnsOk(g, txns)
    decreases |txns|
  {
    if txns == [] then []
    else CommitLog(g, ck, e, txns[0]) + RunLog(g, NextCheckpoint(g, ck, txns[0]), e + 2, txns[1..])
  }

  /** How many commits have returned once the first p writes of the run are issued. */
  ghost function Acknowledged(g: Geometry, txns: seq<Txn>, p: int): (n: nat)
    ensures n <= |txns|
    decreases |txns|
  {
    if txns == [] then 0
    else
      var n := 2 * |txns[0].targets| + 4;
      if p < n then 0 else 1 + Acknowledged(g, txns[1..], p - n)
  }

  /** The volume after the first k transactions of a run. */
  ghost function AfterTxns(g: Geometry, D: Image, txns: seq<Txn>, k: nat): (r: Image)
    requires TxnsOk(g, txns) && k <= |txns| && |D| == g.size
    ensures |r| == g.size
    decreases |txns|
  {
    if k == 0 then D else AfterTxns(g, Apply(D, txns[0]), txns[1..], k - 1)
  }

  lemma ApplySameMeta(g: Geometry, A: Image, B: Image, t: Txn)
    requires t.Ok(g) && |A| == |B| == g.size && SameMeta(g, A, B)
    ensures SameMeta(g, Apply(A, t), Apply(B, t))
  {
    assert t.targets[..|t.targets|] == t.targets;
    forall l: nat | g.IsMeta(l) ensures Apply(A, t)[l] == Apply(B, t)[l] {
      ApplyPointwise(A, B, t, |t.targets|, l);
    }
  }

  lemma {:induction false} AfterTxnsSameMeta(g: Geometry, A: Image, B: Image, txns: seq<Txn>, k: nat)
    requires TxnsOk(g, txns) && k <= |txns| && |A| == |B| == g.size && SameMeta(g, A, B)
    ensures SameMeta(g, AfterTxns(g, A, txns, k), AfterTxns(g, B, txns, k))
    decreases |txns|
  {
    hide SameMeta, Apply;
    if k > 0 {
      var t := txns[0];
      ApplySameMeta(g, A, B, t);
      AfterTxnsSameMeta(g, Apply(A, t), Apply(B, t), txns[1..], k - 1);
    }
  }

  lemma RecoversToSame(g: Geometry, img: Image, A: Image, B: Image)
    requires g.Ok() && |img| == |A| == |B| == g.size && SameMeta(g, A, B) && RecoversTo(g, img, A)
    ensures RecoversTo(g, img, B)
  {
  }

  /** What the medium may hold when power fails after p writes of a log, with epoch ce open. */
  ghost predicate CutAt(D: Image, log: seq<Write>, p: nat, ce: nat, img: Image) {
    && CrashPoint(log, p, ce)
    && CrashImage(ApplyLog(D, Finished(log[..p], ce)), Current(log[..p], ce), img)
  }

  /** The acknowledged commits survive; at most the one in flight does as well. */
  ghost predicate RecoversPrefix(g: Geometry, D: Image, txns: seq<Txn>, acked: nat, started: bool, img: Image)
    requires g.Ok() && |D| == |img| == g.size && TxnsOk(g, txns) && acked <= |txns|
  {
    || RecoversTo(g, img, AfterTxns(g, D, txns, acked))
    || (started && acked < |txns| && RecoversTo(g, img, AfterTxns(g, D, txns, acked + 1)))
  }

  /** The run's log, split at the three epochs of its first commit. */
  lemma RunLogSplit(g: Geometry, D: Image, prev: Previous, ck: Checkpoint, e: nat, txns: seq<Txn>)
    requires TxnsOk(g, txns) && txns != []
    ensures var t, next := txns[0], NextCheckpoint(g, ck, txns[0]);
      Unsynced(g, prev, e, ck) + RunLog(g, ck, e, txns)
      == Unsynced(g, prev, e, ck) + JournalWrites(g, ck, e, t) + InPlaceWrites(e + 1, t)
         + (Unsynced(g, Since(ck, t), e + 2, next) + RunLog(g, next, e + 2, txns[1..]))
  {
  }

  ghost predicate NotBefore(log: seq<Write>, e: nat) { forall i :: 0 <= i < |log| ==> log[i].epoch >= e }

  lemma {:induction false} RunLogEpochs(g: Geometry, ck: Checkpoint, e: nat, txns: seq<Txn>)
    requires g.Ok() && TxnsOk(g, txns)
    ensures NotBefore(RunLog(g, ck, e, txns), e)
    decreases |txns|
  {
    if txns != [] {
      RunLogEpochs(g, NextCheckpoint(g, ck, txns[0]), e + 2, txns[1..]);
    }
  }

  /** Power failing right after a sync is a case of every unsynced write having landed. */
  lemma {:induction false} AllLanded(D: Image, ws: seq<Write>, l: nat)
    requires l < |D|
    ensures ApplyLog(D, ws)[l] == D[l] || Landed(ws, l, ApplyLog(D, ws)[l])
  {
    if ws != [] {
      var k := |ws| - 1;
      AllLanded(D, ws[..k], l);
      if ws[k].loc == l {
        assert ws[k].data == ApplyLog(D, ws)[l];
      } else if Landed(ws[..k], l, ApplyLog(D, ws)[l]) {
        var i :| 0 <= i < k && ws[..k][i].loc == l && ws[..k][i].data == ApplyLog(D, ws)[l];
        assert ws[i].loc == l;
      }
    }
  }

  lemma SyncedIsLanded(D: Image, ws: seq<Write>, img: Image)
    requires CrashImage(ApplyLog(D, ws), [], img)
    ensures CrashImage(D, ws, img)
  {
    forall l: nat | l < |img|
      ensures img[l] == D[l] || Landed(ws, l, img[l])
    {
      AllLanded(D, ws, l);
    }
  }

  lemma CutInUnsynced(g: Geometry, D: Image, prev: Previous, ck: Checkpoint, e: nat, log: seq<Write>,
                      p: nat, ce: nat, img: Image)
    requires g.Ok() && Ready(g, D, prev, ck) && e <= ce
    requires Unsynced(g, prev, e, ck) <= log && p <= |Unsynced(g, prev, e, ck)|
    requires CutAt(D, log, p, ce, img)
    ensures RecoversTo(g, img, D)
  {
    var sw := Unsynced(g, prev, e, ck);
    assert log[..p] == sw[..p];
    if ce == e {
      FilterAt(sw[..p], e);
    } else {
      FilterBefore(sw[..p], ce);
      SyncedIsLanded(D, sw[..p], img);
    }
    CrashBetweenCommits(g, D, prev, ck, e, sw[..p], img);
  }

  lemma JournalWritesAt(g: Geometry, ck: Checkpoint, e: nat, t: Txn)
    requires |t.targets| == |t.data|
    ensures AllAt(JournalWrites(g, ck, e, t), e)
    ensures AllAt(InPlaceWrites(e, t), e)
  {
  }

  /** A cut within the open epoch ce: some of that epoch's writes x, nothing later. */
  lemma CutHere(D: Image, x: seq<Write>, rest: seq<Write>, p: nat, ce: nat, img: Image)
    requires AllAt(x, ce) && NotBefore(rest, ce + 1) && CutAt(D, x + rest, p, ce, img)
    ensures p <= |x| && CrashImage(D, x[..p], img)
  {
    assert forall i :: 0 <= i < |rest| ==> (x + rest)[|x| + i] == rest[i];
    assert (x + rest)[..p] == x[..p];
    FilterAt(x[..p], ce);
  }

  /** A cut after the epochs of x have been synced is a cut in the rest, seen from the image x leaves. */
  lemma CutAfter(D: Image, x: seq<Write>, rest: seq<Write>, p: nat, ce: nat, img: Image)
    requires AllBefore(x, ce) && CutAt(D, x + rest, p, ce, img)
    ensures p >= |x| && CutAt(ApplyLog(D, x), rest, p - |x|, ce, img)
  {
    assert forall i :: 0 <= i < |x| ==> (x + rest)[i] == x[i];
    var q := p - |x|;
    assert (x + rest)[..p] == x + rest[..q];
    FinishedAppend(x, rest[..q], ce);
    CurrentAppend(x, rest[..q], ce);
    FilterBefore(x, ce);
    assert [] + Current(rest[..q], ce) == Current(rest[..q], ce);
    ApplyLogAppend(D, x, Finished(rest[..q], ce));
    CutShift(x, rest, p, ce);
  }

  lemma CutShift(x: seq<Write>, rest: seq<Write>, p: nat, ce: nat)
    requires p >= |x| && CrashPoint(x + rest, p, ce)
    ensures CrashPoint(rest, p - |x|, ce)
  {
    var q := p - |x|;
    assert q > 0 ==> (x + rest)[p - 1] == rest[q - 1];
    assert q < |rest| ==> (x + rest)[p] == rest[q];
  }

  lemma CutInJournal(g: Geometry, D: Image, prev: Previous, ck: Checkpoint, e: nat, t: Txn,
                     log: seq<Write>, rest: seq<Write>, p: nat, img: Image)
    requires g.Ok() && Ready(g, D, prev, ck) && t.Ok(g) && t.Fits(g) && NotBefore(rest, e + 1)
    requires log == Unsynced(g, prev, e, ck) + JournalWrites(g, ck, e, t) + rest && CutAt(D, log, p, e, img)
    ensures p <= |Unsynced(g, prev, e, ck)| + |t.targets| + 2
    ensures RecoversTo(g, img, D) || RecoversTo(g, img, Apply(D, t))
  {
    var x := Unsynced(g, prev, e, ck) + JournalWrites(g, ck, e, t);
    JournalWritesAt(g, ck, e, t);
    CutHere(D, x, rest, p, e, img);
    forall i | 0 <= i < p
      ensures x[..p][i] in Unsynced(g, prev, e, ck) || x[..p][i] in JournalWrites(g, ck, e, t)
    {
      assert x[..p][i] == x[i];
    }
    CrashWhileJournaling(g, D, prev, ck, e, t, x[..p], img);
  }

  lemma CutInPlace(g: Geometry, D: Image, prev: Previous, ck: Checkpoint, e: nat, t: Txn,
                   log: seq<Write>, rest: seq<Write>, p: nat, img: Image)
    requires g.Ok() && Ready(g, D, prev, ck) && t.Ok(g) && t.Fits(g) && NotBefore(rest, e + 2)
    requires log == Unsynced(g, prev, e, ck) + JournalWrites(g, ck, e, t) + (InPlaceWrites(e + 1, t) + rest)
    requires CutAt(D, log, p, e + 1, img)
    ensures p <= |Unsynced(g, prev, e, ck)| + |t.targets| + 2 + |t.targets|
    ensures RecoversTo(g, img, Apply(D, t))
  {
    var x, aw := Unsynced(g, prev, e, ck) + JournalWrites(g, ck, e, t), InPlaceWrites(e + 1, t);
    JournalWritesAt(g, ck, e, t);
    JournalWritesAt(g, ck, e + 1, t);
    CutAfter(D, x, aw + rest, p, e + 1, img);
    var q := p - |x|;
    CutHere(ApplyLog(D, x), aw, rest, q, e + 1, img);
    AfterFirstSync(g, D, prev, ck, e, t);
    forall i | 0 <= i < q ensures aw[..q][i] in aw {
      assert aw[..q][i] == aw[i];
    }
    CrashWhileApplying(g, D, ApplyLog(D, x), ck, e + 1, t, aw[..q], img);
  }

  /** What the first commit of a run leaves behind once both its syncs are done. */
  lemma CutLater(g: Geometry, D: Image, prev: Previous, ck: Checkpoint, e: nat, t: Txn,
                 log: seq<Write>, rest: seq<Write>, p: nat, ce: nat, img: Image) returns (A: Image)
    requires g.Ok() && |D| == g.size && Ready(g, D, prev, ck) && t.Ok(g) && t.Fits(g) && e + 2 <= ce
    requires log == Unsynced(g, prev, e, ck) + JournalWrites(g, ck, e, t) + (InPlaceWrites(e + 1, t) + rest)
    requires CutAt(D, log, p, ce, img)
    ensures |A| == g.size && Ready(g, A, Since(ck, t), NextCheckpoint(g, ck, t)) && SameMeta(g, A, Apply(D, t))
    ensures var m := |Unsynced(g, prev, e, ck)| + |t.targets| + 2 + |t.targets|;
      p >= m && CutAt(A, rest, p - m, ce, img)
  {
    hide CutAt, Ready, Journaled, SameMeta;
    var x, aw := Unsynced(g, prev, e, ck) + JournalWrites(g, ck, e, t), InPlaceWrites(e + 1, t);
    JournalWritesAt(g, ck, e, t);
    JournalWritesAt(g, ck, e + 1, t);
    CutAfter(D, x, aw + rest, p, ce, img);
    AfterFirstSync(g, D, prev, ck, e, t);
    var J := ApplyLog(D, x);
    CutAfter(J, aw, rest, p - |x|, ce, img);
    AfterSecondSync(g, D, J, ck, e + 1, t);
    A := ApplyLog(J, aw);
  }

  /** Recovering a prefix of the rest of the run recovers a prefix of the run, one transaction longer. */
  lemma LiftRecovered(g: Geometry, D: Image, A: Image, txns: seq<Txn>, k: nat, img: Image)
    requires g.Ok() && |D| == |A| == |img| == g.size && TxnsOk(g, txns) && k < |txns|
    requires SameMeta(g, A, Apply(D, txns[0]))
    requires TxnsOk(g, txns[1..]) && RecoversTo(g, img, AfterTxns(g, A, txns[1..], k))
    ensures RecoversTo(g, img, AfterTxns(g, D, txns, k + 1))
  {
    AfterTxnsSameMeta(g, A, Apply(D, txns[0]), txns[1..], k);
    RecoversToSame(g, img, AfterTxns(g, A, txns[1..], k), AfterTxns(g, D, txns, k + 1));
  }

  lemma {:induction false} CrashSafetyFrom(g: Geometry, D: Image, prev: Previous, ck: Checkpoint, e: nat,
                                           txns: seq<Txn>, log: seq<Write>, p: nat, ce: nat, img: Image)
    requires g.Ok() && |D| == |img| == g.size && Ready(g, D, prev, ck) && TxnsOk(g, txns) && e <= ce
    requires log == Unsynced(g, prev, e, ck) + RunLog(g, ck, e, txns) && CutAt(D, log, p, ce, img)
    ensures var sw := |Unsynced(g, prev, e, ck)|;
      RecoversPrefix(g, D, txns, Acknowledged(g, txns, p - sw), p > sw, img)
    decreases |txns|
  {
    hide RecoversTo, Ready, CutAt, RunLog;
    var sw := Unsynced(g, prev, e, ck);
    if p <= |sw| {
      assert sw <= log;
      assert AfterTxns(g, D, txns, 0) == D;
      CutInUnsynced(g, D, prev, ck, e, log, p, ce, img);
    } else {
      CutInRange(g, D, prev, ck, e, txns, log, p, ce, img);
      var t, next := txns[0], NextCheckpoint(g, ck, txns[0]);
      var jw, aw := JournalWrites(g, ck, e, t), InPlaceWrites(e + 1, t);
      var rest := Unsynced(g, Since(ck, t), e + 2, next) + RunLog(g, next, e + 2, txns[1..]);
      RunLogSplit(g, D, prev, ck, e, txns);
      assert log == sw + jw + (aw + rest);
      if ce < e + 2 {
        FirstCommitCut(g, D, prev, ck, e, txns, log, rest, p, ce, img);
      } else {
        var q := p - |sw| - |jw| - |aw|;
        var A := CutLater(g, D, prev, ck, e, t, log, rest, p, ce, img);
        CrashSafetyFrom(g, A, Since(ck, t), next, e + 2, txns[1..], rest, q, ce, img);
        LiftPrefix(g, D, A, txns, Acknowledged(g, txns[1..], q - 2), q > 2, img);
      }
    }
  }

  lemma CutInRange(g: Geometry, D: Image, prev: Previous, ck: Checkpoint, e: nat,
                   txns: seq<Txn>, log: seq<Write>, p: nat, ce: nat, img: Image)
    requires TxnsOk(g, txns) && log == Unsynced(g, prev, e, ck) + RunLog(g, ck, e, txns) && CutAt(D, log, p, ce, img)
    ensures p > |Unsynced(g, prev, e, ck)| ==> txns != []
  {
  }

  lemma LiftPrefix(g: Geometry, D: Image, A: Image, txns: seq<Txn>, acked: nat, started: bool, img: Image)
    requires g.Ok() && |D| == |A| == |img| == g.size && TxnsOk(g, txns) && acked < |txns|
    requires SameMeta(g, A, Apply(D, txns[0])) && TxnsOk(g, txns[1..])
    requires RecoversPrefix(g, A, txns[1..], acked, started, img)
    ensures RecoversPrefix(g, D, txns, acked + 1, started, img)
  {
    hide RecoversTo;
    if RecoversTo(g, img, AfterTxns(g, A, txns[1..], acked)) {
      LiftRecovered(g, D, A, txns, acked, img);
    } else {
      LiftRecovered(g, D, A, txns, acked + 1, img);
    }
  }

  /** Power fails before the checkpoint of the first commit is written. */
  lemma FirstCommitCut(g: Geometry, D: Image, prev: Previous, ck: Checkpoint, e: nat, txns: seq<Txn>,
                       log: seq<Write>, rest: seq<Write>, p: nat, ce: nat, img: Image)
    requires g.Ok() && |D| == |img| == g.size && Ready(g, D, prev, ck) && TxnsOk(g, txns) && txns != [] && e <= ce < e + 2
    requires rest == Unsynced(g, Since(ck, txns[0]), e + 2, NextCheckpoint(g, ck, txns[0]))
                     + RunLog(g, NextCheckpoint(g, ck, txns[0]), e + 2, txns[1..])
    requires log == Unsynced(g, prev, e, ck) + JournalWrites(g, ck, e, txns[0]) + (InPlaceWrites(e + 1, txns[0]) + rest)
    requires CutAt(D, log, p, ce, img)
    ensures RecoversPrefix(g, D, txns, 0, true, img)
    ensures Acknowledged(g, txns, p - |Unsynced(g, prev, e, ck)|) == 0
  {
    hide RecoversTo, Ready, CutAt, RunLog;
    var t, next := txns[0], NextCheckpoint(g, ck, txns[0]);
    RunLogEpochs(g, next, e + 2, txns[1..]);
    JournalWritesAt(g, ck, e + 1, t);
    AfterOne(g, D, txns);
    if ce == e {
      CutInJournal(g, D, prev, ck, e, t, log, InPlaceWrites(e + 1, t) + rest, p, img);
    } else {
      CutInPlace(g, D, prev, ck, e, t, log, rest, p, img);
    }
  }

  lemma AfterOne(g: Geometry, D: Image, txns: seq<Txn>)
    requires |D| == g.size && TxnsOk(g, txns) && txns != []
    ensures AfterTxns(g, D, txns, 0) == D && AfterTxns(g, D, txns, 1) == Apply(D, txns[0])
  {
    assert AfterTxns(g, D, txns, 1) == AfterTxns(g, Apply(D, txns[0]), txns[1..], 0);
  }

  /**
  The headline result. From a durable checkpoint whose journal holds no commit record numbered
  at or above the next sequence number, run any commits, cut the power after any p writes with
  any subset of the open epoch landed and at most one write torn: opening the volume restores
  exactly the first k transactions, k being the acknowledged count or one more.
  */
  lemma CrashSafety(g: Geometry, base: Image, ck: Checkpoint, txns: seq<Txn>, p: nat, ce: nat, img: Image)
    requires g.Ok() && |base| == |img| == g.size && TxnsOk(g, txns)
    requires base[0] == base[g.backup] == Super(ck) && HeaderParses(g, base) && NoCommitFrom(g, base, ck.seqno)
    requires CutAt(base, RunLog(g, ck, 0, txns), p, ce, img)
    ensures var acked := Acknowledged(g, txns, p);
      || RecoversTo(g, img, AfterTxns(g, base, txns, acked))
      || (acked < |txns| && RecoversTo(g, img, AfterTxns(g, base, txns, acked + 1)))
  {
    hide RecoversTo, CutAt, RunLog;
    assert Unsynced(g, NoCommitYet, 0, ck) + RunLog(g, ck, 0, txns) == RunLog(g, ck, 0, txns);
    CrashSafetyFrom(g, base, NoCommitYet, ck, 0, txns, RunLog(g, ck, 0, txns), p, ce, img);
  }
}
