/**
What a torn superblock copy costs an open: when a backup that lags behind is as good as the primary,
a volume on which it is not, and chains of opens in which copies may be torn.
*/
module TornSupers {
  import opened Wrappers
  import opened Journal
  import opened CrashModel
  import opened CrashSafety
  import opened JournalVolume
  import opened Recovery

  // --- backups that serve -----------------------------------------------------------------

  /** Copies at one position serve alike. */
  lemma SamePositionServes(g: Geometry, img: Image)
    requires g.Ok() && |img| == g.size && BothGood(g, img) && Openable(g, img)
    requires SamePosition(img[0].ckpt, img[g.backup].ckpt)
    ensures BackupServes(g, img)
  {
    hide Pending, ApplyAll;
    forall l: nat | !Writes(PendingIn(g, img), l) ensures l < g.size ==> Rewrites(img, PendingIn(g, img), l) {
    }
  }

  /** What a list does after another. */
  lemma {:induction false} ApplyAllConcat(g: Geometry, img: Image, a: seq<Txn>, b: seq<Txn>)
    requires |img| == g.size && Closed(g, a) && Closed(g, b)
    ensures Closed(g, a + b) && ApplyAll(g, img, a + b) == ApplyAll(g, ApplyAll(g, img, a), b)
    decreases |a|
  {
    if a == [] {
      assert a + b == b;
    } else {
      assert (a + b)[0] == a[0] && (a + b)[1..] == a[1..] + b;
      assert ClosedTxn(g, a[0]);
      ApplyAllConcat(g, Apply(img, a[0]), a[1..], b);
    }
  }

  /**
  A backup whose list goes through other transactions first and ends with the primary's serves exactly
  when those others are in place wherever the primary's list does not write.
  */
  lemma LongerListServesExactlyWhen(g: Geometry, img: Image, before: seq<Txn>)
    requires g.Ok() && |img| == g.size && BothGood(g, img) && Openable(g, img)
    requires BackupPending(g, img) == before + PendingIn(g, img) && Closed(g, before)
    ensures BackupServes(g, img) <==>
      forall l: nat :: g.IsMeta(l) && Writes(before, l) && !Writes(PendingIn(g, img), l) ==>
        ApplyAll(g, img, before)[l] == img[l]
  {
    hide Pending, ApplyAll, Writes, NeedsHealing;
    var P, Q := PendingIn(g, img), BackupPending(g, img);
    ApplyAllConcat(g, img, before, P);
    forall l: nat | g.IsMeta(l)
      ensures Writes(Q, l) <==> Writes(before, l) || Writes(P, l)
      ensures Writes(P, l) ==> ApplyAll(g, img, Q)[l] == ApplyAll(g, img, P)[l]
      ensures !Writes(P, l) ==> ApplyAll(g, img, Q)[l] == ApplyAll(g, img, before)[l]
      ensures !Writes(P, l) ==> ApplyAll(g, img, P)[l] == img[l] && Rewrites(img, P, l)
    {
      WritesConcat(before, P, l);
      if Writes(P, l) {
        WrittenAlike(g, ApplyAll(g, img, before), img, P, l);
      } else {
        NotWritten(g, ApplyAll(g, img, before), P, l);
        NotWritten(g, img, P, l);
        NothingRewritten(img, P, l);
      }
    }
  }

  lemma WritesConcat(a: seq<Txn>, b: seq<Txn>, l: nat)
    ensures Writes(a + b, l) <==> Writes(a, l) || Writes(b, l)
  {
    if Writes(b, l) {
      var k :| 0 <= k < |b| && l in b[k].targets;
      assert (a + b)[|a| + k] == b[k];
    }
    if Writes(a, l) {
      var k :| 0 <= k < |a| && l in a[k].targets;
      assert (a + b)[k] == a[k];
    }
  }

  lemma NothingRewritten(img: Image, ts: seq<Txn>, l: nat)
    requires l < |img| && !Writes(ts, l)
    ensures Rewrites(img, ts, l)
  {
  }

  /**
  The ordinary stale backup: power failed when only the primary had got the checkpoint of the last
  commit. The next open survives every power failure, any one write torn.
  */
  lemma HalfLandedCheckpointSurvives(g: Geometry, D: Image, last: Checkpoint, t: Txn, ck: Checkpoint, p: nat, ce: nat, cut: Image)
    requires g.Ok() && |D| == g.size && Ready(g, D, Since(last, t), ck) && |cut| == g.size
    requires Openable(g, D[0 := Super(ck)]) && CutAt(D[0 := Super(ck)], OpenLog(g, D[0 := Super(ck)], 0), p, ce, cut)
    ensures RecoversTo(g, cut, D)
  {
    hide CutAt, OpenLog, Pending, ApplyAll, RecoversTo, BackupServes, Doubled;
    var img := D[0 := Super(ck)];
    HalfLanded(g, D, last, t, ck);
    CrashDuringOpen(g, img, p, ce, cut);
    AppliedNothing(g, img);
    SameMetaButPrimary(g, D, img);
    RecoversToSame(g, cut, img, D);
  }

  lemma SameMetaButPrimary(g: Geometry, D: Image, img: Image)
    requires |D| == |img| == g.size && g.size > 0 && img == D[0 := img[0]]
    ensures SameMeta(g, img, D)
  {
  }

  lemma HalfLanded(g: Geometry, D: Image, last: Checkpoint, t: Txn, ck: Checkpoint)
    requires g.Ok() && |D| == g.size && Ready(g, D, Since(last, t), ck)
    ensures var img := D[0 := Super(ck)];
      Openable(g, img) && PendingIn(g, img) == [] && Doubled(g, img) && BackupServes(g, img)
  {
    hide Pending, ApplyAll, SameMeta, SameJournal;
    var img := D[0 := Super(ck)];
    SameJournalButPrimary(g, D, img);
    PendingSameJournal(g, img, D, ck.head, ck.seqno);
    PendingSameJournal(g, img, D, last.head, last.seqno);
    NothingPending(g, D, ck.head, ck.seqno);
    OnePending(g, D, last, t);
    assert [t] + [] == [t];
    var Q := BackupPending(g, img);
    assert Q + [] == Q;
    assert Q == [] || Q == [t];
    SameMetaButPrimary(g, D, img);
    ReapplyIsHarmless(g, D, img, t);
    assert Closed(g, Q);
    forall l: nat | g.IsMeta(l) && Writes(Q, l) ensures ApplyAll(g, img, Q)[l] == img[l] {
      InPlaceAlready(g, img, t, l);
    }
    LongerListServesExactlyWhen(g, img, Q);
  }

  lemma InPlaceAlready(g: Geometry, img: Image, t: Txn, l: nat)
    requires g.Ok() && |img| == g.size && ClosedTxn(g, t) && SameMeta(g, Apply(img, t), img) && g.IsMeta(l)
    ensures Closed(g, [t]) && ApplyAll(g, img, [t])[l] == img[l]
  {
    assert ApplyAll(g, img, [t]) == ApplyAll(g, Apply(img, t), []);
  }

  lemma SameJournalButPrimary(g: Geometry, D: Image, img: Image)
    requires g.Ok() && |D| == |img| == g.size && img == D[0 := img[0]]
    ensures SameJournal(g, img, D)
  {
    forall i | g.start <= i < g.start + g.length ensures img[i] == D[i] {
      assert g.InJournal(i);
    }
  }

  // --- chains of opens ----------------------------------------------------------------------

  /** A sequence of opens, each cut short by a power failure that may tear any one write. */
  ghost predicate TornChain(g: Geometry, imgs: seq<Image>, cuts: seq<(nat, nat)>)
    requires g.Ok()
  {
    && |imgs| == |cuts| + 1
    && (forall i :: 0 <= i < |imgs| ==> |imgs[i]| == g.size)
    && forall i :: 0 <= i < |cuts| && Openable(g, imgs[i]) ==>
         CutAt(imgs[i], OpenLog(g, imgs[i], 0), cuts[i].0, cuts[i].1, imgs[i + 1])
  }

  /** A torn backup leaves one copy, and opening has to write it. */
  lemma TornBackup(g: Geometry, img: Image) returns (p: nat, ce: nat, cut: Image)
    requires g.Ok() && |img| == g.size && Openable(g, img) && BothGood(g, img) && OpenLog(g, img, 0) != []
    ensures |cut| == g.size && CutAt(img, OpenLog(g, img, 0), p, ce, cut)
    ensures Openable(g, cut) && !BothGood(g, cut) && OpenLog(g, cut, 0) != []
  {
    hide CutAt, OpenLog, Pending, ApplyAll, CheckpointAfter, ReplayWrites, CrashImage, ApplyLog, SameMeta, HeaderPending;
    var x := OpenLogParts(g, img);
    var sw := FinalWrites(g, img);
    var D := img;
    if NeedsHealing(g, img) {
      assert x[1].loc == g.backup;
      BackupWrites(g, img, x);
      cut := OneTear(img, x, g.backup);
      CutBeforeSync(g, img, x, sw, cut);
      p, ce := |x|, 0;
    } else {
      NothingToWrite(g, img);
      D := ApplyLog(img, x);
      AfterReplaySync(g, img);
      assert sw[1].loc == g.backup;
      cut := OneTear(D, sw, g.backup);
      FinalAtOne(g, img);
      CutAfterSync(img, x, sw, cut);
      p, ce := |x + sw|, 1;
    }
    OneCopyLeft(g, img, D, cut);
  }

  lemma BackupWrites(g: Geometry, img: Image, x: seq<Write>)
    requires g.Ok() && |img| == g.size && Openable(g, img)
    requires x == HealWrites(g, img, 0, FindSuper(g, img).value) + ReplayWrites(0, PendingIn(g, img))
    ensures forall i :: 0 <= i < |x| && x[i].loc == g.backup ==> !x[i].data.Garbage?
  {
    hide Pending, ReplayWrites;
    forall i | 0 <= i < |x| && x[i].loc == g.backup ensures !x[i].data.Garbage? {
      EarlyWriteCases(g, img, x[i]);
    }
  }

  lemma OneCopyLeft(g: Geometry, img: Image, D: Image, cut: Image)
    requires g.Ok() && |img| == |D| == g.size && Openable(g, img) && BothGood(g, img)
    requires SameJournal(g, D, img) && D[0] == img[0] && cut == D[g.backup := Garbage(0)]
    ensures Openable(g, cut) && !BothGood(g, cut) && OpenLog(g, cut, 0) != []
  {
    hide Pending, CheckpointAfter, ReplayWrites, ApplyAll;
    forall i | g.start <= i < g.start + g.length ensures cut[i] == D[i] {
      assert g.InJournal(i);
    }
    PendingSameJournal(g, cut, D, img[0].ckpt.head, img[0].ckpt.seqno);
    PendingSameJournal(g, D, img, img[0].ckpt.head, img[0].ckpt.seqno);
    assert NeedsHealing(g, cut);
    assert OpenLog(g, cut, 0)[0].loc == 0;
  }

  lemma NothingMoves(img: Image, p: nat, ce: nat, cut: Image)
    requires CutAt(img, [], p, ce, cut)
    ensures cut == img
  {
  }

  /** With nothing to write an open leaves everything as it is, however often it is cut short. */
  lemma {:induction false} QuietChain(g: Geometry, imgs: seq<Image>, cuts: seq<(nat, nat)>)
    requires g.Ok() && TornChain(g, imgs, cuts) && Openable(g, imgs[0]) && OpenLog(g, imgs[0], 0) == []
    ensures imgs[|cuts|] == imgs[0]
    decreases |cuts|
  {
    hide CutAt, OpenLog;
    if |cuts| > 0 {
      NothingMoves(imgs[0], cuts[0].0, cuts[0].1, imgs[1]);
      QuietChain(g, imgs[1..], cuts[1..]);
    }
  }

  /**
  If any write may be torn each time, superblock copies included, every chain of cut opens ends with the
  same metadata exactly when there is nothing to write in the first place: one failure takes one copy,
  the next the other.
  */
  lemma TornChainsExactlyWhen(g: Geometry, img: Image, m: Image)
    requires g.Ok() && |img| == |m| == g.size && RecoversTo(g, img, m)
    ensures Openable(g, img)
    ensures (forall imgs: seq<Image>, cuts: seq<(nat, nat)> ::
               TornChain(g, imgs, cuts) && imgs[0] == img ==> RecoversTo(g, imgs[|cuts|], m))
            <==> OpenLog(g, img, 0) == []
  {
    hide CutAt, Pending, OpenLog, ApplyAll, Doubled;
    if OpenLog(g, img, 0) == [] {
      forall imgs: seq<Image>, cuts: seq<(nat, nat)> | TornChain(g, imgs, cuts) && imgs[0] == img
        ensures RecoversTo(g, imgs[|cuts|], m)
      {
        QuietChain(g, imgs, cuts);
      }
    } else {
      var imgs, cuts := LosingChain(g, img);
      NoSuperNoRecovery(g, imgs[|cuts|], m);
    }
  }

  lemma LosingChain(g: Geometry, img: Image) returns (imgs: seq<Image>, cuts: seq<(nat, nat)>)
    requires g.Ok() && |img| == g.size && Openable(g, img) && OpenLog(g, img, 0) != []
    ensures TornChain(g, imgs, cuts) && imgs[0] == img && FindSuper(g, imgs[|cuts|]).None?
  {
    hide CutAt, Pending, OpenLog, ApplyAll, HeaderPending, HeaderParses;
    if BothGood(g, img) {
      var p, ce, mid := TornBackup(g, img);
      var q, cf, cut := TornSuper(g, mid);
      imgs, cuts := [img, mid, cut], [(p, ce), (q, cf)];
    } else {
      var p, ce, cut := TornSuper(g, img);
      imgs, cuts := [img, cut], [(p, ce)];
    }
  }

  // --- a backup that does not serve ---------------------------------------------------------------

  const EX_G := Geometry(10, 1, 9, 3, 4)
  const EX_CK := Checkpoint(1, 0, 1)
  const EX_WAS := Payload([0])
  const EX_U := Txn([2], [Payload([5])])
  const EX_T := Txn([7, 8], [Payload([2]), Payload([3])])
  const EX_NEXT := Checkpoint(2, 3, 2)
  const EX_BASE := [Super(EX_CK), Super(EX_CK), EX_WAS, EX_WAS, EX_WAS, EX_WAS, EX_WAS, EX_WAS, EX_WAS, EX_WAS]
  /** The first transaction durable and in place, its checkpoint not yet. */
  const EX_MID := EX_BASE[2 := Payload([5])][3 := DescOf(EX_U, 1)][4 := Payload([5])][5 := CommitOf(EX_U, 1)]
  /** The checkpoint has reached the primary only; the second transaction, wrapped over the first, is complete. */
  const EX_IMG := EX_MID[0 := Super(EX_NEXT)]
    [3 := DescOf(EX_T, 2)][4 := Payload([2])][5 := Payload([3])][6 := CommitOf(EX_T, 2)]
  /** While healing and replaying, the primary is torn and one of two blocks lands. */
  const EX_CUT := EX_IMG[0 := Garbage(0)][7 := Payload([2])]

  lemma ExampleIsWellFormed()
    ensures EX_G.Ok() && EX_U.Ok(EX_G) && EX_T.Ok(EX_G) && TxnsOk(EX_G, [EX_U, EX_T])
    ensures Position(EX_G, EX_CK, EX_U) == 0 && Position(EX_G, EX_NEXT, EX_T) == 0
    ensures NextCheckpoint(EX_G, EX_CK, EX_U) == EX_NEXT
  {
  }

  /** Power failing after the epochs of x is power failing in the rest, from the image x leaves. */
  lemma CutLaterIs(D: Image, x: seq<Write>, rest: seq<Write>, q: nat, ce: nat, img: Image)
    requires AllBefore(x, ce) && CutAt(ApplyLog(D, x), rest, q, ce, img)
    ensures CutAt(D, x + rest, |x| + q, ce, img)
  {
    hide CrashImage, ApplyLog;
    var log, p := x + rest, |x| + q;
    assert log[..p] == x + rest[..q];
    FinishedAppend(x, rest[..q], ce);
    CurrentAppend(x, rest[..q], ce);
    FilterBefore(x, ce);
    assert [] + Current(rest[..q], ce) == Current(rest[..q], ce);
    ApplyLogAppend(D, x, Finished(rest[..q], ce));
    assert q > 0 ==> log[p - 1] == rest[q - 1];
    assert q < |rest| ==> log[p] == rest[q];
    assert q == 0 && p > 0 ==> log[p - 1] == x[|x| - 1];
  }

  lemma FirstCommitDone()
    ensures EX_U.Ok(EX_G) && ApplyLog(EX_BASE, JournalWrites(EX_G, EX_CK, 0, EX_U) + InPlaceWrites(1, EX_U)) == EX_MID
  {
    hide ApplyLog;
    ExampleIsWellFormed();
    var jw, aw := JournalWrites(EX_G, EX_CK, 0, EX_U), InPlaceWrites(1, EX_U);
    var J, A := ApplyLog(EX_BASE, jw), ApplyLog(ApplyLog(EX_BASE, jw), aw);
    ApplyLogAppend(EX_BASE, jw, aw);
    forall l: nat | l < 10 ensures A[l] == EX_MID[l] {
      ApplyConsecutive(EX_BASE, jw, 3, l);
      ApplyConsecutive(J, aw, 2, l);
    }
  }

  /** The second commit's journal blocks land, and one of the two superblock writes of the first. */
  lemma CheckpointHalfLands()
    ensures EX_T.Ok(EX_G)
    ensures CrashImage(EX_MID, SuperWrites(EX_G, 2, EX_NEXT) + JournalWrites(EX_G, EX_NEXT, 2, EX_T), EX_IMG)
  {
    ExampleIsWellFormed();
    var sw, jw := SuperWrites(EX_G, 2, EX_NEXT), JournalWrites(EX_G, EX_NEXT, 2, EX_T);
    var ws := sw + jw;
    assert ws[0] == Write(2, 0, EX_IMG[0]);
    assert ws[2] == jw[0] == Write(2, 3, EX_IMG[3]) && ws[3] == jw[1] == Write(2, 4, EX_IMG[4]);
    assert ws[4] == jw[2] == Write(2, 5, EX_IMG[5]) && ws[5] == jw[3] == Write(2, 6, EX_IMG[6]);
    forall l: nat | l < 10 ensures EX_IMG[l] == EX_MID[l] || Landed(ws, l, EX_IMG[l]) {
    }
  }

  lemma FirstFailure()
    ensures TxnsOk(EX_G, [EX_U, EX_T]) && CutAt(EX_BASE, RunLog(EX_G, EX_CK, 0, [EX_U, EX_T]), 10, 2, EX_IMG)
  {
    hide ApplyLog, CrashImage;
    ExampleIsWellFormed();
    FirstCommitDone();
    CheckpointHalfLands();
    var x := JournalWrites(EX_G, EX_CK, 0, EX_U) + InPlaceWrites(1, EX_U);
    var sw, jw := SuperWrites(EX_G, 2, EX_NEXT), JournalWrites(EX_G, EX_NEXT, 2, EX_T);
    var later := InPlaceWrites(3, EX_T) + SuperWrites(EX_G, 4, NextCheckpoint(EX_G, EX_NEXT, EX_T));
    TwoCommitsLog(x, sw, jw, later);
    var ws, rest := sw + jw, sw + jw + later;
    assert rest[..6] == ws;
    FilterAt(ws, 2);
    ApplyNothing(EX_MID);
    assert rest[6] == later[0];
    CutLaterIs(EX_BASE, x, rest, 6, 2, EX_IMG);
  }

  lemma TwoCommitsLog(x: seq<Write>, sw: seq<Write>, jw: seq<Write>, later: seq<Write>)
    requires EX_U.Ok(EX_G) && EX_T.Ok(EX_G) && TxnsOk(EX_G, [EX_U, EX_T]) && NextCheckpoint(EX_G, EX_CK, EX_U) == EX_NEXT
    requires x == JournalWrites(EX_G, EX_CK, 0, EX_U) + InPlaceWrites(1, EX_U)
    requires sw == SuperWrites(EX_G, 2, EX_NEXT) && jw == JournalWrites(EX_G, EX_NEXT, 2, EX_T)
    requires later == InPlaceWrites(3, EX_T) + SuperWrites(EX_G, 4, NextCheckpoint(EX_G, EX_NEXT, EX_T))
    ensures RunLog(EX_G, EX_CK, 0, [EX_U, EX_T]) == x + (sw + jw + later)
  {
    hide JournalWrites, InPlaceWrites, SuperWrites, NextCheckpoint;
    var next := NextCheckpoint(EX_G, EX_NEXT, EX_T);
    assert [EX_U, EX_T][1..] == [EX_T] && [EX_T][1..] == [];
    assert RunLog(EX_G, next, 4, []) == [];
    assert RunLog(EX_G, EX_NEXT, 2, [EX_T]) == CommitLog(EX_G, EX_NEXT, 2, EX_T) + [];
    assert RunLog(EX_G, EX_CK, 0, [EX_U, EX_T]) == CommitLog(EX_G, EX_CK, 0, EX_U) + RunLog(EX_G, EX_NEXT, 2, [EX_T]);
  }

  /** The primary leads to the second transaction; the old backup leads nowhere. */
  lemma WhatIsPending()
    ensures FindSuper(EX_G, EX_IMG) == Some(EX_NEXT) && PendingIn(EX_G, EX_IMG) == [EX_T] && Openable(EX_G, EX_IMG)
    ensures FindSuper(EX_G, EX_CUT) == Some(EX_CK) && PendingIn(EX_G, EX_CUT) == [] && Openable(EX_G, EX_CUT)
  {
    ExampleIsWellFormed();
    assert EX_IMG[4..6] == EX_T.data;
    assert TryRead(EX_G, EX_IMG, 3, 2).None? && TryRead(EX_G, EX_IMG, 0, 2) == Some(EX_T);
    assert TryRead(EX_G, EX_IMG, 0, 3).None?;
    assert TryRead(EX_G, EX_CUT, 0, 1).None?;
    PendingStep(EX_G, EX_IMG, 3, 2);
    PendingStep(EX_G, EX_IMG, 0, 3);
    PendingStep(EX_G, EX_CUT, 0, 1);
    assert Pending(EX_G, EX_IMG, 3, 2) == [EX_T] + Pending(EX_G, EX_IMG, 0, 3);
    assert ClosedTxn(EX_G, EX_T);
  }

  lemma SecondFailure()
    ensures FindSuper(EX_G, EX_IMG).Some? && Openable(EX_G, EX_IMG) && CutAt(EX_IMG, OpenLog(EX_G, EX_IMG, 0), 4, 0, EX_CUT)
  {
    hide Pending, CheckpointAfter, CrashImage, FinalWrites, OpenLog;
    WhatIsPending();
    var x := OpenLogParts(EX_G, EX_IMG);
    var hw, aw := SuperWrites(EX_G, 0, Checkpoint(3, 3, 2)), InPlaceWrites(0, EX_T);
    assert [EX_T][..0] == [];
    assert ReplayWrites(0, []) == [];
    assert ReplayWrites(0, [EX_T]) == [] + aw;
    assert x == hw + aw;
    HealingCut(x, hw, aw);
    CutBeforeSync(EX_G, EX_IMG, x, FinalWrites(EX_G, EX_IMG), EX_CUT);
  }

  lemma HealingCut(x: seq<Write>, hw: seq<Write>, aw: seq<Write>)
    requires hw == SuperWrites(EX_G, 0, Checkpoint(3, 3, 2)) && aw == InPlaceWrites(0, EX_T) && x == hw + aw
    ensures |x| == 4 && CrashImage(EX_IMG, x, EX_CUT)
  {
    assert x[0].loc == 0 && x[1].loc == 1;
    assert x[2] == aw[0] == Write(0, 7, Payload([2])) && x[3] == aw[1] == Write(0, 8, Payload([3]));
    assert TornAt(EX_IMG, x, EX_CUT, 0);
  }

  /**
  Two failures, one torn write, and the volume opens without complaint in a state it never was in. The
  first failure leaves the checkpoint of one commit on the primary only while the journal of the next,
  which wrapped over it, is complete. The second one tears the primary while the open heals and replays:
  from the old backup nothing is pending, and one block of two is new.
  */
  lemma StaleBackupCorrupts()
    ensures EX_G.Ok() && TxnsOk(EX_G, [EX_U, EX_T]) && Ready(EX_G, EX_BASE, NoCommitYet, EX_CK)
    ensures CutAt(EX_BASE, RunLog(EX_G, EX_CK, 0, [EX_U, EX_T]), 10, 2, EX_IMG)
    ensures Openable(EX_G, EX_IMG) && CutAt(EX_IMG, OpenLog(EX_G, EX_IMG, 0), 4, 0, EX_CUT)
    ensures Openable(EX_G, EX_CUT) && PendingIn(EX_G, EX_CUT) == []
    ensures forall k: nat :: k <= 2 ==> !RecoversTo(EX_G, EX_CUT, AfterTxns(EX_G, EX_BASE, [EX_U, EX_T], k))
  {
    hide CutAt, OpenLog, RunLog, Pending;
    ExampleIsWellFormed();
    FirstFailure();
    WhatIsPending();
    SecondFailure();
    forall k: nat | k <= 2 ensures !RecoversTo(EX_G, EX_CUT, AfterTxns(EX_G, EX_BASE, [EX_U, EX_T], k)) {
      BlocksAfter(k);
      AppliedNothing(EX_G, EX_CUT);
      var l: nat := if k == 2 then 8 else 7;
      assert EX_G.IsMeta(l) && EX_CUT[l] != AfterTxns(EX_G, EX_BASE, [EX_U, EX_T], k)[l] by {
        assert Payload([2]).bytes[0] != EX_WAS.bytes[0] && Payload([3]).bytes[0] != EX_WAS.bytes[0];
      }
    }
  }

  lemma BlocksAfter(k: nat)
    requires EX_U.Ok(EX_G) && EX_T.Ok(EX_G) && TxnsOk(EX_G, [EX_U, EX_T]) && k <= 2
    ensures var r := AfterTxns(EX_G, EX_BASE, [EX_U, EX_T], k);
      if k == 2 then r[8] == Payload([3]) else r[7] == EX_WAS
  {
    hide Apply, ApplyFirst;
    var A := Apply(EX_BASE, EX_U);
    assert [EX_U, EX_T][1..] == [EX_T] && [EX_T][1..] == [];
    assert A[7] == EX_WAS;
    if k == 2 {
      assert AfterTxns(EX_G, A, [EX_T], 1) == AfterTxns(EX_G, Apply(A, EX_T), [], 0);
      ApplyFirstAt(A, EX_T, 2, 1);
      ApplyTwo(A, EX_T);
    } else if k == 1 {
      assert AfterTxns(EX_G, A, [EX_T], 0) == A;
    }
  }

  lemma ApplyTwo(D: Image, t: Txn)
    requires |t.targets| == |t.data| && forall k :: 0 <= k < |t.targets| ==> t.targets[k] < |D|
    ensures Apply(D, t) == ApplyFirst(D, t, |t.targets|)
  {
    assert t.targets[..|t.targets|] == t.targets;
  }
}
