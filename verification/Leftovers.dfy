/**
The exact limits of crash safety. A commit that was interrupted before its
first sync leaves journal blocks behind; the next commit takes the same
sequence number. And a superblock update is only as safe as the two copies it
starts from.
*/
module Leftovers {
  import opened Wrappers
  import opened Journal
  import opened CrashModel
  import opened CrashSafety

  // --- superblock copies ------------------------------------------------------------

  /**
  A superblock update survives every power failure exactly when both copies were good before it and
  the header that leads to the second one parses.
  */
  lemma BothSupersNeeded(g: Geometry, img: Image, e: nat, ck: Checkpoint)
    requires g.Ok() && |img| == g.size && FindSuper(g, img).Some?
    ensures (forall cut: Image :: |cut| == g.size && CrashImage(img, SuperWrites(g, e, ck), cut) ==> FindSuper(g, cut).Some?)
            <==> img[0].Super? && img[g.backup].Super? && HeaderParses(g, img)
  {
    var ws := SuperWrites(g, e, ck);
    if img[0].Super? && img[g.backup].Super? && HeaderParses(g, img) {
      forall cut: Image | |cut| == g.size && CrashImage(img, ws, cut) ensures FindSuper(g, cut).Some? {
        assert !(TornAt(img, ws, cut, 0) && TornAt(img, ws, cut, g.backup));
        assert forall l: nat :: Landed(ws, l, cut[0]) ==> cut[0].Super?;
        assert forall l: nat :: Landed(ws, l, cut[g.backup]) ==> cut[g.backup].Super?;
        assert !Touched(ws, g.header);
      }
    } else {
      var good := if img[0].Super? then 0 else g.backup;
      var cut := img[good := Garbage(0)];
      assert ws[if img[0].Super? then 0 else 1].loc == good;
      assert Touched(ws, good) && TornAt(img, ws, cut, good);
      assert CrashImage(img, ws, cut);
      assert FindSuper(g, cut).None?;
    }
  }

  // --- commit records left behind ------------------------------------------------------

  /**
  A settled volume: the journal may hold commit records numbered as the next commit will be, of
  earlier attempts of any size and in any slot, but none with a higher number.
  */
  ghost predicate Settled(g: Geometry, D: Image, ck: Checkpoint, t: Txn) {
    && g.Ok() && |D| == g.size && t.Ok(g) && t.Fits(g)
    && D[0] == D[g.backup] == Super(ck)
    && forall i: nat :: i < g.length && Slot(g, D, i).Commit? && Slot(g, D, i).seqno >= ck.seqno ==>
         exists a: Txn :: a.Ok(g) && Slot(g, D, i) == CommitOf(a, ck.seqno)
  }

  /** What journal slot i may hold while t is being journaled: what it held, or t's block for it. */
  ghost predicate MayHold(g: Geometry, D: Image, ck: Checkpoint, t: Txn, i: nat, b: Block)
    requires g.Ok() && |D| == g.size && i < g.length && |t.targets| == |t.data|
  {
    var k := i - Position(g, ck, t);
    Slot(g, D, i) == b || (0 <= k < |t.data| + 2 && JournalBlock(ck.seqno, t, k) == b)
  }

  /**
  The journal holds the commit record of an attempt that started at index x, and each of its other
  blocks is there as well or is t's block for that slot.
  */
  ghost predicate Completable(g: Geometry, D: Image, ck: Checkpoint, t: Txn, x: nat, a: Txn)
    requires g.Ok() && |D| == g.size && |t.targets| == |t.data|
  {
    && a.Ok(g) && |a.targets| <= MAX_TARGETS && x + |a.targets| + 2 <= g.length
    && Slot(g, D, x + |a.targets| + 1) == CommitOf(a, ck.seqno)
    && forall k: nat :: k <= |a.data| ==> MayHold(g, D, ck, t, x + k, JournalBlock(ck.seqno, a, k))
  }

  /** t writes journal slot i. */
  predicate Covers(g: Geometry, ck: Checkpoint, t: Txn, i: nat) {
    Position(g, ck, t) <= i < Position(g, ck, t) + |t.targets| + 2
  }

  /** Replay can be made to look at index x: at the head always, at 0 unless the head cannot fail to hold something. */
  ghost predicate Reachable(g: Geometry, D: Image, ck: Checkpoint, t: Txn, x: nat)
    requires g.Ok() && |D| == g.size
  {
    x == ck.head || (x == 0 && (Covers(g, ck, t, ck.head) || TryRead(g, D, ck.head, ck.seqno).None?))
  }

  /** An earlier attempt that t's blocks can complete, and that is neither a no-op nor as good as t itself. */
  ghost predicate Endangers(g: Geometry, D: Image, ck: Checkpoint, t: Txn, x: nat, a: Txn)
    requires g.Ok() && |D| == g.size && t.Ok(g)
  {
    && Completable(g, D, ck, t, x, a) && Reachable(g, D, ck, t, x)
    && !SameMeta(g, Apply(D, a), D)
    && !SameMeta(g, Apply(D, a), Apply(D, t))
  }

  /**
  A power failure while t is journaled always recovers to before or after t, exactly when no earlier
  attempt recorded in the journal endangers it.
  */
  lemma CommitIsSafeExactlyWhen(g: Geometry, D: Image, ck: Checkpoint, e: nat, t: Txn)
    requires Settled(g, D, ck, t)
    ensures (forall img: Image :: |img| == g.size && CrashImage(D, JournalWrites(g, ck, e, t), img) ==>
               RecoversTo(g, img, D) || RecoversTo(g, img, Apply(D, t)))
            <==> forall x: nat, a: Txn :: !Endangers(g, D, ck, t, x, a)
  {
    hide CrashImage, RecoversTo, Endangers;
    if x: nat, a: Txn :| Endangers(g, D, ck, t, x, a) {
      var img := EndangeringCrash(g, D, ck, e, t, x, a);
    } else {
      forall img: Image | |img| == g.size && CrashImage(D, JournalWrites(g, ck, e, t), img)
        ensures RecoversTo(g, img, D) || RecoversTo(g, img, Apply(D, t))
      {
        SafeCrash(g, D, ck, e, t, img);
      }
    }
  }

  /** Without any such record there is nothing to complete. */
  lemma NoRecordNoDanger(g: Geometry, D: Image, ck: Checkpoint, t: Txn)
    requires g.Ok() && |D| == g.size && t.Ok(g) && t.Fits(g) && D[0] == D[g.backup] == Super(ck)
    requires NoCommitFrom(g, D, ck.seqno)
    ensures Settled(g, D, ck, t) && forall x: nat, a: Txn :: !Endangers(g, D, ck, t, x, a)
  {
    forall x: nat, a: Txn ensures !Completable(g, D, ck, t, x, a) {
      var i := x + |a.targets| + 1;
      assert i < g.length && Slot(g, D, i).Commit? ==> Slot(g, D, i).seqno < ck.seqno;
    }
  }

  // --- what a power failure can leave ---------------------------------------------------

  /** Metadata stays; a journal slot keeps its block, or takes t's, or is torn if t writes it. */
  ghost predicate Crashed(g: Geometry, D: Image, ck: Checkpoint, t: Txn, img: Image)
    requires g.Ok() && |D| == |img| == g.size && |t.targets| == |t.data|
  {
    && (forall l: nat :: l < g.size && !g.InJournal(l) ==> img[l] == D[l])
    && forall i: nat :: i < g.length ==>
         MayHold(g, D, ck, t, i, Slot(g, img, i)) || (Slot(g, img, i).Garbage? && Covers(g, ck, t, i))
  }

  lemma CrashedSlots(g: Geometry, D: Image, ck: Checkpoint, e: nat, t: Txn, img: Image)
    requires g.Ok() && |D| == |img| == g.size && t.Ok(g) && t.Fits(g)
    requires CrashImage(D, JournalWrites(g, ck, e, t), img)
    ensures Crashed(g, D, ck, t, img)
  {
    var ws := JournalWrites(g, ck, e, t);
    forall l: nat | l < g.size && !g.InJournal(l) ensures img[l] == D[l] {
      forall i | 0 <= i < |ws| ensures ws[i].loc != l {
        JournalWriteCases(g, ck, e, t, ws[i]);
      }
    }
    forall i: nat | i < g.length
      ensures MayHold(g, D, ck, t, i, Slot(g, img, i)) || (Slot(g, img, i).Garbage? && Covers(g, ck, t, i))
    {
      var l := g.start + i;
      if Landed(ws, l, img[l]) {
        var k :| 0 <= k < |ws| && ws[k].loc == l && ws[k].data == img[l];
        assert k == i - Position(g, ck, t) && JournalBlock(ck.seqno, t, k) == img[l];
      } else if TornAt(D, ws, img, l) {
        var k :| 0 <= k < |ws| && ws[k].loc == l;
        assert k == i - Position(g, ck, t);
      }
    }
  }

  /** Where t does not write, a crash changes nothing that can be read. */
  lemma HeadUntouched(g: Geometry, D: Image, ck: Checkpoint, t: Txn, img: Image)
    requires g.Ok() && |D| == |img| == g.size && t.Ok(g) && t.Fits(g) && Crashed(g, D, ck, t, img)
    requires !Covers(g, ck, t, ck.head)
    ensures TryRead(g, img, ck.head, ck.seqno) == TryRead(g, D, ck.head, ck.seqno)
  {
    forall i: nat | ck.head <= i < g.length ensures Slot(g, img, i) == Slot(g, D, i) {
      assert MayHold(g, D, ck, t, i, Slot(g, img, i));
    }
    if ck.head + 2 <= g.length {
      var d := Slot(g, img, ck.head);
      if d.Desc? && ck.head + |d.targets| + 2 <= g.length {
        SameFrom(g, img, D, ck.head, ck.head + 1, |d.targets|);
        assert Slot(g, img, ck.head + |d.targets| + 1) == Slot(g, D, ck.head + |d.targets| + 1);
      }
    }
  }

  lemma SameFrom(g: Geometry, a: Image, b: Image, h: nat, i: nat, n: nat)
    requires g.Ok() && |a| == |b| == g.size && h <= i && i + n <= g.length
    requires forall k: nat :: h <= k < g.length ==> Slot(g, a, k) == Slot(g, b, k)
    ensures a[g.start + i .. g.start + i + n] == b[g.start + i .. g.start + i + n]
  {
    var sa, sb := a[g.start + i .. g.start + i + n], b[g.start + i .. g.start + i + n];
    forall k | 0 <= k < n ensures sa[k] == sb[k] {
      assert Slot(g, a, i + k) == Slot(g, b, i + k);
    }
  }

  // --- only endangering attempts do harm ------------------------------------------------

  lemma SafeCrash(g: Geometry, D: Image, ck: Checkpoint, e: nat, t: Txn, img: Image)
    requires Settled(g, D, ck, t) && |img| == g.size && CrashImage(D, JournalWrites(g, ck, e, t), img)
    requires forall x: nat, a: Txn :: !Endangers(g, D, ck, t, x, a)
    ensures RecoversTo(g, img, D) || RecoversTo(g, img, Apply(D, t))
  {
    hide CrashImage, TryRead, RecoversTo, SameMeta, Completable, NoCommitFrom, Crashed, Settled, Apply, ApplyAll;
    SettledFacts(g, D, ck, t);
    CrashedSlots(g, D, ck, e, t, img);
    CrashedFacts(g, D, ck, t, img);
    PrefixRecovered(g, D, img, t);
    RecoversByDefinition(g, img, ck);
    PendingOneOrNone(g, img, ck.head, ck.seqno);
    if Probe(g, img, ck.head, ck.seqno).Some? {
      var f := Probe(g, img, ck.head, ck.seqno).value;
      ReadIsCompletable(g, D, ck, t, img, f.pos);
      if f.txn != t {
        ReadIsReachable(g, D, ck, t, img, f.pos);
        assert !Endangers(g, D, ck, t, f.pos, f.txn);
        PrefixRecovered(g, D, img, f.txn);
        SameMetaThrough(g, ApplyAll(g, img, [f.txn]), Apply(D, f.txn), D);
        SameMetaThrough(g, ApplyAll(g, img, [f.txn]), Apply(D, f.txn), Apply(D, t));
      }
    }
  }

  lemma SettledFacts(g: Geometry, D: Image, ck: Checkpoint, t: Txn)
    requires Settled(g, D, ck, t)
    ensures g.Ok() && |D| == g.size && t.Ok(g) && t.Fits(g)
    ensures D[0] == D[g.backup] == Super(ck)
  {
  }

  lemma CrashedFacts(g: Geometry, D: Image, ck: Checkpoint, t: Txn, img: Image)
    requires Settled(g, D, ck, t) && |img| == g.size && Crashed(g, D, ck, t, img)
    ensures FindSuper(g, img) == Some(ck) && SameMeta(g, img, D) && NoCommitFrom(g, img, ck.seqno + 1)
  {
    forall i: nat | i < g.length && Slot(g, img, i).Commit? ensures Slot(g, img, i).seqno < ck.seqno + 1 {
      assert MayHold(g, D, ck, t, i, Slot(g, img, i));
    }
  }

  /** With no higher number in the journal, replay applies one transaction or none. */
  lemma PendingOneOrNone(g: Geometry, img: Image, head: nat, seqno: nat)
    requires g.Ok() && |img| == g.size && NoCommitFrom(g, img, seqno + 1)
    ensures Pending(g, img, head, seqno) ==
            if Probe(g, img, head, seqno).Some? then [Probe(g, img, head, seqno).value.txn] else []
  {
    hide TryRead, NoCommitFrom;
    if Probe(g, img, head, seqno).Some? {
      var f := Probe(g, img, head, seqno).value;
      NothingPending(g, img, NextHead(g, f.pos, f.txn), seqno + 1);
      assert [f.txn] + [] == [f.txn];
    }
  }

  /** What can be read after a crash is t, or an earlier attempt whose record was there. */
  lemma ReadIsCompletable(g: Geometry, D: Image, ck: Checkpoint, t: Txn, img: Image, x: nat)
    requires Settled(g, D, ck, t) && |img| == g.size && Crashed(g, D, ck, t, img)
    requires TryRead(g, img, x, ck.seqno).Some?
    ensures var a := TryRead(g, img, x, ck.seqno).value; a == t || (a.Ok(g) && Completable(g, D, ck, t, x, a))
  {
    hide Settled;
    SettledFacts(g, D, ck, t);
    var a := TryRead(g, img, x, ck.seqno).value;
    var n := |a.targets|;
    var c := Slot(g, img, x + n + 1);
    assert c == CommitOf(a, ck.seqno) && MayHold(g, D, ck, t, x + n + 1, c);
    if Slot(g, D, x + n + 1) == c {
      RecordIsOk(g, D, ck, t, x + n + 1, a);
      forall k: nat | k <= n ensures MayHold(g, D, ck, t, x + k, JournalBlock(ck.seqno, a, k)) {
        assert Slot(g, img, x + k) == JournalBlock(ck.seqno, a, k);
        assert !JournalBlock(ck.seqno, a, k).Garbage?;
      }
    } else {
      SameRecordSameTxn(a, t, ck.seqno, x + n + 1 - Position(g, ck, t));
    }
  }

  lemma SameRecordSameTxn(a: Txn, t: Txn, seqno: nat, k: int)
    requires 0 < |t.targets| == |t.data| && |a.targets| == |a.data| && 0 <= k < |t.data| + 2
    requires forall i :: 0 <= i < |t.data| ==> t.data[i].Payload?
    requires JournalBlock(seqno, t, k) == CommitOf(a, seqno)
    ensures a == t
  {
    var s1, s2 := [DescOf(a, seqno)] + a.data, [DescOf(t, seqno)] + t.data;
    assert s1 == s2;
    assert s1[0] == s2[0] && a.data == s1[1..] == s2[1..] == t.data;
  }

  lemma RecordIsOk(g: Geometry, D: Image, ck: Checkpoint, t: Txn, i: nat, a: Txn)
    requires Settled(g, D, ck, t) && i < g.length && |a.targets| == |a.data| && Slot(g, D, i) == CommitOf(a, ck.seqno)
    ensures a.Ok(g)
  {
    var b: Txn :| b.Ok(g) && Slot(g, D, i) == CommitOf(b, ck.seqno);
    SameRecordSameTxn(a, b, ck.seqno, |b.data| + 1);
  }

  lemma ReadIsReachable(g: Geometry, D: Image, ck: Checkpoint, t: Txn, img: Image, x: nat)
    requires g.Ok() && |D| == |img| == g.size && t.Ok(g) && t.Fits(g) && Crashed(g, D, ck, t, img)
    requires Probe(g, img, ck.head, ck.seqno).Some? && Probe(g, img, ck.head, ck.seqno).value.pos == x
    ensures Reachable(g, D, ck, t, x)
  {
    hide TryRead, Crashed, Covers;
    if x != ck.head && !Covers(g, ck, t, ck.head) {
      HeadUntouched(g, D, ck, t, img);
    }
  }

  lemma RecoversByDefinition(g: Geometry, img: Image, ck: Checkpoint)
    requires g.Ok() && |img| == g.size && FindSuper(g, img) == Some(ck)
    ensures forall m: Image :: |m| == g.size ==>
      (RecoversTo(g, img, m) <==>
       Closed(g, Pending(g, img, ck.head, ck.seqno))
       && SameMeta(g, ApplyAll(g, img, Pending(g, img, ck.head, ck.seqno)), m))
  {
  }

  lemma SameMetaThrough(g: Geometry, a: Image, b: Image, m: Image)
    requires |a| == |b| == |m| == g.size && SameMeta(g, a, b)
    ensures SameMeta(g, a, m) <==> SameMeta(g, b, m)
  {
  }

  // --- and each of them does ------------------------------------------------------------

  /** D with the descriptor and data blocks of a in place, and the head torn if that is needed to get past it. */
  ghost predicate Completed(g: Geometry, D: Image, ck: Checkpoint, x: nat, a: Txn, tear: bool, img: Image)
    requires g.Ok() && |D| == |img| == g.size && x + |a.targets| + 2 <= g.length && |a.targets| == |a.data|
  {
    var n := |a.targets|;
    && (forall k: nat :: k <= n ==> img[g.start + x + k] == JournalBlock(ck.seqno, a, k))
    && (tear ==> ck.head < g.length && img[g.start + ck.head] == Garbage(0))
    && forall l: nat :: l < g.size && !(g.start + x <= l < g.start + x + n + 1) && !(tear && l == g.start + ck.head) ==>
         img[l] == D[l]
  }

  function Complete(g: Geometry, D: Image, ck: Checkpoint, x: nat, a: Txn): (img: Image)
    requires g.Ok() && |D| == g.size && x + |a.targets| + 2 <= g.length && |a.targets| == |a.data|
    ensures |img| == g.size && Completed(g, D, ck, x, a, false, img)
  {
    var s, n := g.start + x, |a.targets|;
    D[..s] + [DescOf(a, ck.seqno)] + a.data + D[s + 1 + n..]
  }

  /** Getting past the head takes a torn descriptor when t is about to put one there, beyond the attempt's own blocks. */
  predicate NeedsTear(g: Geometry, ck: Checkpoint, t: Txn, x: nat, a: Txn) {
    x != ck.head && ck.head >= x + |a.targets| + 2 && Covers(g, ck, t, ck.head)
  }

  /** The power failure that completes the earlier attempt: its missing blocks land, t's record does not. */
  lemma EndangeringCrash(g: Geometry, D: Image, ck: Checkpoint, e: nat, t: Txn, x: nat, a: Txn) returns (img: Image)
    requires Settled(g, D, ck, t) && Endangers(g, D, ck, t, x, a)
    ensures |img| == g.size && CrashImage(D, JournalWrites(g, ck, e, t), img)
    ensures !RecoversTo(g, img, D) && !RecoversTo(g, img, Apply(D, t))
  {
    hide RecoversTo, SameMeta, TryRead, Complete, CrashImage, Settled, Completed, Completable, Crashed, Apply, ApplyAll,
      NoCommitFrom;
    SettledFacts(g, D, ck, t);
    CompletableFacts(g, D, ck, t, x, a);
    img := Complete(g, D, ck, x, a);
    if NeedsTear(g, ck, t, x, a) {
      img := TearHead(g, D, ck, t, x, a, img);
    }
    IsCrashImage(g, D, ck, e, t, x, a, img);
    CrashedSlots(g, D, ck, e, t, img);
    CrashedFacts(g, D, ck, t, img);
    CompletedIsRead(g, D, ck, t, x, a, img);
    HeadIsPassed(g, D, ck, t, x, a, img);
    PendingOneOrNone(g, img, ck.head, ck.seqno);
    RecoversByDefinition(g, img, ck);
    PrefixRecovered(g, D, img, a);
    SameMetaThrough(g, ApplyAll(g, img, [a]), Apply(D, a), D);
    SameMetaThrough(g, ApplyAll(g, img, [a]), Apply(D, a), Apply(D, t));
  }

  lemma CompletableFacts(g: Geometry, D: Image, ck: Checkpoint, t: Txn, x: nat, a: Txn)
    requires g.Ok() && |D| == g.size && |t.targets| == |t.data| && Completable(g, D, ck, t, x, a)
    ensures a.Ok(g) && |a.targets| <= MAX_TARGETS && x + |a.targets| + 2 <= g.length
  {
  }

  lemma TearHead(g: Geometry, D: Image, ck: Checkpoint, t: Txn, x: nat, a: Txn, img: Image) returns (torn: Image)
    requires g.Ok() && |D| == |img| == g.size && x + |a.targets| + 2 <= g.length && |a.targets| == |a.data|
    requires t.Ok(g) && t.Fits(g) && NeedsTear(g, ck, t, x, a) && Completed(g, D, ck, x, a, false, img)
    ensures |torn| == g.size && Completed(g, D, ck, x, a, true, torn)
  {
    torn := img[g.start + ck.head := Garbage(0)];
  }

  lemma IsCrashImage(g: Geometry, D: Image, ck: Checkpoint, e: nat, t: Txn, x: nat, a: Txn, img: Image)
    requires g.Ok() && |D| == |img| == g.size && t.Ok(g) && t.Fits(g)
    requires Completable(g, D, ck, t, x, a) && Completed(g, D, ck, x, a, NeedsTear(g, ck, t, x, a), img)
    ensures CrashImage(D, JournalWrites(g, ck, e, t), img)
  {
    var ws, tear, h := JournalWrites(g, ck, e, t), NeedsTear(g, ck, t, x, a), g.start + ck.head;
    forall l: nat | l < g.size && !(tear && l == h) ensures img[l] == D[l] || Landed(ws, l, img[l]) {
      if g.start + x <= l < g.start + x + |a.targets| + 1 {
        var i := l - g.start;
        assert img[g.start + x + (i - x)] == JournalBlock(ck.seqno, a, i - x);
        assert MayHold(g, D, ck, t, x + (i - x), JournalBlock(ck.seqno, a, i - x));
        if img[l] != D[l] {
          assert ws[i - Position(g, ck, t)] == Write(e, l, img[l]);
        }
      }
    }
    if tear && img[h] != D[h] {
      assert ws[ck.head - Position(g, ck, t)].loc == h;
      forall k | 0 <= k < |ws| && ws[k].loc == h ensures !ws[k].data.Garbage? {
        JournalWriteCases(g, ck, e, t, ws[k]);
      }
      assert TornAt(D, ws, img, h);
    }
  }

  lemma CompletedIsRead(g: Geometry, D: Image, ck: Checkpoint, t: Txn, x: nat, a: Txn, img: Image)
    requires g.Ok() && |D| == |img| == g.size && |t.targets| == |t.data|
    requires Completable(g, D, ck, t, x, a) && Completed(g, D, ck, x, a, NeedsTear(g, ck, t, x, a), img)
    ensures TryRead(g, img, x, ck.seqno) == Some(a)
  {
    hide TryRead;
    var n := |a.targets|;
    var first: nat := 0;
    assert img[g.start + x + first] == JournalBlock(ck.seqno, a, first);
    forall i | 0 <= i < n ensures img[g.start + x + 1 + i] == a.data[i] {
      assert img[g.start + x + (i + 1)] == JournalBlock(ck.seqno, a, i + 1);
    }
    assert img[g.start + x + n + 1] == Slot(g, D, x + n + 1);
    CompleteTxnIsRead(g, img, x, ck.seqno, a);
  }

  /** With the attempt completed at index 0, nothing can be read at a head elsewhere. */
  lemma HeadIsPassed(g: Geometry, D: Image, ck: Checkpoint, t: Txn, x: nat, a: Txn, img: Image)
    requires g.Ok() && |D| == |img| == g.size && t.Ok(g) && t.Fits(g) && Crashed(g, D, ck, t, img)
    requires Completable(g, D, ck, t, x, a) && Completed(g, D, ck, x, a, NeedsTear(g, ck, t, x, a), img)
    requires Reachable(g, D, ck, t, x)
    ensures x != ck.head ==> x == 0 && TryRead(g, img, ck.head, ck.seqno).None?
  {
    if x != ck.head {
      var n := |a.targets|;
      if ck.head <= n {
        assert img[g.start + x + ck.head] == JournalBlock(ck.seqno, a, ck.head);
      } else if ck.head == n + 1 {
        assert img[g.start + ck.head] == D[g.start + ck.head] == Slot(g, D, x + n + 1);
      } else if !Covers(g, ck, t, ck.head) {
        HeadUntouched(g, D, ck, t, img);
      }
    }
  }

  // --- concrete cases --------------------------------------------------------------------------

  const EX_G := Geometry(7, 1, 6, 3, 3)
  const EX_CK := Checkpoint(1, 0, 1)
  const EX_WAS := Payload([0])
  const EX_ABANDONED := Payload([1])
  const EX_A := Txn([2], [EX_ABANDONED])
  const EX_T := Txn([2], [Payload([2])])
  const EX_D := [Super(EX_CK), Super(EX_CK), EX_WAS, EX_WAS, EX_ABANDONED, CommitOf(EX_A, 1), EX_WAS]

  lemma ExampleIsCompletable()
    ensures Settled(EX_G, EX_D, EX_CK, EX_T) && Completable(EX_G, EX_D, EX_CK, EX_T, 0, EX_A)
  {
    assert Slot(EX_G, EX_D, 0) == EX_WAS && Slot(EX_G, EX_D, 1) == EX_ABANDONED && Slot(EX_G, EX_D, 2) == CommitOf(EX_A, 1);
    assert EX_A.Ok(EX_G);
    assert MayHold(EX_G, EX_D, EX_CK, EX_T, 0, DescOf(EX_A, 1)) by {
      assert JournalBlock(1, EX_T, 0) == DescOf(EX_A, 1);
    }
  }

  lemma ExampleIsEndangered()
    ensures Settled(EX_G, EX_D, EX_CK, EX_T) && Endangers(EX_G, EX_D, EX_CK, EX_T, 0, EX_A)
  {
    hide Apply, ApplyFirst, SameMeta, Completable, Settled, TryRead;
    ExampleIsCompletable();
    SettledFacts(EX_G, EX_D, EX_CK, EX_T);
    CompletableFacts(EX_G, EX_D, EX_CK, EX_T, 0, EX_A);
    ApplyOne(EX_D, EX_A);
    ApplyOne(EX_D, EX_T);
    DiffersAt(EX_G, Apply(EX_D, EX_A), EX_D, 2, 1, 0);
    DiffersAt(EX_G, Apply(EX_D, EX_A), Apply(EX_D, EX_T), 2, 1, 2);
  }

  lemma DiffersAt(g: Geometry, a: Image, b: Image, l: nat, p: bv8, q: bv8)
    requires |a| == |b| == g.size && g.IsMeta(l) && a[l] == Payload([p]) && b[l] == Payload([q]) && p != q
    ensures !SameMeta(g, a, b)
  {
    assert [p][0] != [q][0];
  }

  /**
  The weaker start condition, no valid transaction in the journal, is not enough. Power failed
  earlier after an attempt's data and commit record landed but before its descriptor did. Committing
  new contents for the same block, and failing again after the descriptor alone lands, makes the
  next replay apply the abandoned contents.
  */
  lemma AbandonedCommitResurfaces()
    ensures EX_G.Ok() && EX_T.Ok(EX_G) && EX_T.Fits(EX_G)
    ensures forall x: nat, q: nat :: TryRead(EX_G, EX_D, x, q).None?
    ensures exists img: Image ::
              && |img| == EX_G.size && CrashImage(EX_D, JournalWrites(EX_G, EX_CK, 0, EX_T), img)
              && !RecoversTo(EX_G, img, EX_D) && !RecoversTo(EX_G, img, Apply(EX_D, EX_T))
  {
    hide CrashImage, RecoversTo, Settled, Endangers;
    ExampleIsEndangered();
    forall x: nat, q: nat ensures TryRead(EX_G, EX_D, x, q).None? {
      if x + 2 <= EX_G.length {
        assert !EX_D[EX_G.start + x].Desc?;
      }
    }
    var img := EndangeringCrash(EX_G, EX_D, EX_CK, 0, EX_T, 0, EX_A);
  }

  const EX2_G := Geometry(9, 1, 8, 3, 4)
  const EX2_T := Txn([2, 7], [EX_ABANDONED, Payload([2])])
  const EX2_BASE := [Super(EX_CK), Super(EX_CK), EX_WAS, EX_WAS, EX_WAS, EX_WAS, EX_WAS, EX_WAS, EX_WAS]
  const EX2_D := EX2_BASE[3 := DescOf(EX_A, 1)][5 := CommitOf(EX_A, 1)]

  lemma ShorterIsCompletable()
    ensures Settled(EX2_G, EX2_D, EX_CK, EX2_T) && Completable(EX2_G, EX2_D, EX_CK, EX2_T, 0, EX_A)
  {
    assert Slot(EX2_G, EX2_D, 0) == DescOf(EX_A, 1) && Slot(EX2_G, EX2_D, 2) == CommitOf(EX_A, 1);
    assert Slot(EX2_G, EX2_D, 1) == Slot(EX2_G, EX2_D, 3) == EX_WAS;
    assert EX_A.Ok(EX2_G);
    assert MayHold(EX2_G, EX2_D, EX_CK, EX2_T, 1, EX_ABANDONED) by {
      assert JournalBlock(1, EX2_T, 1) == EX_ABANDONED;
    }
  }

  lemma ShorterIsEndangering()
    ensures Settled(EX2_G, EX2_D, EX_CK, EX2_T) && Endangers(EX2_G, EX2_D, EX_CK, EX2_T, 0, EX_A)
  {
    hide Apply, ApplyFirst, SameMeta, Completable, Settled, TryRead;
    ShorterIsCompletable();
    SettledFacts(EX2_G, EX2_D, EX_CK, EX2_T);
    CompletableFacts(EX2_G, EX2_D, EX_CK, EX2_T, 0, EX_A);
    ApplyOne(EX2_D, EX_A);
    ApplyIsFirst(EX2_D, EX2_T);
    ApplyFirstAt(EX2_D, EX2_T, 2, 1);
    DiffersAt(EX2_G, Apply(EX2_D, EX_A), EX2_D, 2, 1, 0);
    DiffersAt(EX2_G, Apply(EX2_D, EX_A), Apply(EX2_D, EX2_T), 7, 0, 2);
  }

  lemma ApplyIsFirst(D: Image, t: Txn)
    requires |t.targets| == |t.data| && forall k :: 0 <= k < |t.targets| ==> t.targets[k] < |D|
    ensures Apply(D, t) == ApplyFirst(D, t, |t.targets|)
  {
    assert t.targets[..|t.targets|] == t.targets;
  }

  /**
  The abandoned attempt need not be of the same size. One failure leaves the descriptor and the record
  of a one-block attempt without its data; journaling two blocks, the first of which is that data, and
  failing again makes replay apply the first without the second.
  */
  lemma ShorterAttemptResurfaces()
    ensures EX2_G.Ok() && EX_A.Ok(EX2_G) && EX2_T.Ok(EX2_G) && EX2_T.Fits(EX2_G)
    ensures CrashImage(EX2_BASE, JournalWrites(EX2_G, EX_CK, 0, EX_A), EX2_D)
    ensures forall x: nat, q: nat :: TryRead(EX2_G, EX2_D, x, q).None?
    ensures exists img: Image ::
              && |img| == EX2_G.size && CrashImage(EX2_D, JournalWrites(EX2_G, EX_CK, 0, EX2_T), img)
              && !RecoversTo(EX2_G, img, EX2_D) && !RecoversTo(EX2_G, img, Apply(EX2_D, EX2_T))
  {
    hide CrashImage, RecoversTo, Settled, Endangers;
    ShorterIsEndangering();
    LeftByOneCrash();
    NothingToRead();
    var img := EndangeringCrash(EX2_G, EX2_D, EX_CK, 0, EX2_T, 0, EX_A);
  }

  lemma LeftByOneCrash()
    ensures CrashImage(EX2_BASE, JournalWrites(EX2_G, EX_CK, 0, EX_A), EX2_D)
  {
    var ws := JournalWrites(EX2_G, EX_CK, 0, EX_A);
    assert ws[0] == Write(0, 3, EX2_D[3]) && ws[2] == Write(0, 5, EX2_D[5]);
  }

  lemma NothingToRead()
    ensures forall x: nat, q: nat :: TryRead(EX2_G, EX2_D, x, q).None?
  {
    forall x: nat, q: nat ensures TryRead(EX2_G, EX2_D, x, q).None? {
      if x == 0 {
        assert EX2_D[4..5] == [EX_WAS];
        var s := [DescOf(EX_A, 1)] + EX_A.data;
        assert s[1] == EX_ABANDONED && EX_ABANDONED.bytes[0] != EX_WAS.bytes[0];
        assert ([DescOf(EX_A, 1)] + [EX_WAS])[1] == EX_WAS;
      }
    }
  }

  lemma ApplyOne(D: Image, t: Txn)
    requires |t.targets| == |t.data| == 1 && t.targets[0] < |D|
    ensures Apply(D, t) == D[t.targets[0] := t.data[0]]
  {
    assert ApplyFirst(D, t, 0) == D;
  }
}
