/**
Opening a volume: superblock recovery and healing, replay, and power failures
during recovery itself, with the exact conditions under which it survives them.
*/
module Recovery {
  import opened Wrappers
  import opened Journal
  import opened CrashModel
  import opened CrashSafety
  import opened JournalVolume

  // --- what a writable open writes --------------------------------------------

  /** The primary is damaged, or the backup does not match its generation. */
  predicate NeedsHealing(g: Geometry, img: Image)
    requires g.Ok() && |img| == g.size
  {
    !img[0].Super? || !img[g.backup].Super? || img[g.backup].ckpt.gen != img[0].ckpt.gen
  }

  function HealWrites(g: Geometry, img: Image, e: nat, ck: Checkpoint): seq<Write>
    requires g.Ok() && |img| == g.size
  {
    if NeedsHealing(g, img) then SuperWrites(g, e, ck.(gen := ck.gen + 1)) else []
  }

  /** Replay can run: a superblock is found and pending transactions address metadata only. */
  ghost predicate Openable(g: Geometry, img: Image)
    requires g.Ok() && |img| == g.size
  {
    && FindSuper(g, img).Some?
    && Closed(g, PendingIn(g, img))
  }

  ghost function PendingIn(g: Geometry, img: Image): seq<Txn>
    requires g.Ok() && |img| == g.size && FindSuper(g, img).Some?
  {
    var ck := FindSuper(g, img).value;
    Pending(g, img, ck.head, ck.seqno)
  }

  /** The checkpoint replay records when it has applied something. */
  ghost function FinalCheckpoint(g: Geometry, img: Image): Checkpoint
    requires g.Ok() && |img| == g.size && FindSuper(g, img).Some?
  {
    var ck := FindSuper(g, img).value;
    var end := CheckpointAfter(g, img, ck.head, ck.seqno);
    Checkpoint(ck.gen + (if NeedsHealing(g, img) then 2 else 1), end.0, end.1)
  }

  /** Everything a writable open writes, from epoch e on. */
  ghost function OpenLog(g: Geometry, img: Image, e: nat): seq<Write>
    requires g.Ok() && |img| == g.size && Openable(g, img)
  {
    var ts := PendingIn(g, img);
    HealWrites(g, img, e, FindSuper(g, img).value) + ReplayWrites(e, ts)
    + if ts == [] then [] else SuperWrites(g, e + 1, FinalCheckpoint(g, img))
  }

  /** Open for writing: find a superblock, heal its copies, replay. */
  method Open(g: Geometry, img: Image) returns (v: JournalVolume.Volume)
    requires g.Ok() && |img| == g.size && Openable(g, img)
    ensures fresh(v) && v.Valid() && v.g == g
    ensures v.log == OpenLog(g, img, 0)
    ensures SameMeta(g, v.image, ApplyAll(g, img, PendingIn(g, img)))
    ensures SameJournal(g, v.image, img)
  {
    hide Pending, CheckpointAfter, TryRead, ApplyLog, ReplayWrites, SuperWrites, ApplyAll;
    var ck := FindSuper(g, img).value;
    v := new JournalVolume.Volume(g, img, ck);
    if NeedsHealing(g, img) {
      v.WriteSuperblock();
      AfterSuperblock(g, img, 0, v.ck);
    }
    ghost var healed := v.image;
    PendingSameJournal(g, healed, img, ck.head, ck.seqno);
    CheckpointSameJournal(g, healed, img, ck.head, ck.seqno);
    var applied := v.Replay();
    ghost var ts := PendingIn(g, img);
    ApplyAllSameMeta(g, healed, img, ts);
    NothingReplayed(g, 0, [], img);
  }

  lemma {:induction false} CheckpointSameJournal(g: Geometry, a: Image, b: Image, head: nat, seqno: nat)
    requires g.Ok() && |a| == |b| == g.size && SameJournal(g, a, b)
    ensures CheckpointAfter(g, a, head, seqno) == CheckpointAfter(g, b, head, seqno)
    decreases |DescsFrom(g, a, seqno)|
  {
    hide TryRead;
    ProbeSameJournal(g, a, b, head, seqno);
    if Probe(g, a, head, seqno).Some? {
      var f := Probe(g, a, head, seqno).value;
      ProbeShrinksDescs(g, a, head, seqno);
      CheckpointSameJournal(g, a, b, NextHead(g, f.pos, f.txn), seqno + 1);
    }
  }

  lemma ApplyAllSameMeta(g: Geometry, a: Image, b: Image, ts: seq<Txn>)
    requires |a| == |b| == g.size && Closed(g, ts) && SameMeta(g, a, b)
    ensures SameMeta(g, ApplyAll(g, a, ts), ApplyAll(g, b, ts))
  {
    forall l: nat | g.IsMeta(l) ensures ApplyAll(g, a, ts)[l] == ApplyAll(g, b, ts)[l] {
      ApplyAllPointwise(g, a, b, ts, l);
    }
  }

  /** Once replay has consumed the pending transactions, none is pending at the new checkpoint. */
  lemma {:induction false} NothingAfterEnd(g: Geometry, img: Image, head: nat, seqno: nat)
    requires g.Ok() && |img| == g.size
    ensures var end := CheckpointAfter(g, img, head, seqno); Pending(g, img, end.0, end.1) == []
    decreases |DescsFrom(g, img, seqno)|
  {
    hide TryRead, DescsFrom;
    PendingStep(g, img, head, seqno);
    if Probe(g, img, head, seqno).Some? {
      var f := Probe(g, img, head, seqno).value;
      NothingAfterEnd(g, img, NextHead(g, f.pos, f.txn), seqno + 1);
    }
  }

  // --- power failures during recovery -----------------------------------------------

  /** Applying in place, as a log, is applying the transactions. */
  lemma {:induction false} InPlaceLog(img: Image, e: nat, t: Txn, n: nat)
    requires n <= |t.targets| == |t.data| && forall k :: 0 <= k < n ==> t.targets[k] < |img|
    ensures ApplyLog(img, InPlaceWrites(e, t)[..n]) == ApplyFirst(img, t, n)
  {
    var ws := InPlaceWrites(e, t);
    if n > 0 {
      InPlaceLog(img, e, t, n - 1);
      assert ws[..n][..n - 1] == ws[..n - 1];
    }
  }

  lemma {:induction false} ReplayLog(g: Geometry, img: Image, e: nat, ts: seq<Txn>)
    requires |img| == g.size && Closed(g, ts)
    ensures ApplyLog(img, ReplayWrites(e, ts)) == ApplyAll(g, img, ts)
    ensures AllAt(ReplayWrites(e, ts), e)
    ensures forall i :: 0 <= i < |ReplayWrites(e, ts)| ==>
      exists k :: 0 <= k < |ts| && ReplayWrites(e, ts)[i].loc in ts[k].targets
    ensures forall i :: 0 <= i < |ReplayWrites(e, ts)| && ReplayWrites(e, ts)[i].loc == g.header ==>
      ReplayWrites(e, ts)[i].data.Payload?
    decreases |ts|
  {
    if ts != [] {
      var n := |ts| - 1;
      var t := ts[n];
      assert ClosedTxn(g, t);
      ReplayLog(g, img, e, ts[..n]);
      ReplayAppend(g, img, e, ts, n);
      assert ts[..n + 1] == ts;
      var ws := InPlaceWrites(e, t);
      InPlaceLog(ApplyAll(g, img, ts[..n]), e, t, |t.targets|);
      assert ws[..|t.targets|] == ws;
      ApplyLogAppend(img, ReplayWrites(e, ts[..n]), ws);
      var rw := ReplayWrites(e, ts[..n]);
      forall i | 0 <= i < |rw + ws| ensures exists k :: 0 <= k < |ts| && (rw + ws)[i].loc in ts[k].targets {
        if i < |rw| {
          var k :| 0 <= k < n && rw[i].loc in ts[..n][k].targets;
          assert rw[i].loc in ts[k].targets;
        } else {
          assert ws[i - |rw|].loc in ts[n].targets;
        }
      }
    }
  }

  /** What replay is going to write, it writes. */
  lemma {:induction false} ReplayHas(e: nat, ts: seq<Txn>, k: nat, j: nat)
    requires forall i :: 0 <= i < |ts| ==> |ts[i].targets| == |ts[i].data|
    requires k < |ts| && j < |ts[k].targets|
    ensures Write(e, ts[k].targets[j], ts[k].data[j]) in ReplayWrites(e, ts)
  {
    var n := |ts| - 1;
    var rw: seq<Write>, ws: seq<Write> := ReplayWrites(e, ts[..n]), InPlaceWrites(e, ts[n]);
    if k == n {
      assert ws[j] == Write(e, ts[k].targets[j], ts[k].data[j]);
      assert (rw + ws)[|rw| + j] == ws[j];
    } else {
      ReplayHas(e, ts[..n], k, j);
    }
  }

  /** And nothing else. */
  lemma {:induction false} ReplayOnly(e: nat, ts: seq<Txn>, w: Write)
    requires forall i :: 0 <= i < |ts| ==> |ts[i].targets| == |ts[i].data|
    requires w in ReplayWrites(e, ts)
    ensures exists k: nat, j: nat :: k < |ts| && j < |ts[k].targets| && ts[k].targets[j] == w.loc && ts[k].data[j] == w.data
  {
    var n := |ts| - 1;
    var rw: seq<Write>, ws: seq<Write> := ReplayWrites(e, ts[..n]), InPlaceWrites(e, ts[n]);
    if w in rw {
      ReplayOnly(e, ts[..n], w);
      var k: nat, j: nat :| k < n && j < |ts[..n][k].targets| && ts[..n][k].targets[j] == w.loc && ts[..n][k].data[j] == w.data;
      assert ts[k].targets[j] == w.loc;
    } else {
      var j :| 0 <= j < |ws| && ws[j] == w;
      assert ts[n].targets[j] == w.loc;
    }
  }

  /** Replaying twice is replaying once. */
  lemma ReplayIsIdempotent(g: Geometry, img: Image, again: Image, ts: seq<Txn>)
    requires |img| == |again| == g.size && Closed(g, ts)
    requires forall l: nat :: g.IsMeta(l) ==>
      again[l] == img[l] || again[l] == ApplyAll(g, img, ts)[l] || exists k :: 0 <= k < |ts| && l in ts[k].targets
    ensures SameMeta(g, ApplyAll(g, again, ts), ApplyAll(g, img, ts))
  {
    forall l: nat | g.IsMeta(l) ensures ApplyAll(g, again, ts)[l] == ApplyAll(g, img, ts)[l] {
      if exists k :: 0 <= k < |ts| && l in ts[k].targets {
        ApplyAllPointwise(g, again, img, ts, l);
      } else {
        ApplyAllMiss(g, img, ts, l);
        ApplyAllPointwise(g, again, img, ts, l);
      }
    }
  }

  lemma {:induction false} ApplyAllMiss(g: Geometry, img: Image, ts: seq<Txn>, l: nat)
    requires |img| == g.size && Closed(g, ts) && l < g.size
    requires forall k :: 0 <= k < |ts| ==> l !in ts[k].targets
    ensures ApplyAll(g, img, ts)[l] == img[l]
    decreases |ts|
  {
    if ts != [] {
      ApplyAllMiss(g, Apply(img, ts[0]), ts[1..], l);
    }
  }

  /** None of the superblock writes in flight is the torn one. */
  ghost predicate SupersNotTorn(g: Geometry, D: Image, log: seq<Write>, p: nat, ce: nat, img: Image)
    requires g.Ok() && |D| == |img| == g.size && p <= |log|
  {
    var durable, current := ApplyLog(D, Finished(log[..p], ce)), Current(log[..p], ce);
    !TornAt(durable, current, img, 0) && !TornAt(durable, current, img, g.backup)
  }

  /** The checkpoint found still denotes the same position, or the final one. */
  ghost predicate SamePosition(a: Checkpoint, b: Checkpoint) {
    a.head == b.head && a.seqno == b.seqno
  }

  /** Replay is going to write the first group's header. */
  ghost predicate HeaderPending(g: Geometry, img: Image)
    requires g.Ok() && |img| == g.size && FindSuper(g, img).Some?
  {
    exists k :: 0 <= k < |PendingIn(g, img)| && g.header in PendingIn(g, img)[k].targets
  }

  /** The primary superblock is good, or at least replay leaves the way to the backup alone. */
  ghost predicate Sturdy(g: Geometry, img: Image)
    requires g.Ok() && |img| == g.size && FindSuper(g, img).Some?
  {
    img[0].Super? || !HeaderPending(g, img)
  }

  ghost predicate BothGood(g: Geometry, img: Image)
    requires g.Ok() && |img| == g.size
  {
    img[0].Super? && img[g.backup].Super?
  }

  /**
  Both copies are good, and the header that leads to the second one parses whenever the first one
  is being written: from the start, or at least once replay has put it in place.
  */
  ghost predicate Doubled(g: Geometry, img: Image)
    requires g.Ok() && |img| == g.size && FindSuper(g, img).Some?
  {
    BothGood(g, img) && (HeaderParses(g, img) || (!NeedsHealing(g, img) && HeaderPending(g, img)))
  }

  /** What replay would apply if only the backup were left. */
  ghost function BackupPending(g: Geometry, img: Image): seq<Txn>
    requires g.Ok() && |img| == g.size && BothGood(g, img)
  {
    Pending(g, img, img[g.backup].ckpt.head, img[g.backup].ckpt.seqno)
  }

  /** Some transaction of the list writes l. */
  ghost predicate Writes(ts: seq<Txn>, l: nat) {
    exists k :: 0 <= k < |ts| && l in ts[k].targets
  }

  /** Whatever the list writes to l is what img has there. */
  ghost predicate Rewrites(img: Image, ts: seq<Txn>, l: nat)
    requires l < |img|
  {
    forall k: nat, j: nat :: k < |ts| && j < |ts[k].targets| && j < |ts[k].data| && ts[k].targets[j] == l ==>
      ts[k].data[j] == img[l]
  }

  /**
  Replaying from the backup leads to the same metadata as from the primary: where the backup's list
  writes, it ends with the same contents; elsewhere, if the primary is written while its own list is
  being applied, that list changes nothing.
  */
  ghost predicate BackupServes(g: Geometry, img: Image)
    requires g.Ok() && |img| == g.size && BothGood(g, img) && Openable(g, img)
  {
    var P, Q := PendingIn(g, img), BackupPending(g, img);
    && Closed(g, Q)
    && forall l: nat :: g.IsMeta(l) ==>
         if Writes(Q, l) then ApplyAll(g, img, Q)[l] == ApplyAll(g, img, P)[l]
         else NeedsHealing(g, img) ==> Rewrites(img, P, l)
  }

  /** Why a power failure during the given writes leaves a superblock at the same position to be found. */
  ghost predicate Covered(g: Geometry, img: Image, ws: seq<Write>, cut: Image)
    requires g.Ok() && |img| == |cut| == g.size && FindSuper(g, img).Some?
  {
    || (Sturdy(g, img) && !TornAt(img, ws, cut, 0) && !TornAt(img, ws, cut, g.backup))
    || (img[0].Super? && !TornAt(img, ws, cut, 0))
    || (Doubled(g, img) && cut[g.backup] != img[g.backup])
  }

  /** What a power failure before replay's sync leaves behind. */
  lemma CrashBeforeReplaySync(g: Geometry, img: Image, ws: seq<Write>, cut: Image)
    requires g.Ok() && |img| == |cut| == g.size && Openable(g, img)
    requires var ck, ts := FindSuper(g, img).value, PendingIn(g, img);
      forall i :: 0 <= i < |ws| ==> ws[i] in HealWrites(g, img, 0, ck) + ReplayWrites(0, ts)
    requires CrashImage(img, ws, cut) && Covered(g, img, ws, cut)
    ensures SameJournal(g, cut, img)
    ensures FindSuper(g, cut).Some? && SamePosition(FindSuper(g, cut).value, FindSuper(g, img).value)
    ensures img[0].Super? && !TornAt(img, ws, cut, 0) ==> cut[0].Super?
    ensures forall l: nat :: g.IsMeta(l) ==>
      cut[l] == img[l] || exists k :: 0 <= k < |PendingIn(g, img)| && l in PendingIn(g, img)[k].targets
  {
    hide Pending, ReplayWrites, ApplyLog, HealWrites, Covered, FindSuper;
    forall i | 0 <= i < |ws| ensures EarlyWrite(g, img, ws[i]) {
      EarlyWriteCases(g, img, ws[i]);
    }
    forall l: nat | l < g.size && g.InJournal(l) ensures cut[l] == img[l] {
      assert !Touched(ws, l);
    }
    SuperAfterEarlyCrash(g, img, ws, cut);
  }

  /** What is written before replay's sync: superblock copies while healing, and pending targets. */
  ghost predicate EarlyWrite(g: Geometry, img: Image, w: Write)
    requires g.Ok() && |img| == g.size && FindSuper(g, img).Some?
  {
    && w.loc < g.size && !g.InJournal(w.loc)
    && (!g.IsMeta(w.loc) ==> w in HealWrites(g, img, 0, FindSuper(g, img).value))
    && (g.IsMeta(w.loc) ==> exists k :: 0 <= k < |PendingIn(g, img)| && w.loc in PendingIn(g, img)[k].targets)
    && (w.loc == g.header ==> w.data.Payload?)
  }

  lemma EarlyWriteCases(g: Geometry, img: Image, w: Write)
    requires g.Ok() && |img| == g.size && Openable(g, img)
    requires w in HealWrites(g, img, 0, FindSuper(g, img).value) + ReplayWrites(0, PendingIn(g, img))
    ensures EarlyWrite(g, img, w)
  {
    hide Pending, ReplayWrites;
    var ts := PendingIn(g, img);
    var hw, rw := HealWrites(g, img, 0, FindSuper(g, img).value), ReplayWrites(0, ts);
    ReplayLog(g, img, 0, ts);
    if w !in hw {
      var j :| 0 <= j < |rw| && rw[j] == w;
      var k :| 0 <= k < |ts| && rw[j].loc in ts[k].targets;
      assert ClosedTxn(g, ts[k]);
    }
  }

  lemma SuperAfterEarlyCrash(g: Geometry, img: Image, ws: seq<Write>, cut: Image)
    requires g.Ok() && |img| == |cut| == g.size && FindSuper(g, img).Some?
    requires var ck := FindSuper(g, img).value; forall i :: 0 <= i < |ws| ==>
      && (!g.IsMeta(ws[i].loc) ==> ws[i] in HealWrites(g, img, 0, ck))
      && (ws[i].loc == g.header ==> ws[i].data.Payload? && HeaderPending(g, img))
    requires CrashImage(img, ws, cut) && Covered(g, img, ws, cut)
    ensures FindSuper(g, cut).Some? && SamePosition(FindSuper(g, cut).value, FindSuper(g, img).value)
    ensures img[0].Super? && !TornAt(img, ws, cut, 0) ==> cut[0].Super?
  {
    hide HeaderPending;
    var ck := FindSuper(g, img).value;
    forall l: nat | l == 0 || l == g.backup
      ensures cut[l] == img[l] || TornAt(img, ws, cut, l) || cut[l] == Super(ck.(gen := ck.gen + 1))
      ensures !NeedsHealing(g, img) ==> cut[l] == img[l]
    {
      if Landed(ws, l, cut[l]) {
        var i :| 0 <= i < |ws| && ws[i].loc == l && ws[i].data == cut[l];
        assert !g.IsMeta(ws[i].loc);
      }
    }
    assert cut[g.header] == img[g.header] || TornAt(img, ws, cut, g.header) || cut[g.header].Payload?;
  }

  /** Power fails before replay's sync: replaying again gives the same metadata. */
  lemma RecoverAfterEarlyCrash(g: Geometry, img: Image, ws: seq<Write>, cut: Image)
    requires g.Ok() && |img| == |cut| == g.size && Openable(g, img)
    requires var ck, ts := FindSuper(g, img).value, PendingIn(g, img);
      forall i :: 0 <= i < |ws| ==> ws[i] in HealWrites(g, img, 0, ck) + ReplayWrites(0, ts)
    requires CrashImage(img, ws, cut) && Covered(g, img, ws, cut)
    ensures RecoversTo(g, cut, ApplyAll(g, img, PendingIn(g, img)))
    ensures img[0].Super? && !TornAt(img, ws, cut, 0) ==> cut[0].Super?
    ensures PendingIn(g, cut) == PendingIn(g, img)
  {
    hide Pending, ReplayWrites, CrashImage, SameJournal, HealWrites, TornAt, Covered;
    CrashBeforeReplaySync(g, img, ws, cut);
    var ck, ts := FindSuper(g, img).value, PendingIn(g, img);
    PendingSameJournal(g, cut, img, ck.head, ck.seqno);
    ReplayIsIdempotent(g, img, cut, ts);
  }

  /** The list ends with the same contents at l whatever was there, if it writes there. */
  lemma WrittenAlike(g: Geometry, a: Image, b: Image, ts: seq<Txn>, l: nat)
    requires |a| == |b| == g.size && Closed(g, ts) && l < g.size && Writes(ts, l)
    ensures ApplyAll(g, a, ts)[l] == ApplyAll(g, b, ts)[l]
  {
    ApplyAllPointwise(g, a, b, ts, l);
  }

  /** A list that writes to l only what is there leaves it. */
  lemma {:induction false} RewritesKeep(g: Geometry, img: Image, now: Image, ts: seq<Txn>, l: nat)
    requires |img| == |now| == g.size && Closed(g, ts) && l < g.size && Rewrites(img, ts, l) && now[l] == img[l]
    ensures ApplyAll(g, now, ts)[l] == img[l]
    decreases |ts|
  {
    if ts != [] {
      var t := ts[0];
      assert ClosedTxn(g, t);
      ApplyFirstKeeps(img, now, t, |t.targets|, l);
      assert t.targets[..|t.targets|] == t.targets;
      assert Rewrites(img, ts[1..], l);
      RewritesKeep(g, img, Apply(now, t), ts[1..], l);
    }
  }

  lemma {:induction false} ApplyFirstKeeps(img: Image, now: Image, t: Txn, n: nat, l: nat)
    requires n <= |t.targets| == |t.data| && (forall i :: 0 <= i < n ==> t.targets[i] < |now|) && |img| == |now| && l < |img|
    requires now[l] == img[l] && forall j :: 0 <= j < n && t.targets[j] == l ==> t.data[j] == img[l]
    ensures ApplyFirst(now, t, n)[l] == img[l]
  {
    if n > 0 {
      ApplyFirstKeeps(img, now, t, n - 1, l);
    }
  }

  /** What the writes in flight can leave at a metadata location: what was there, or something pending. */
  lemma EarlyMeta(g: Geometry, img: Image, ws: seq<Write>, cut: Image, l: nat)
    requires g.Ok() && |img| == |cut| == g.size && Openable(g, img) && g.IsMeta(l)
    requires forall i :: 0 <= i < |ws| ==>
      ws[i] in HealWrites(g, img, 0, FindSuper(g, img).value) + ReplayWrites(0, PendingIn(g, img))
    requires CrashImage(img, ws, cut) && TornAt(img, ws, cut, 0) && Rewrites(img, PendingIn(g, img), l)
    ensures cut[l] == img[l]
  {
    hide Pending, ReplayWrites;
    var ts := PendingIn(g, img);
    assert !TornAt(img, ws, cut, l);
    if cut[l] != img[l] {
      var i :| 0 <= i < |ws| && ws[i].loc == l && ws[i].data == cut[l];
      assert ws[i] in ReplayWrites(0, ts);
      forall k | 0 <= k < |ts| ensures |ts[k].targets| == |ts[k].data| { assert ClosedTxn(g, ts[k]); }
      ReplayOnly(0, ts, ws[i]);
    }
  }

  /** The primary was torn while healing and the backup is the old one: replay starts from there. */
  lemma RecoverFromBackup(g: Geometry, img: Image, ws: seq<Write>, cut: Image)
    requires g.Ok() && |img| == |cut| == g.size && Openable(g, img) && Doubled(g, img) && BackupServes(g, img)
    requires forall i :: 0 <= i < |ws| ==>
      ws[i] in HealWrites(g, img, 0, FindSuper(g, img).value) + ReplayWrites(0, PendingIn(g, img))
    requires CrashImage(img, ws, cut) && TornAt(img, ws, cut, 0) && cut[g.backup] == img[g.backup]
    ensures RecoversTo(g, cut, ApplyAll(g, img, PendingIn(g, img)))
  {
    hide Pending, ReplayWrites, CrashImage, SameJournal, HealWrites, ApplyAll, Rewrites, Writes, HeaderPending;
    var P, Q := PendingIn(g, img), BackupPending(g, img);
    TornWhileHealing(g, img, ws, cut);
    PendingSameJournal(g, cut, img, img[g.backup].ckpt.head, img[g.backup].ckpt.seqno);
    forall l: nat | g.IsMeta(l) ensures ApplyAll(g, cut, Q)[l] == ApplyAll(g, img, P)[l] {
      if Writes(Q, l) {
        WrittenAlike(g, cut, img, Q, l);
      } else {
        NotWritten(g, cut, Q, l);
        EarlyMeta(g, img, ws, cut, l);
        RewritesKeep(g, img, img, P, l);
      }
    }
  }

  lemma NotWritten(g: Geometry, img: Image, ts: seq<Txn>, l: nat)
    requires |img| == g.size && Closed(g, ts) && l < g.size && !Writes(ts, l)
    ensures ApplyAll(g, img, ts)[l] == img[l]
  {
    ApplyAllMiss(g, img, ts, l);
  }

  lemma TornWhileHealing(g: Geometry, img: Image, ws: seq<Write>, cut: Image)
    requires g.Ok() && |img| == |cut| == g.size && Openable(g, img) && Doubled(g, img)
    requires forall i :: 0 <= i < |ws| ==>
      ws[i] in HealWrites(g, img, 0, FindSuper(g, img).value) + ReplayWrites(0, PendingIn(g, img))
    requires CrashImage(img, ws, cut) && TornAt(img, ws, cut, 0)
    ensures NeedsHealing(g, img) && SameJournal(g, cut, img) && !cut[0].Super? && HeaderParses(g, cut)
  {
    hide Pending, ReplayWrites, HealWrites;
    forall i | 0 <= i < |ws| ensures EarlyWrite(g, img, ws[i]) {
      EarlyWriteCases(g, img, ws[i]);
    }
    var i :| 0 <= i < |ws| && ws[i].loc == 0;
    HealingMeans(g, img, ws[i]);
    assert !TornAt(img, ws, cut, g.header);
    forall l: nat | l < g.size && g.InJournal(l) ensures cut[l] == img[l] {
      assert !Touched(ws, l);
    }
  }

  lemma HealingMeans(g: Geometry, img: Image, w: Write)
    requires g.Ok() && |img| == g.size && FindSuper(g, img).Some? && w in HealWrites(g, img, 0, FindSuper(g, img).value)
    ensures NeedsHealing(g, img)
  {
  }

  // --- power failures after replay's sync ------------------------------------------------

  lemma {:induction false} FilteredElement(log: seq<Write>, e: nat, w: Write)
    ensures w in Finished(log, e) ==> w in log && w.epoch < e
    ensures w in Current(log, e) ==> w in log && w.epoch == e
  {
    if log != [] {
      FilteredElement(log[..|log| - 1], e, w);
    }
  }

  /** Every location holds its old contents, something the log wrote there, or a torn write. */
  lemma CutValue(D: Image, log: seq<Write>, p: nat, ce: nat, img: Image, l: nat)
    requires CutAt(D, log, p, ce, img) && l < |D|
    ensures img[l] == D[l]
      || (exists w :: w in log && w.loc == l && w.data == img[l])
      || TornAt(ApplyLog(D, Finished(log[..p], ce)), Current(log[..p], ce), img, l)
    ensures (forall i :: 0 <= i < |log| ==> log[i].loc != l) ==> img[l] == D[l]
  {
    var fin, cur := Finished(log[..p], ce), Current(log[..p], ce);
    forall w | w in fin || w in cur ensures w in log {
      FilteredElement(log[..p], ce, w);
      assert w in log[..p];
    }
    AllLanded(D, fin, l);
    if forall i :: 0 <= i < |log| ==> log[i].loc != l {
      forall i | 0 <= i < |fin| ensures fin[i].loc != l {
        assert fin[i] in log;
      }
      forall i | 0 <= i < |cur| ensures cur[i].loc != l {
        assert cur[i] in log;
      }
      ApplyLogMiss(D, fin, l);
    }
  }

  /** Writes at the header leave a header there. */
  lemma {:induction false} HeaderAfterApply(img: Image, t: Txn, n: nat, h: nat)
    requires n <= |t.targets| == |t.data| && h < |img|
    requires forall k :: 0 <= k < n ==> t.targets[k] < |img|
    requires forall k :: 0 <= k < n && t.targets[k] == h ==> t.data[k].Payload?
    ensures img[h].Payload? || h in t.targets[..n] ==> ApplyFirst(img, t, n)[h].Payload?
  {
    if n > 0 {
      HeaderAfterApply(img, t, n - 1, h);
      assert t.targets[..n] == t.targets[..n - 1] + [t.targets[n - 1]];
    }
  }

  lemma {:induction false} HeaderAfterReplay(g: Geometry, img: Image, ts: seq<Txn>)
    requires g.Ok() && |img| == g.size && Closed(g, ts)
    ensures HeaderParses(g, img) || (exists k :: 0 <= k < |ts| && g.header in ts[k].targets) ==>
      HeaderParses(g, ApplyAll(g, img, ts))
    decreases |ts|
  {
    if ts != [] {
      var t := ts[0];
      assert ClosedTxn(g, t);
      assert t.targets[..|t.targets|] == t.targets;
      HeaderAfterApply(img, t, |t.targets|, g.header);
      HeaderAfterReplay(g, Apply(img, t), ts[1..]);
      if k: nat :| 0 < k < |ts| && g.header in ts[k].targets {
        assert g.header in ts[1..][k - 1].targets;
      }
    }
  }

  /** The durable image once replay has synced. */
  ghost predicate Replayed(g: Geometry, img: Image, D: Image)
    requires g.Ok() && |img| == g.size && Openable(g, img)
  {
    var ck, ts := FindSuper(g, img).value, PendingIn(g, img);
    && |D| == g.size && SameJournal(g, D, img) && SameMeta(g, D, ApplyAll(g, img, ts))
    && (forall l: nat :: l == 0 || l == g.backup ==>
          D[l] == if NeedsHealing(g, img) then Super(ck.(gen := ck.gen + 1)) else img[l])
    && (HeaderParses(g, img) || HeaderPending(g, img) ==> HeaderParses(g, D))
  }

  lemma AfterReplaySync(g: Geometry, img: Image)
    requires g.Ok() && |img| == g.size && Openable(g, img)
    ensures Replayed(g, img, ApplyLog(img, HealWrites(g, img, 0, FindSuper(g, img).value) + ReplayWrites(0, PendingIn(g, img))))
  {
    hide Pending, ReplayWrites, ApplyLog, HealWrites, ApplyAll, SameMeta, NeedsHealing;
    var ck, ts := FindSuper(g, img).value, PendingIn(g, img);
    var hw := HealWrites(g, img, 0, ck);
    ApplyLogAppend(img, hw, ReplayWrites(0, ts));
    var H := ApplyLog(img, hw);
    AfterHealing(g, img);
    ReplayLog(g, H, 0, ts);
    ApplyAllKeepsJournal(g, H, ts);
    ApplyAllSameMeta(g, H, img, ts);
    HeaderAfterReplay(g, H, ts);
    forall l: nat | l == 0 || l == g.backup ensures ApplyAll(g, H, ts)[l] == H[l] {
      forall k | 0 <= k < |ts| ensures l !in ts[k].targets {
        assert ClosedTxn(g, ts[k]);
      }
      ApplyAllMiss(g, H, ts, l);
    }
    SameJournalTrans(g, ApplyAll(g, H, ts), H, img);
  }

  lemma AfterHealing(g: Geometry, img: Image)
    requires g.Ok() && |img| == g.size && Openable(g, img)
    ensures var ck := FindSuper(g, img).value;
      var H := ApplyLog(img, HealWrites(g, img, 0, ck));
      && |H| == g.size && SameJournal(g, H, img) && SameJournal(g, img, H) && SameMeta(g, H, img)
      && HeaderParses(g, H) == HeaderParses(g, img)
      && forall l: nat :: l == 0 || l == g.backup ==>
           H[l] == if NeedsHealing(g, img) then Super(ck.(gen := ck.gen + 1)) else img[l]
  {
    var ck := FindSuper(g, img).value;
    if NeedsHealing(g, img) {
      AfterSuperblock(g, img, 0, ck.(gen := ck.gen + 1));
    } else {
      ApplyNothing(img);
    }
  }

  lemma ApplyNothing(img: Image)
    ensures ApplyLog(img, []) == img
  {
  }

  ghost function FinalWrites(g: Geometry, img: Image): seq<Write>
    requires g.Ok() && |img| == g.size && FindSuper(g, img).Some?
  {
    if PendingIn(g, img) == [] then [] else SuperWrites(g, 1, FinalCheckpoint(g, img))
  }

  /** Power fails after replay's sync: the metadata is already final. */
  lemma RecoverAfterLateCrash(g: Geometry, img: Image, D: Image, p: nat, ce: nat, cut: Image)
    requires g.Ok() && |img| == |D| == |cut| == g.size && Openable(g, img) && Replayed(g, img, D)
    requires CutAt(D, FinalWrites(g, img), p, ce, cut)
    requires SupersNotTorn(g, D, FinalWrites(g, img), p, ce, cut) || (HeaderParses(g, D) && (BothGood(g, img) ==> BackupServes(g, img)))
    ensures RecoversTo(g, cut, ApplyAll(g, img, PendingIn(g, img)))
    ensures SupersNotTorn(g, D, FinalWrites(g, img), p, ce, cut) ==> cut[0].Super?
  {
    hide Pending, ApplyLog, Finished, Current, TornAt, ApplyAll, CheckpointAfter, HeaderPending;
    var ck, ts, end := FindSuper(g, img).value, PendingIn(g, img), FinalCheckpoint(g, img);
    var sw := FinalWrites(g, img);
    var durable, current := ApplyLog(D, Finished(sw[..p], ce)), Current(sw[..p], ce);
    forall l: nat | l < g.size
      ensures g.IsMeta(l) || g.InJournal(l) ==> cut[l] == D[l]
      ensures l == 0 || l == g.backup ==> cut[l] == D[l] || cut[l] == Super(end) || TornAt(durable, current, cut, l)
    {
      CutValue(D, sw, p, ce, cut, l);
    }
    assert !(TornAt(durable, current, cut, 0) && TornAt(durable, current, cut, g.backup));
    LateSuper(g, img, D, durable, current, cut);
    assert SameJournal(g, cut, D);
    SameJournalTrans(g, cut, D, img);
    var c := FindSuper(g, cut).value;
    PendingSameJournal(g, cut, img, c.head, c.seqno);
    if SamePosition(c, ck) {
      ReplayIsIdempotent(g, img, cut, ts);
    } else if !SamePosition(c, end) {
      LateFromBackup(g, img, D, cut);
    } else {
      NothingAfterEnd(g, img, ck.head, ck.seqno);
      AppliedNothing(g, cut);
    }
  }

  lemma LateSuper(g: Geometry, img: Image, D: Image, durable: Image, ws: seq<Write>, cut: Image)
    requires g.Ok() && |img| == |D| == |durable| == |cut| == g.size && Openable(g, img) && Replayed(g, img, D)
    requires cut[g.header] == D[g.header]
    requires forall l: nat :: l == 0 || l == g.backup ==>
      cut[l] == D[l] || cut[l] == Super(FinalCheckpoint(g, img)) || TornAt(durable, ws, cut, l)
    requires !(TornAt(durable, ws, cut, 0) && TornAt(durable, ws, cut, g.backup))
    requires !TornAt(durable, ws, cut, 0) || HeaderParses(g, D)
    ensures FindSuper(g, cut).Some? && (!TornAt(durable, ws, cut, 0) ==> cut[0].Super?)
    ensures var c := FindSuper(g, cut).value;
      || SamePosition(c, FindSuper(g, img).value) || SamePosition(c, FinalCheckpoint(g, img))
      || (TornAt(durable, ws, cut, 0) && BothGood(g, img) && c == img[g.backup].ckpt)
  {
    hide Pending, SameMeta, SameJournal, HeaderPending, CheckpointAfter;
  }

  /** All that was pending is in place; replaying the backup's list over it ends the same way. */
  lemma LateFromBackup(g: Geometry, img: Image, D: Image, cut: Image)
    requires g.Ok() && |img| == |D| == |cut| == g.size && Openable(g, img) && Replayed(g, img, D)
    requires BothGood(g, img) && BackupServes(g, img) && SameJournal(g, cut, img) && SameMeta(g, cut, D)
    requires FindSuper(g, cut) == Some(img[g.backup].ckpt)
    ensures RecoversTo(g, cut, ApplyAll(g, img, PendingIn(g, img)))
  {
    hide Pending, SameJournal, ApplyAll, Rewrites, Writes, HeaderPending, NeedsHealing;
    var P, Q := PendingIn(g, img), BackupPending(g, img);
    PendingSameJournal(g, cut, img, img[g.backup].ckpt.head, img[g.backup].ckpt.seqno);
    forall l: nat | g.IsMeta(l) ensures ApplyAll(g, cut, Q)[l] == ApplyAll(g, img, P)[l] {
      if Writes(Q, l) {
        WrittenAlike(g, cut, img, Q, l);
      } else {
        NotWritten(g, cut, Q, l);
      }
    }
  }

  lemma AppliedNothing(g: Geometry, img: Image)
    requires |img| == g.size
    ensures ApplyAll(g, img, []) == img
  {
  }

  // --- when an open survives every power failure ---------------------------------------------

  /** The log of an open: one epoch of healing and replay, then the final superblock writes. */
  lemma OpenLogParts(g: Geometry, img: Image) returns (x: seq<Write>)
    requires g.Ok() && |img| == g.size && Openable(g, img)
    ensures x == HealWrites(g, img, 0, FindSuper(g, img).value) + ReplayWrites(0, PendingIn(g, img))
    ensures OpenLog(g, img, 0) == x + FinalWrites(g, img)
    ensures AllAt(x, 0) && NotBefore(FinalWrites(g, img), 1)
  {
    hide Pending, ReplayWrites, CheckpointAfter;
    var ck, ts := FindSuper(g, img).value, PendingIn(g, img);
    x := HealWrites(g, img, 0, ck) + ReplayWrites(0, ts);
    ReplayLog(g, img, 0, ts);
  }

  /**
  Power may fail anywhere inside a writable open. If no superblock write is torn and the volume is
  sturdy, or if both copies are good and the backup can be reached and serves, the next open finds a
  superblock and restores the same metadata.
  */
  lemma CrashDuringOpen(g: Geometry, img: Image, p: nat, ce: nat, cut: Image)
    requires g.Ok() && |img| == |cut| == g.size && Openable(g, img)
    requires CutAt(img, OpenLog(g, img, 0), p, ce, cut)
    requires (Sturdy(g, img) && SupersNotTorn(g, img, OpenLog(g, img, 0), p, ce, cut))
             || (Doubled(g, img) && BackupServes(g, img))
    ensures RecoversTo(g, cut, ApplyAll(g, img, PendingIn(g, img)))
    ensures SupersNotTorn(g, img, OpenLog(g, img, 0), p, ce, cut) && Sturdy(g, img) ==> Sturdy(g, cut)
  {
    hide Pending, ApplyLog, TornAt, ApplyAll, CheckpointAfter, ReplayWrites, CrashImage, HealWrites, FinalWrites, Finished,
      Current, OpenLog, Replayed, HeaderParses, NeedsHealing;
    var x := OpenLogParts(g, img);
    var sw := FinalWrites(g, img);
    if ce == 0 {
      EarlyCut(g, img, x, sw, p, cut);
      forall i | 0 <= i < p ensures x[..p][i] in x {
        assert x[..p][i] == x[i];
      }
      if Covered(g, img, x[..p], cut) {
        RecoverAfterEarlyCrash(g, img, x[..p], cut);
      } else {
        RecoverFromBackup(g, img, x[..p], cut);
      }
    } else {
      LateCut(g, img, x, sw, p, ce, cut);
      AfterReplaySync(g, img);
      DoubledLate(g, img, ApplyLog(img, x));
      RecoverAfterLateCrash(g, img, ApplyLog(img, x), p - |x|, ce, cut);
    }
  }

  lemma DoubledLate(g: Geometry, img: Image, D: Image)
    requires g.Ok() && |img| == g.size && Openable(g, img) && Replayed(g, img, D)
    ensures Doubled(g, img) ==> HeaderParses(g, D)
  {
  }

  lemma EarlyCut(g: Geometry, D: Image, x: seq<Write>, rest: seq<Write>, p: nat, img: Image)
    requires g.Ok() && |D| == |img| == g.size && AllAt(x, 0) && NotBefore(rest, 1)
    requires CutAt(D, x + rest, p, 0, img)
    ensures p <= |x| && CrashImage(D, x[..p], img)
    ensures SupersNotTorn(g, D, x + rest, p, 0, img) ==> !TornAt(D, x[..p], img, 0) && !TornAt(D, x[..p], img, g.backup)
  {
    hide TornAt, CrashImage;
    CutHere(D, x, rest, p, 0, img);
    assert (x + rest)[..p] == x[..p];
    FilterAt(x[..p], 0);
    ApplyNothing(D);
  }

  lemma LateCut(g: Geometry, D: Image, x: seq<Write>, rest: seq<Write>, p: nat, ce: nat, img: Image)
    requires g.Ok() && |D| == |img| == g.size && AllBefore(x, ce)
    requires CutAt(D, x + rest, p, ce, img)
    ensures p >= |x| && |ApplyLog(D, x)| == g.size && CutAt(ApplyLog(D, x), rest, p - |x|, ce, img)
    ensures SupersNotTorn(g, D, x + rest, p, ce, img) ==> SupersNotTorn(g, ApplyLog(D, x), rest, p - |x|, ce, img)
  {
    hide TornAt, CrashImage;
    CutAfter(D, x, rest, p, ce, img);
    var q := p - |x|;
    assert (x + rest)[..p] == x + rest[..q];
    FinishedAppend(x, rest[..q], ce);
    CurrentAppend(x, rest[..q], ce);
    FilterBefore(x, ce);
    assert [] + Current(rest[..q], ce) == Current(rest[..q], ce);
    ApplyLogAppend(D, x, Finished(rest[..q], ce));
  }

  /** Of all writes in flight, one is torn and nothing else lands. */
  lemma OneTear(D: Image, ws: seq<Write>, l: nat) returns (cut: Image)
    requires l < |D| && !D[l].Garbage? && Touched(ws, l)
    requires forall i :: 0 <= i < |ws| && ws[i].loc == l ==> !ws[i].data.Garbage?
    ensures cut == D[l := Garbage(0)] && CrashImage(D, ws, cut)
    ensures forall k: nat :: k < |D| && k != l ==> !TornAt(D, ws, cut, k)
  {
    cut := D[l := Garbage(0)];
  }

  lemma CutBeforeSync(g: Geometry, D: Image, x: seq<Write>, rest: seq<Write>, cut: Image)
    requires g.Ok() && |D| == |cut| == g.size && AllAt(x, 0) && NotBefore(rest, 1) && CrashImage(D, x, cut)
    ensures CutAt(D, x + rest, |x|, 0, cut)
    ensures !TornAt(D, x, cut, 0) && !TornAt(D, x, cut, g.backup) ==> SupersNotTorn(g, D, x + rest, |x|, 0, cut)
  {
    hide TornAt, CrashImage;
    assert (x + rest)[..|x|] == x;
    FilterAt(x, 0);
    ApplyNothing(D);
  }

  lemma CutAfterSync(D: Image, x: seq<Write>, rest: seq<Write>, cut: Image)
    requires AllAt(x, 0) && AllAt(rest, 1) && CrashImage(ApplyLog(D, x), rest, cut)
    ensures CutAt(D, x + rest, |x + rest|, 1, cut)
  {
    hide TornAt, CrashImage;
    assert (x + rest)[..|x + rest|] == x + rest;
    FinishedAppend(x, rest, 1);
    CurrentAppend(x, rest, 1);
    FilterBefore(x, 1);
    FilterAt(rest, 1);
    assert x + [] == x && [] + rest == rest;
  }


  lemma NoSuperNoRecovery(g: Geometry, img: Image, m: Image)
    requires g.Ok() && |img| == |m| == g.size && FindSuper(g, img).None?
    ensures !RecoversTo(g, img, m)
  {
  }

  /** A torn header closes the way to the backup while the primary is still damaged. */
  lemma TornHeader(g: Geometry, img: Image) returns (p: nat, cut: Image)
    requires g.Ok() && |img| == g.size && Openable(g, img) && !Sturdy(g, img)
    ensures |cut| == g.size && CutAt(img, OpenLog(g, img, 0), p, 0, cut) && SupersNotTorn(g, img, OpenLog(g, img, 0), p, 0, cut)
    ensures FindSuper(g, cut).None?
  {
    hide Pending, ApplyLog, CheckpointAfter, ReplayWrites, OpenLog, CrashImage, FinalWrites;
    var x := OpenLogParts(g, img);
    var ts := PendingIn(g, img);
    var hw, rw := HealWrites(g, img, 0, FindSuper(g, img).value), ReplayWrites(0, ts);
    ReplayLog(g, img, 0, ts);
    var k :| 0 <= k < |ts| && g.header in ts[k].targets;
    forall i | 0 <= i < |ts| ensures |ts[i].targets| == |ts[i].data| { assert ClosedTxn(g, ts[i]); }
    var j :| 0 <= j < |ts[k].targets| && ts[k].targets[j] == g.header;
    ReplayHas(0, ts, k, j);
    var i :| 0 <= i < |rw| && rw[i].loc == g.header;
    assert x[|hw| + i].loc == g.header;
    cut := OneTear(img, x, g.header);
    CutBeforeSync(g, img, x, FinalWrites(g, img), cut);
    p := |x|;
  }

  /**
  As long as no superblock write is torn, an open survives every power failure exactly when the
  primary copy is good or no pending transaction writes the first group's header.
  */
  lemma OpenSurvivesExactlyWhen(g: Geometry, img: Image)
    requires g.Ok() && |img| == g.size && Openable(g, img)
    ensures (forall p: nat, ce: nat, cut: Image ::
               |cut| == g.size && CutAt(img, OpenLog(g, img, 0), p, ce, cut)
               && SupersNotTorn(g, img, OpenLog(g, img, 0), p, ce, cut) ==>
               RecoversTo(g, cut, ApplyAll(g, img, PendingIn(g, img))))
            <==> Sturdy(g, img)
  {
    hide CrashImage, ApplyLog, Finished, Current, SupersNotTorn, RecoversTo, ApplyAll, PendingIn, OpenLog, Sturdy, FindSuper;
    if Sturdy(g, img) {
      forall p: nat, ce: nat, cut: Image
        | |cut| == g.size && CutAt(img, OpenLog(g, img, 0), p, ce, cut)
          && SupersNotTorn(g, img, OpenLog(g, img, 0), p, ce, cut)
        ensures RecoversTo(g, cut, ApplyAll(g, img, PendingIn(g, img)))
      {
        CrashDuringOpen(g, img, p, ce, cut);
      }
    } else {
      var p, cut := TornHeader(g, img);
      NoSuperNoRecovery(g, cut, ApplyAll(g, img, PendingIn(g, img)));
    }
  }

  /** One torn superblock write is enough when there is no second copy to be found. */
  lemma TornSuper(g: Geometry, img: Image) returns (p: nat, ce: nat, cut: Image)
    requires g.Ok() && |img| == g.size && Openable(g, img) && !Doubled(g, img) && OpenLog(g, img, 0) != []
    ensures |cut| == g.size && CutAt(img, OpenLog(g, img, 0), p, ce, cut) && FindSuper(g, cut).None?
  {
    hide Pending, ApplyLog, CheckpointAfter, ReplayWrites, OpenLog, CrashImage, ApplyAll;
    var x := OpenLogParts(g, img);
    var ts, sw := PendingIn(g, img), FinalWrites(g, img);
    ReplayLog(g, img, 0, ts);
    forall i | 0 <= i < |ReplayWrites(0, ts)| ensures g.IsMeta(ReplayWrites(0, ts)[i].loc) {
      var k :| 0 <= k < |ts| && ReplayWrites(0, ts)[i].loc in ts[k].targets;
      assert ClosedTxn(g, ts[k]);
    }
    if NeedsHealing(g, img) {
      assert x[0].loc == 0 && x[1].loc == g.backup;
      cut := OneTear(img, x, if img[0].Super? then 0 else g.backup);
      CutBeforeSync(g, img, x, sw, cut);
      p, ce := |x|, 0;
    } else {
      NothingToWrite(g, img);
      var D := ApplyLog(img, x);
      AfterReplaySync(g, img);
      ApplyAllMiss(g, img, ts, g.header);
      assert sw[0].loc == 0;
      cut := OneTear(D, sw, 0);
      CutAfterSync(img, x, sw, cut);
      p, ce := |x + sw|, 1;
    }
  }

  lemma NothingToWrite(g: Geometry, img: Image)
    requires g.Ok() && |img| == g.size && Openable(g, img)
    ensures PendingIn(g, img) == [] && !NeedsHealing(g, img) ==> OpenLog(g, img, 0) == []
  {
  }

  /** A torn primary sends the next open to a backup that does not serve. */
  lemma TornToBackup(g: Geometry, img: Image) returns (p: nat, ce: nat, cut: Image)
    requires g.Ok() && |img| == g.size && Openable(g, img) && Doubled(g, img) && !BackupServes(g, img)
    requires OpenLog(g, img, 0) != []
    ensures |cut| == g.size && CutAt(img, OpenLog(g, img, 0), p, ce, cut)
    ensures FindSuper(g, cut).Some? && !RecoversTo(g, cut, ApplyAll(g, img, PendingIn(g, img)))
  {
    hide CutAt, OpenLog, Pending, ApplyAll, CheckpointAfter, ReplayWrites, CrashImage, FinalWrites, RecoversTo, ApplyLog;
    var x := OpenLogParts(g, img);
    if NeedsHealing(g, img) {
      cut := TornHealing(g, img, x);
      CutBeforeSync(g, img, x, FinalWrites(g, img), cut);
      p, ce := |x|, 0;
    } else {
      NothingToWrite(g, img);
      cut := TornFinal(g, img, x);
      FinalAtOne(g, img);
      CutAfterSync(img, x, FinalWrites(g, img), cut);
      p, ce := |x + FinalWrites(g, img)|, 1;
    }
  }

  lemma FinalAtOne(g: Geometry, img: Image)
    requires g.Ok() && |img| == g.size && FindSuper(g, img).Some?
    ensures AllAt(FinalWrites(g, img), 1)
  {
    hide Pending, CheckpointAfter;
  }

  /** A location where the backup's list goes wrong. */
  lemma WrongAt(g: Geometry, img: Image) returns (l: nat)
    requires g.Ok() && |img| == g.size && Openable(g, img) && BothGood(g, img) && !BackupServes(g, img)
    requires Closed(g, BackupPending(g, img))
    ensures g.IsMeta(l) && var P, Q := PendingIn(g, img), BackupPending(g, img);
      if Writes(Q, l) then ApplyAll(g, img, Q)[l] != ApplyAll(g, img, P)[l]
      else NeedsHealing(g, img) && !Rewrites(img, P, l)
  {
    hide Pending, Writes, Rewrites, ApplyAll, NeedsHealing;
    var P, Q := PendingIn(g, img), BackupPending(g, img);
    l :| g.IsMeta(l) && !(if Writes(Q, l) then ApplyAll(g, img, Q)[l] == ApplyAll(g, img, P)[l]
                          else NeedsHealing(g, img) ==> Rewrites(img, P, l));
  }

  /** Two contents of l, one of them wrong: a pending one can have landed or not. */
  lemma OtherContents(img: Image, ts: seq<Txn>, l: nat, want: Block) returns (landed: bool, k: nat, j: nat)
    requires l < |img| && !Rewrites(img, ts, l)
    ensures k < |ts| && j < |ts[k].targets| && j < |ts[k].data| && ts[k].targets[j] == l
    ensures want != if landed then ts[k].data[j] else img[l]
  {
    k, j :| k < |ts| && j < |ts[k].targets| && j < |ts[k].data| && ts[k].targets[j] == l && ts[k].data[j] != img[l];
    landed := want == img[l];
  }

  lemma TornHealing(g: Geometry, img: Image, x: seq<Write>) returns (cut: Image)
    requires g.Ok() && |img| == g.size && Openable(g, img) && Doubled(g, img) && !BackupServes(g, img) && NeedsHealing(g, img)
    requires x == HealWrites(g, img, 0, FindSuper(g, img).value) + ReplayWrites(0, PendingIn(g, img))
    ensures |cut| == g.size && CrashImage(img, x, cut)
    ensures FindSuper(g, cut).Some? && !RecoversTo(g, cut, ApplyAll(g, img, PendingIn(g, img)))
  {
    hide Pending, ReplayWrites, ApplyAll, Rewrites, Writes, BackupServes, HeaderPending, RecoversTo;
    var P, Q := PendingIn(g, img), BackupPending(g, img);
    cut := img[0 := Garbage(0)];
    var l: nat := g.header;
    if Closed(g, Q) {
      l := WrongAt(g, img);
      if !Writes(Q, l) {
        var landed, k, j := OtherContents(img, P, l, ApplyAll(g, img, P)[l]);
        if landed {
          cut := cut[l := P[k].data[j]];
          assert ClosedTxn(g, P[k]);
          PendingLands(g, img, x, k, j);
        }
      }
    }
    PrimaryTorn(g, img, x, cut, l);
    BackupGoesWrong(g, img, cut, l);
  }

  lemma PendingLands(g: Geometry, img: Image, x: seq<Write>, k: nat, j: nat)
    requires g.Ok() && |img| == g.size && Openable(g, img)
    requires x == HealWrites(g, img, 0, FindSuper(g, img).value) + ReplayWrites(0, PendingIn(g, img))
    requires k < |PendingIn(g, img)| && j < |PendingIn(g, img)[k].targets|
    ensures |PendingIn(g, img)[k].targets| == |PendingIn(g, img)[k].data|
    ensures Landed(x, PendingIn(g, img)[k].targets[j], PendingIn(g, img)[k].data[j])
  {
    hide Pending, ReplayWrites;
    var ts := PendingIn(g, img);
    forall i | 0 <= i < |ts| ensures |ts[i].targets| == |ts[i].data| { assert ClosedTxn(g, ts[i]); }
    ReplayHas(0, ts, k, j);
    assert Write(0, ts[k].targets[j], ts[k].data[j]) in x;
  }

  /** Nothing but the torn primary and perhaps one pending write. */
  lemma PrimaryTorn(g: Geometry, img: Image, x: seq<Write>, cut: Image, l: nat)
    requires g.Ok() && |img| == |cut| == g.size && Openable(g, img) && Doubled(g, img) && NeedsHealing(g, img)
    requires x == HealWrites(g, img, 0, FindSuper(g, img).value) + ReplayWrites(0, PendingIn(g, img))
    requires g.IsMeta(l) && cut == img[0 := Garbage(0)][l := cut[l]]
    requires cut[l] == img[l] || (Landed(x, l, cut[l]) && (l == g.header ==> cut[l].Payload?))
    ensures CrashImage(img, x, cut) && FindSuper(g, cut) == Some(img[g.backup].ckpt) && SameJournal(g, cut, img)
  {
    hide Pending, ReplayWrites, HeaderPending;
    assert x[0].loc == 0;
    forall i | 0 <= i < |x| && x[i].loc == 0 ensures !x[i].data.Garbage? {
      EarlyWriteCases(g, img, x[i]);
    }
    assert TornAt(img, x, cut, 0);
    forall i | g.start <= i < g.start + g.length ensures cut[i] == img[i] {
      assert g.InJournal(i);
    }
  }

  lemma BackupGoesWrong(g: Geometry, img: Image, cut: Image, l: nat)
    requires g.Ok() && |img| == |cut| == g.size && Openable(g, img) && BothGood(g, img) && g.IsMeta(l)
    requires FindSuper(g, cut) == Some(img[g.backup].ckpt) && SameJournal(g, cut, img)
    requires var P, Q := PendingIn(g, img), BackupPending(g, img);
      Closed(g, Q) ==> if Writes(Q, l) then ApplyAll(g, img, Q)[l] != ApplyAll(g, img, P)[l]
                       else cut[l] != ApplyAll(g, img, P)[l]
    ensures !RecoversTo(g, cut, ApplyAll(g, img, PendingIn(g, img)))
  {
    hide Pending, ApplyAll, Writes, SameJournal;
    var P, Q := PendingIn(g, img), BackupPending(g, img);
    PendingSameJournal(g, cut, img, img[g.backup].ckpt.head, img[g.backup].ckpt.seqno);
    if Closed(g, Q) {
      if Writes(Q, l) {
        WrittenAlike(g, cut, img, Q, l);
      } else {
        NotWritten(g, cut, Q, l);
      }
    }
  }

  lemma TornFinal(g: Geometry, img: Image, x: seq<Write>) returns (cut: Image)
    requires g.Ok() && |img| == g.size && Openable(g, img) && Doubled(g, img) && !BackupServes(g, img)
    requires !NeedsHealing(g, img) && PendingIn(g, img) != []
    requires x == HealWrites(g, img, 0, FindSuper(g, img).value) + ReplayWrites(0, PendingIn(g, img))
    ensures |cut| == g.size && CrashImage(ApplyLog(img, x), FinalWrites(g, img), cut)
    ensures FindSuper(g, cut).Some? && !RecoversTo(g, cut, ApplyAll(g, img, PendingIn(g, img)))
  {
    hide Pending, ReplayWrites, ApplyAll, Rewrites, Writes, BackupServes, HeaderPending, RecoversTo, ApplyLog, CheckpointAfter, CrashImage, SameMeta;
    var D, sw := ApplyLog(img, x), FinalWrites(g, img);
    AfterReplaySync(g, img);
    DoubledLate(g, img, D);
    assert sw[0].loc == 0;
    cut := OneTear(D, sw, 0);
    SameJournalExcept(g, img, D, cut);
    var l: nat := g.header;
    if Closed(g, BackupPending(g, img)) {
      l := WrongAt(g, img);
    }
    BackupGoesWrong(g, img, cut, l);
  }

  lemma SameJournalExcept(g: Geometry, img: Image, D: Image, cut: Image)
    requires g.Ok() && |img| == |D| == g.size && SameJournal(g, D, img) && cut == D[0 := Garbage(0)]
    ensures SameJournal(g, cut, img)
  {
    forall i | g.start <= i < g.start + g.length ensures cut[i] == D[i] {
      assert g.InJournal(i);
    }
  }

  /**
  With any one write torn, superblocks included: an open survives every power failure exactly when it
  writes nothing, or starts from two good copies of which the second can be reached whenever the first
  is being written, and serves as well as the first.
  */
  lemma OpenSurvivesAnyTearExactlyWhen(g: Geometry, img: Image)
    requires g.Ok() && |img| == g.size && Openable(g, img)
    ensures (forall p: nat, ce: nat, cut: Image ::
               |cut| == g.size && CutAt(img, OpenLog(g, img, 0), p, ce, cut) ==>
               RecoversTo(g, cut, ApplyAll(g, img, PendingIn(g, img))))
            <==> OpenLog(g, img, 0) == [] || (Doubled(g, img) && BackupServes(g, img))
  {
    hide CutAt, RecoversTo, ApplyAll, PendingIn, OpenLog, FindSuper, BackupServes, HeaderPending, BothGood;
    if OpenLog(g, img, 0) == [] || (Doubled(g, img) && BackupServes(g, img)) {
      forall p: nat, ce: nat, cut: Image | |cut| == g.size && CutAt(img, OpenLog(g, img, 0), p, ce, cut)
        ensures RecoversTo(g, cut, ApplyAll(g, img, PendingIn(g, img)))
      {
        if OpenLog(g, img, 0) == [] {
          NothingTorn(g, img, p, ce, cut);
        }
        CrashDuringOpen(g, img, p, ce, cut);
      }
    } else if !Doubled(g, img) {
      var p, ce, cut := TornSuper(g, img);
      NoSuperNoRecovery(g, cut, ApplyAll(g, img, PendingIn(g, img)));
    } else {
      var p, ce, cut := TornToBackup(g, img);
    }
  }

  lemma NothingTorn(g: Geometry, img: Image, p: nat, ce: nat, cut: Image)
    requires g.Ok() && |img| == |cut| == g.size && Openable(g, img) && OpenLog(g, img, 0) == []
    requires CutAt(img, [], p, ce, cut)
    ensures SupersNotTorn(g, img, [], p, ce, cut) && Sturdy(g, img)
  {
    hide Pending, CheckpointAfter, ReplayWrites;
  }

  /** A sequence of opens, each cut short by a power failure that leaves the next image behind. */
  ghost predicate CrashChain(g: Geometry, imgs: seq<Image>, cuts: seq<(nat, nat)>)
    requires g.Ok()
  {
    && |imgs| == |cuts| + 1
    && (forall i :: 0 <= i < |imgs| ==> |imgs[i]| == g.size)
    && forall i :: 0 <= i < |cuts| && Openable(g, imgs[i]) ==>
         var log := OpenLog(g, imgs[i], 0);
         CutAt(imgs[i], log, cuts[i].0, cuts[i].1, imgs[i + 1])
         && SupersNotTorn(g, imgs[i], log, cuts[i].0, cuts[i].1, imgs[i + 1])
  }

  /** However often recovery itself is cut short, a sturdy volume ends with the same metadata. */
  lemma {:induction false} RepeatedCrashes(g: Geometry, imgs: seq<Image>, cuts: seq<(nat, nat)>, m: Image)
    requires g.Ok() && |m| == g.size && CrashChain(g, imgs, cuts)
    requires RecoversTo(g, imgs[0], m) && Sturdy(g, imgs[0])
    ensures RecoversTo(g, imgs[|cuts|], m)
    decreases |cuts|
  {
    hide CutAt, SupersNotTorn, Pending, OpenLog, ApplyAll, Sturdy;
    if |cuts| > 0 {
      CrashDuringOpen(g, imgs[0], cuts[0].0, cuts[0].1, imgs[1]);
      RecoversToSame(g, imgs[1], ApplyAll(g, imgs[0], PendingIn(g, imgs[0])), m);
      RepeatedCrashes(g, imgs[1..], cuts[1..], m);
    }
  }

  /** Sturdiness at the start is also needed: it alone decides whether every chain of cut opens ends well. */
  lemma RepeatedCrashesExactlyWhen(g: Geometry, img: Image, m: Image)
    requires g.Ok() && |img| == |m| == g.size && RecoversTo(g, img, m)
    ensures (forall imgs: seq<Image>, cuts: seq<(nat, nat)> ::
               CrashChain(g, imgs, cuts) && imgs[0] == img ==> RecoversTo(g, imgs[|cuts|], m))
            <==> Sturdy(g, img)
  {
    hide CutAt, SupersNotTorn, Pending, OpenLog, ApplyAll, Sturdy;
    if Sturdy(g, img) {
      forall imgs: seq<Image>, cuts: seq<(nat, nat)> | CrashChain(g, imgs, cuts) && imgs[0] == img
        ensures RecoversTo(g, imgs[|cuts|], m)
      {
        RepeatedCrashes(g, imgs, cuts, m);
      }
    } else {
      var p, cut := TornHeader(g, img);
      var imgs, cuts := [img, cut], [(p, 0)];
      assert CrashChain(g, imgs, cuts) && imgs[|cuts|] == cut;
    }
  }

  /**
  A volume that is not sturdy is one power failure away: a commit that writes the first group's header,
  cut while the primary superblock is being written. A second one during the next open loses the volume.
  */
  lemma TwoFailuresLose(g: Geometry, base: Image, ck: Checkpoint, t: Txn)
    returns (p: nat, img: Image, q: nat, cut: Image)
    requires g.Ok() && Ready(g, base, NoCommitYet, ck) && t.Ok(g) && t.Fits(g) && g.header in t.targets
    ensures |img| == |cut| == g.size && TxnsOk(g, [t]) && CutAt(base, RunLog(g, ck, 0, [t]), p, 2, img)
    ensures Openable(g, img) && CutAt(img, OpenLog(g, img, 0), q, 0, cut) && FindSuper(g, cut).None?
  {
    hide CutAt, OpenLog, Pending;
    var A;
    p, A, img := TornCheckpoint(g, base, ck, t);
    PendingSameJournal(g, img, A, ck.head, ck.seqno);
    assert [t][0] == t && ClosedTxn(g, t);
    assert Openable(g, img);
    q, cut := TornHeader(g, img);
  }

  lemma TornCheckpoint(g: Geometry, base: Image, ck: Checkpoint, t: Txn) returns (p: nat, A: Image, img: Image)
    requires g.Ok() && Ready(g, base, NoCommitYet, ck) && t.Ok(g) && t.Fits(g)
    ensures |img| == g.size && TxnsOk(g, [t]) && CutAt(base, RunLog(g, ck, 0, [t]), p, 2, img)
    ensures |A| == g.size && img == A[0 := Garbage(0)] && A[g.backup] == Super(ck) && HeaderParses(g, A)
    ensures SameJournal(g, img, A) && Pending(g, A, ck.head, ck.seqno) == [t]
  {
    hide CutAt, RunLog, Pending, CrashImage, SuperWrites;
    A := CheckpointPending(g, base, ck, t);
    var sw := SuperWrites(g, 2, NextCheckpoint(g, ck, t));
    assert sw[0].loc == 0 && (forall i :: 0 <= i < |sw| ==> sw[i].data.Super?) by { WhatSupersAre(g, 2, NextCheckpoint(g, ck, t)); }
    img := OneTear(A, sw, 0);
    p := CutWhileSuper(g, base, ck, t, A, img);
  }

  lemma WhatSupersAre(g: Geometry, e: nat, ck: Checkpoint)
    ensures var sw := SuperWrites(g, e, ck); |sw| == 2 && sw[0].loc == 0 && forall i :: 0 <= i < |sw| ==> sw[i].data.Super?
  {
  }

  /** Journal and in-place writes are durable, the superblock still points at the transaction. */
  lemma CheckpointPending(g: Geometry, base: Image, ck: Checkpoint, t: Txn) returns (A: Image)
    requires g.Ok() && Ready(g, base, NoCommitYet, ck) && t.Ok(g) && t.Fits(g)
    ensures A == ApplyLog(base, JournalWrites(g, ck, 0, t) + InPlaceWrites(1, t))
    ensures |A| == g.size && A[0] == A[g.backup] == Super(ck) && HeaderParses(g, A)
    ensures Pending(g, A, ck.head, ck.seqno) == [t]
  {
    hide ApplyLog, JournalWrites, InPlaceWrites, Pending, TryRead, OnlyCommit, NoCommitFrom, Apply, Journaled;
    var jw, aw := JournalWrites(g, ck, 0, t), InPlaceWrites(1, t);
    assert Unsynced(g, NoCommitYet, 0, ck) + jw == jw;
    AfterFirstSync(g, base, NoCommitYet, ck, 0, t);
    var J := ApplyLog(base, jw);
    JournaledIsPending(g, base, J, ck, t);
    AfterSecondSync(g, base, J, ck, 1, t);
    A := ApplyLog(J, aw);
    JournalKept(g, J, 1, t);
    PendingSameJournal(g, A, J, ck.head, ck.seqno);
    ApplyLogAppend(base, jw, aw);
  }

  lemma CutWhileSuper(g: Geometry, base: Image, ck: Checkpoint, t: Txn, A: Image, img: Image) returns (p: nat)
    requires g.Ok() && |base| == |img| == g.size && t.Ok(g) && t.Fits(g)
    requires A == ApplyLog(base, JournalWrites(g, ck, 0, t) + InPlaceWrites(1, t))
    requires CrashImage(A, SuperWrites(g, 2, NextCheckpoint(g, ck, t)), img)
    ensures TxnsOk(g, [t]) && CutAt(base, RunLog(g, ck, 0, [t]), p, 2, img)
  {
    hide ApplyLog, JournalWrites, InPlaceWrites, CrashImage;
    var x, sw := JournalWrites(g, ck, 0, t) + InPlaceWrites(1, t), SuperWrites(g, 2, NextCheckpoint(g, ck, t));
    var log := x + sw;
    assert RunLog(g, ck, 0, [t]) == log + RunLog(g, NextCheckpoint(g, ck, t), 2, [t][1..]);
    assert RunLog(g, ck, 0, [t]) == log;
    JournalWritesAt(g, ck, 0, t);
    JournalWritesAt(g, ck, 1, t);
    p := |log|;
    assert log[..p] == log;
    FinishedAppend(x, sw, 2);
    CurrentAppend(x, sw, 2);
    FilterBefore(x, 2);
    FilterAt(sw, 2);
    assert x + [] == x && [] + sw == sw;
  }

  lemma JournalKept(g: Geometry, J: Image, e: nat, t: Txn)
    requires g.Ok() && |J| == g.size && t.Ok(g)
    ensures SameJournal(g, ApplyLog(J, InPlaceWrites(e, t)), J)
  {
    AfterInPlaceWrites(g, J, e, t);
    forall l | g.start <= l < g.start + g.length ensures ApplyLog(J, InPlaceWrites(e, t))[l] == J[l] {
      assert g.InJournal(l);
    }
  }
}
