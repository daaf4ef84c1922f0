/** The consistency check's walk over one group, and what passing it means. */
module AllocAudit {
  import opened Wrappers
  import opened AllocTree
  import opened AllocOps
  import opened AllocCount

  /** Block counts, the records seen, and how many problems were found. */
  datatype Tally = Tally(free: nat, rsvd: nat, full: nat, seen: set<Ref>, problems: nat)

  function Add(a: Tally, s: State, n: nat): Tally {
    match s
    case FREE => a.(free := a.free + n)
    case RSVD => a.(rsvd := a.rsvd + n)
    case FULL => a.(full := a.full + n)
    case REFINED => a
  }

  ghost predicate Referenced(t: Tree, r: Ref) {
    exists p :: At(t, p) == Some(r)
  }

  /** Every reference leads to a used record; used records beside a referenced one are referenced. */
  ghost predicate Clean(t: Tree) {
    && (forall p :: At(t, p).Some? ==> At(t, p).value in t.recs)
    && (forall r, q :: r in t.recs && Referenced(t, q) && q.block == r.block ==> Referenced(t, r))
  }

  /** Every place a record can hang from in a group of n cells. */
  function Places(n: nat): set<Place> {
    (set c: nat | c < n :: L0(c))
    + (set c: nat, i: nat | c < n && i < FANOUT :: L1(c, i))
    + (set c: nat, i: nat, j: nat | c < n && i < FANOUT && j < FANOUT :: L3(c, i, j))
  }

  function RefinedPlaces(t: Tree): set<Place> {
    set p | p in Places(|t.states|) && At(t, p).Some?
  }

  /** The records that the walk comes by. */
  function Seen(t: Tree): set<Ref> {
    RecordsAt(t, RefinedPlaces(t))
  }

  function RecordsAt(t: Tree, places: set<Place>): set<Ref> {
    set p | p in places && At(t, p).Some? :: At(t, p).value
  }

  ghost predicate Formed(t: Tree) {
    && |t.states| == |t.refs| == Cells(t.length)
    && forall r :: r in t.recs ==> |t.recs[r].states| == |t.recs[r].refs| == FANOUT
  }

  /** Only reserved cells may stick out over the end of the group. */
  ghost predicate Fits(t: Tree) {
    forall c :: 0 <= c < |t.states| && t.states[c] != RSVD ==> (c + 1) * CELL <= t.length
  }

  /** The tally counts the blocks below n. */
  ghost predicate Tallied(t: Tree, a: Tally, n: nat) {
    && a.free == |KindBelow(t, KFree, n)| && a.rsvd == |KindBelow(t, KRsvd, n)| && a.full == |KindBelow(t, KFull, n)|
  }

  /** Everything seen is referenced, and nothing more was seen than before plus this cell. */
  ghost predicate SeenOnly(t: Tree, a: Tally) {
    forall r :: r in a.seen ==> Referenced(t, r)
  }

  /** A place was visited: its record is used and was noted. */
  ghost predicate Visited(t: Tree, a: Tally, p: Place) {
    At(t, p).Some? ==> At(t, p).value in t.recs && At(t, p).value in a.seen
  }

  /** Walk the cells of the root table, then look for used records nobody refers to. */
  method TallyAg(t: Tree) returns (a: Tally)
    requires Formed(t)
    ensures a.problems == 0 <==> Clean(t)
    ensures a.problems == 0 ==> a.seen == Seen(t)
    ensures a.problems == 0 && Fits(t) ==> a.free == Count(t, KFree) && a.rsvd == Count(t, KRsvd) && a.full == Count(t, KFull)
  {
    hide KindBelow, BlockAt, At;
    a := Tally(0, 0, 0, {}, 0);
    EmptyTally(t);
    for c := 0 to |t.states|
      invariant a.problems == 0 && Fits(t) ==> Tallied(t, a, Least(c * CELL, t.length))
      invariant a.problems == 0 ==> forall p: Place :: p.c < c ==> Visited(t, a, p)
      invariant a.problems > 0 ==> !Clean(t)
      invariant SeenOnly(t, a)
    {
      a := TallyCell(t, c, a);
    }
    AllVisited(t, a);
    var leaks := set r | r in t.recs.Keys && r !in a.seen && (exists q :: q in a.seen && q.block == r.block);
    LeakMeans(t, a, leaks);
    a := a.(problems := a.problems + |leaks|);
    SeenIsReferenced(t);
  }

  function Least(a: nat, b: nat): nat {
    if a < b then a else b
  }

  method TallyCell(t: Tree, c: nat, a: Tally) returns (b: Tally)
    requires Formed(t) && c < |t.states| && SeenOnly(t, a)
    requires a.problems > 0 ==> !Clean(t)
    ensures b.problems > 0 ==> !Clean(t)
    ensures b.problems >= a.problems && a.seen <= b.seen && SeenOnly(t, b)
    ensures b.problems == 0 ==> forall p: Place :: p.c == c ==> Visited(t, b, p)
    ensures b.problems == 0 && Fits(t) && Tallied(t, a, Least(c * CELL, t.length)) ==> Tallied(t, b, Least(c * CELL + CELL, t.length))
  {
    hide KindBelow, BlockAt, At;
    if t.states[c] != REFINED {
      var tail := Least(t.length - c * CELL, CELL);
      b := Add(a, t.states[c], if t.states[c] == RSVD then tail else CELL);
      NothingUnderCell(t, c, b);
      PlainCell(t, c);
      return;
    }
    var l0 := t.refs[c];
    CellAt(t, c);
    if l0 !in t.recs {
      b := a.(problems := a.problems + 1);
      return;
    }
    b := a.(seen := a.seen + {l0});
    for i := 0 to FANOUT
      invariant b.problems > 0 ==> !Clean(t)
      invariant b.problems >= a.problems && a.seen + {l0} <= b.seen && SeenOnly(t, b)
      invariant b.problems == 0 ==> forall p: Place :: p.c == c && (p.L0? || p.i < i) ==> Visited(t, b, p)
      invariant b.problems == 0 && Fits(t) && Tallied(t, a, c * CELL) ==> Tallied(t, b, c * CELL + i * FANOUT)
    {
      b := TallyKid(t, c, l0, i, b);
    }
    NoFurther(t, c, l0, b);
    LeastOf(t, c);
  }

  method TallyKid(t: Tree, c: nat, l0: Ref, i: nat, a: Tally) returns (b: Tally)
    requires Formed(t) && c < |t.states| && SeenOnly(t, a) && i < FANOUT
    requires l0 in t.recs && At(t, L0(c)) == Some(l0)
    requires a.problems > 0 ==> !Clean(t)
    ensures b.problems > 0 ==> !Clean(t)
    ensures b.problems >= a.problems && a.seen <= b.seen && SeenOnly(t, b)
    ensures b.problems == 0 ==> forall p: Place :: p.c == c && !p.L0? && p.i == i ==> Visited(t, b, p)
    ensures b.problems == 0 && Tallied(t, a, c * CELL + i * FANOUT) ==> Tallied(t, b, c * CELL + i * FANOUT + FANOUT)
  {
    hide KindBelow, BlockAt, At;
    var s := t.recs[l0].states[i];
    KidAt(t, c, l0, i);
    if s != REFINED {
      b := Add(a, s, FANOUT);
      PlainKid(t, c, l0, i);
      return;
    }
    var l1 := t.recs[l0].refs[i];
    if l1 !in t.recs {
      b := a.(problems := a.problems + 1);
      return;
    }
    b := a.(seen := a.seen + {l1});
    for j := 0 to FANOUT
      invariant b.problems > 0 ==> !Clean(t)
      invariant b.problems >= a.problems && a.seen + {l1} <= b.seen && SeenOnly(t, b)
      invariant b.problems == 0 ==> Visited(t, b, L1(c, i)) && forall k: nat :: k < j ==> Visited(t, b, L3(c, i, k))
      invariant b.problems == 0 && Tallied(t, a, c * CELL + i * FANOUT) ==> Tallied(t, b, c * CELL + i * FANOUT + j)
    {
      var st := t.recs[l1].states[j];
      SlotAt(t, c, i, l1, j);
      SingleBlock(t, c, i, l1, j);
      if st != REFINED {
        b := Add(b, st, 1);
      } else {
        var l3 := t.recs[l1].refs[j];
        b := b.(full := b.full + 1);
        if l3 in t.recs {
          b := b.(seen := b.seen + {l3});
        } else {
          b := b.(problems := b.problems + 1);
        }
      }
    }
    NoFurtherKids(t, c, i, l1, b);
  }

  // --- lemmas for the walk -----------------------------------------------------------------------

  lemma EmptyTally(t: Tree)
    ensures forall k :: |KindBelow(t, k, 0)| == 0
  {
    forall k ensures KindBelow(t, k, 0) == {} {
    }
  }

  lemma AllVisited(t: Tree, a: Tally)
    requires a.problems == 0 ==> forall p: Place :: p.c < |t.states| ==> Visited(t, a, p)
    ensures a.problems == 0 ==> forall p: Place :: Visited(t, a, p)
    ensures Least(|t.states| * CELL, t.length) <= t.length
    ensures |t.states| == Cells(t.length) ==> Least(|t.states| * CELL, t.length) == t.length
  {
    forall p: Place | p.c >= |t.states| ensures At(t, p).None? {
    }
  }

  lemma LeakMeans(t: Tree, a: Tally, leaks: set<Ref>)
    requires SeenOnly(t, a) && (a.problems > 0 ==> !Clean(t))
    requires a.problems == 0 ==> forall p: Place :: Visited(t, a, p)
    requires leaks == set r | r in t.recs.Keys && r !in a.seen && (exists q :: q in a.seen && q.block == r.block)
    ensures a.problems + |leaks| == 0 <==> Clean(t)
    ensures a.problems == 0 ==> forall r :: r in a.seen <==> Referenced(t, r)
  {
    hide At;
    if a.problems == 0 {
      forall r ensures r in a.seen <==> Referenced(t, r) {
        if Referenced(t, r) {
          var p :| At(t, p) == Some(r);
          assert Visited(t, a, p);
        }
      }
      if leaks != {} {
        var r :| r in leaks;
        assert !Clean(t);
      } else {
        forall r, q | r in t.recs && Referenced(t, q) && q.block == r.block ensures Referenced(t, r) {
          assert r !in leaks;
        }
        forall p: Place | At(t, p).Some? ensures At(t, p).value in t.recs {
          assert Visited(t, a, p);
        }
      }
    }
  }

  lemma NothingUnderCell(t: Tree, c: nat, a: Tally)
    requires c < |t.states| && t.states[c] != REFINED
    ensures forall p: Place :: p.c == c ==> Visited(t, a, p)
  {
  }

  lemma PlainCell(t: Tree, c: nat)
    requires Formed(t) && c < |t.states| && t.states[c] != REFINED
    ensures c * CELL < t.length
    ensures Fits(t) ==>
      var lo, n := c * CELL, if t.states[c] == RSVD then Least(t.length - c * CELL, CELL) else CELL;
      && Least(lo, t.length) == lo && Least(lo + CELL, t.length) == lo + n
      && forall k :: |KindBelow(t, k, lo + n)| == |KindBelow(t, k, lo)| + if KindOf(OfState(t.states[c])) == k then n else 0
  {
    hide KindBelow, KidState;
    if Fits(t) {
      var lo, n := c * CELL, if t.states[c] == RSVD then Least(t.length - c * CELL, CELL) else CELL;
      forall b: nat | lo <= b < lo + n ensures BlockAt(t, b) == OfState(t.states[c]) {
        assert b / CELL == c;
      }
      forall k ensures |KindBelow(t, k, lo + n)| == |KindBelow(t, k, lo)| + if KindOf(OfState(t.states[c])) == k then n else 0 {
        TallyMore(t, lo, n, OfState(t.states[c]), k);
      }
    }
  }

  lemma CellAt(t: Tree, c: nat)
    requires c < |t.states| == |t.refs| && t.states[c] == REFINED
    ensures At(t, L0(c)) == Some(t.refs[c]) && Referenced(t, t.refs[c])
    ensures t.refs[c] !in t.recs ==> !Clean(t)
  {
    assert At(t, L0(c)) == Some(t.refs[c]);
  }

  lemma LeastOf(t: Tree, c: nat)
    requires Formed(t) && c < |t.states| && t.states[c] == REFINED
    ensures Fits(t) ==> Least(c * CELL, t.length) == c * CELL && Least(c * CELL + CELL, t.length) == c * CELL + CELL
    ensures c * CELL + FANOUT * FANOUT == c * CELL + CELL
  {
  }

  lemma NoFurther(t: Tree, c: nat, l0: Ref, a: Tally)
    requires Formed(t) && At(t, L0(c)) == Some(l0) && l0 in t.recs
    ensures forall p: Place :: p.c == c && !p.L0? && p.i >= FANOUT ==> Visited(t, a, p)
  {
  }

  lemma KidAt(t: Tree, c: nat, l0: Ref, i: nat)
    requires Formed(t) && At(t, L0(c)) == Some(l0) && l0 in t.recs && i < FANOUT
    ensures t.recs[l0].states[i] == REFINED ==>
      At(t, L1(c, i)) == Some(t.recs[l0].refs[i]) && Referenced(t, t.recs[l0].refs[i])
    ensures t.recs[l0].states[i] == REFINED && t.recs[l0].refs[i] !in t.recs ==> !Clean(t)
    ensures t.recs[l0].states[i] != REFINED ==> At(t, L1(c, i)).None? && forall j: nat :: At(t, L3(c, i, j)).None?
  {
    if t.recs[l0].states[i] == REFINED {
      assert At(t, L1(c, i)) == Some(t.recs[l0].refs[i]);
    }
  }

  lemma PlainKid(t: Tree, c: nat, l0: Ref, i: nat)
    requires Formed(t) && c < |t.states| && At(t, L0(c)) == Some(l0) && l0 in t.recs && i < FANOUT
    requires t.recs[l0].states[i] != REFINED
    ensures var lo, s := c * CELL + i * FANOUT, t.recs[l0].states[i];
      forall k :: |KindBelow(t, k, lo + FANOUT)| == |KindBelow(t, k, lo)| + if KindOf(OfState(s)) == k then FANOUT else 0
  {
    hide KindBelow;
    var lo, s := c * CELL + i * FANOUT, t.recs[l0].states[i];
    forall b: nat | lo <= b < lo + FANOUT ensures BlockAt(t, b) == OfState(s) {
      Coordinates(b);
    }
    forall k ensures |KindBelow(t, k, lo + FANOUT)| == |KindBelow(t, k, lo)| + if KindOf(OfState(s)) == k then FANOUT else 0 {
      TallyMore(t, lo, FANOUT, OfState(s), k);
    }
  }

  lemma SlotAt(t: Tree, c: nat, i: nat, l1: Ref, j: nat)
    requires Formed(t) && At(t, L1(c, i)) == Some(l1) && l1 in t.recs && j < FANOUT
    ensures t.recs[l1].states[j] == REFINED ==>
      At(t, L3(c, i, j)) == Some(t.recs[l1].refs[j]) && Referenced(t, t.recs[l1].refs[j])
    ensures t.recs[l1].states[j] == REFINED && t.recs[l1].refs[j] !in t.recs ==> !Clean(t)
    ensures t.recs[l1].states[j] != REFINED ==> At(t, L3(c, i, j)).None?
  {
    if t.recs[l1].states[j] == REFINED {
      assert At(t, L3(c, i, j)) == Some(t.recs[l1].refs[j]);
    }
  }

  lemma SingleBlock(t: Tree, c: nat, i: nat, l1: Ref, j: nat)
    requires Formed(t) && At(t, L1(c, i)) == Some(l1) && l1 in t.recs && i < FANOUT && j < FANOUT
    ensures var b, s := c * CELL + i * FANOUT + j, t.recs[l1].states[j];
      forall k :: |KindBelow(t, k, b + 1)| == |KindBelow(t, k, b)| + if KindOf(OfState(s)) == k then 1 else 0
  {
    hide KindBelow;
    var b, s := c * CELL + i * FANOUT + j, t.recs[l1].states[j];
    Coordinates(b);
    forall k ensures |KindBelow(t, k, b + 1)| == |KindBelow(t, k, b)| + if KindOf(OfState(s)) == k then 1 else 0 {
      TallyMore(t, b, 1, OfState(s), k);
    }
  }

  lemma NoFurtherKids(t: Tree, c: nat, i: nat, l1: Ref, a: Tally)
    requires Formed(t) && At(t, L1(c, i)) == Some(l1) && l1 in t.recs
    ensures forall j: nat :: j >= FANOUT ==> Visited(t, a, L3(c, i, j))
  {
  }

  // --- what passing means ---------------------------------------------------------------------------

  /** A tree in order passes, and its records form a forest: no sharing and no leak. */
  lemma OwnedIsClean(t: Tree, owner: map<Ref, Place>, except: set<Ref>)
    requires Tidy(t, owner, except)
    ensures Formed(t) && Fits(t) && Clean(t)
    ensures forall p, q :: At(t, p).Some? && At(t, p) == At(t, q) ==> p == q
    ensures forall r :: r in t.recs <==> Referenced(t, r)
  {
    hide At;
    forall r ensures r in t.recs <==> Referenced(t, r) {
      if r in t.recs {
        assert At(t, owner[r]) == Some(r);
      }
    }
  }

  /** Passing does not rule out sharing: two cells may refer to one record and the walk stays clean. */
  lemma SharingPasses()
    ensures exists t, p, q :: Formed(t) && Fits(t) && Clean(t) && p != q && At(t, p).Some? && At(t, p) == At(t, q)
  {
    var r := Ref(0, 0);
    var t := Tree(3 * CELL, [RSVD, REFINED, REFINED], [r, r, r], map[r := ZeroRec()]);
    assert At(t, L0(1)) == Some(r) && At(t, L0(2)) == Some(r);
    forall p | At(t, p).Some? ensures At(t, p).value in t.recs {
      NoKids(t, p);
    }
    assert Referenced(t, r);
  }

  lemma NoKids(t: Tree, p: Place)
    requires |t.states| == |t.refs| && forall c :: 0 <= c < |t.refs| ==> t.refs[c] in t.recs
    requires forall r :: r in t.recs ==> t.recs[r].NoRefined()
    ensures At(t, p).Some? ==> At(t, p).value in t.recs
  {
  }

  lemma InPlaces(t: Tree, p: Place)
    requires Formed(t) && At(t, p).Some?
    ensures p in RefinedPlaces(t)
  {
  }

  lemma SeenIsReferenced(t: Tree)
    requires Formed(t)
    ensures forall r :: r in Seen(t) <==> Referenced(t, r)
  {
    hide At, Places;
    forall r ensures r in Seen(t) <==> Referenced(t, r) {
      if Referenced(t, r) {
        var p :| At(t, p) == Some(r);
        InPlaces(t, p);
        assert At(t, p).value in Seen(t);
      }
    }
  }

  /** No two of the places refer to one record. */
  ghost predicate Unshared(t: Tree, places: set<Place>) {
    forall p, q :: p in places && q in places && At(t, p) == At(t, q) ==> p == q
  }

  /** As many records as places: none is shared. */
  lemma {:induction false} CountTellsSharing(t: Tree, places: set<Place>)
    requires forall p :: p in places ==> At(t, p).Some?
    ensures |RecordsAt(t, places)| <= |places|
    ensures |RecordsAt(t, places)| == |places| <==> Unshared(t, places)
    decreases |places|
  {
    hide At;
    if places != {} {
      var p :| p in places;
      var rest, r := places - {p}, At(t, p).value;
      CountTellsSharing(t, rest);
      assert RecordsAt(t, places) == RecordsAt(t, rest) + {r};
      if r in RecordsAt(t, rest) {
        assert RecordsAt(t, places) == RecordsAt(t, rest);
        var q :| q in rest && At(t, q) == Some(r);
        assert !Unshared(t, places);
      } else if Unshared(t, rest) {
        forall x, y | x in places && y in places && At(t, x) == At(t, y) ensures x == y {
          assert x in rest ==> At(t, x).value in RecordsAt(t, rest);
          assert y in rest ==> At(t, y).value in RecordsAt(t, rest);
        }
      }
    }
  }

  /** The place that refers to a record. */
  ghost function PlaceOf(t: Tree, r: Ref): (p: Place)
    requires Referenced(t, r)
    ensures At(t, p) == Some(r)
  {
    var p :| At(t, p) == Some(r);
    p
  }

  /** The walk comes by some record of every table block in use. */
  ghost predicate BlocksSeen(t: Tree) {
    forall r :: r in t.recs ==> exists q :: q in Seen(t) && q.block == r.block
  }

  /**
  Passing means that records and refined places correspond one to one exactly when the walk comes by
  as many records as refined places, and by some record of every table block in use. Both could be
  told from the same walk; it does neither.
  */
  lemma ForestExactlyWhen(t: Tree)
    requires Formed(t)
    ensures Clean(t) && |RefinedPlaces(t)| == |Seen(t)| && BlocksSeen(t) <==> exists owner :: Owned(t, owner)
  {
    hide At, Places;
    SeenIsReferenced(t);
    CountTellsSharing(t, RefinedPlaces(t));
    if Clean(t) && |RefinedPlaces(t)| == |Seen(t)| && BlocksSeen(t) {
      CountedIsOwned(t);
    }
    if owner :| Owned(t, owner) {
      OwnedIsCounted(t, owner);
    }
  }

  lemma CountedIsOwned(t: Tree)
    requires Formed(t) && Clean(t) && Unshared(t, RefinedPlaces(t)) && BlocksSeen(t)
    requires forall r :: r in Seen(t) <==> Referenced(t, r)
    ensures exists owner :: Owned(t, owner)
  {
    hide At, RefinedPlaces, Seen, Unshared;
    forall r | r in t.recs ensures Referenced(t, r) {
      var q :| q in Seen(t) && q.block == r.block;
    }
    var owner := map r | r in t.recs :: PlaceOf(t, r);
    forall p | At(t, p).Some? ensures At(t, p).value in t.recs && PlaceOf(t, At(t, p).value) == p {
      OnePlace(t, p, PlaceOf(t, At(t, p).value));
    }
    assert Owned(t, owner);
  }

  lemma OnePlace(t: Tree, p: Place, q: Place)
    requires Formed(t) && Unshared(t, RefinedPlaces(t)) && At(t, p).Some? && At(t, p) == At(t, q)
    ensures p == q
  {
    hide At;
    InPlaces(t, p);
    InPlaces(t, q);
  }

  lemma OwnedIsCounted(t: Tree, owner: map<Ref, Place>)
    requires Formed(t) && Owned(t, owner) && forall r :: r in Seen(t) <==> Referenced(t, r)
    ensures Clean(t) && Unshared(t, RefinedPlaces(t)) && BlocksSeen(t)
  {
    hide At, Places, Seen;
    forall r | r in t.recs ensures Referenced(t, r) {
      assert At(t, owner[r]) == Some(r);
    }
  }
}
