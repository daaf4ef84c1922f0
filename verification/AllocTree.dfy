/**
The refinement tree of one allocation group as it lies on disk: a root table of
cell states and references, and the records it refers to. A record is used when
its bit is set, which here is being a key of recs.
*/
module AllocTree {
  import opened Wrappers

  const FANOUT := 16
  const CELL := 256
  const RECS_PER_BLOCK := 31

  datatype State = FREE | RSVD | FULL | REFINED

  /** A record: local table block and index within it. */
  datatype Ref = Ref(block: nat, idx: nat)

  datatype Rec = Rec(states: seq<State>, refs: seq<Ref>) {
    predicate Ok() {
      && |states| == FANOUT && |refs| == FANOUT
      && forall i :: 0 <= i < FANOUT ==> states[i] != RSVD
    }

    predicate All(st: State) {
      forall i :: 0 <= i < |states| ==> states[i] == st
    }

    predicate NoRefined() {
      forall i :: 0 <= i < |states| ==> states[i] != REFINED
    }
  }

  function ZeroRec(): (r: Rec)
    ensures r.Ok() && r.All(FREE) && r.NoRefined()
  {
    Rec(seq(FANOUT, _ => FREE), seq(FANOUT, _ => Ref(0, 0)))
  }

  datatype Tree = Tree(length: nat, states: seq<State>, refs: seq<Ref>, recs: map<Ref, Rec>)

  /** A place a record can hang from: a root cell, an L1 cell, or a slot block. */
  datatype Place = L0(c: nat) | L1(c: nat, i: nat) | L3(c: nat, i: nat, j: nat)

  /** The record reference stored at a place, if the place is refined. */
  function At(t: Tree, p: Place): Option<Ref> {
    match p
    case L0(c) => Top(t, c)
    case L1(c, i) => Child(t, Top(t, c), i)
    case L3(c, i, j) => Child(t, Child(t, Top(t, c), i), j)
  }

  function Top(t: Tree, c: nat): Option<Ref> {
    if c < |t.states| && c < |t.refs| && t.states[c] == REFINED then Some(t.refs[c]) else None
  }

  function Child(t: Tree, r: Option<Ref>, i: nat): Option<Ref> {
    if r.Some? && r.value in t.recs && i < |t.recs[r.value].states| && i < |t.recs[r.value].refs|
       && t.recs[r.value].states[i] == REFINED
    then Some(t.recs[r.value].refs[i]) else None
  }

  /** The state of child i of the record at a place. */
  function KidState(t: Tree, p: Place, i: nat): State {
    match At(t, p)
    case Some(r) => if r in t.recs && i < |t.recs[r].states| then t.recs[r].states[i] else RSVD
    case None => RSVD
  }

  /**
  Records and refined places correspond one to one: owner tells the one place that refers
  to each used record.
  */
  ghost predicate Owned(t: Tree, owner: map<Ref, Place>) {
    && owner.Keys == t.recs.Keys
    && (forall r :: r in t.recs ==> At(t, owner[r]) == Some(r))
    && (forall p :: At(t, p).Some? ==> At(t, p).value in t.recs && owner[At(t, p).value] == p)
  }

  ghost predicate Shaped(t: Tree, owner: map<Ref, Place>) {
    && |t.states| == |t.refs| == Cells(t.length)
    && (forall r :: r in t.recs ==> t.recs[r].Ok())
    && (forall r :: r in t.recs && r in owner && owner[r].L3? ==> t.recs[r].NoRefined())
    && (forall c :: 0 <= c < |t.states| && t.states[c] != RSVD ==> (c + 1) * CELL <= t.length)
  }

  /** Table blocks lie in reserved cells: the tree's own records never sit in allocatable space. */
  ghost predicate Housed(t: Tree) {
    forall r :: r in t.recs ==>
      r.idx < RECS_PER_BLOCK && r.block / CELL < |t.states| && t.states[r.block / CELL] == RSVD
  }

  /** No refined place has only FREE children, except possibly the listed records. */
  ghost predicate NoneEmpty(t: Tree, except: set<Ref>) {
    forall r :: r in t.recs && r !in except ==> !t.recs[r].All(FREE)
  }

  ghost predicate Tidy(t: Tree, owner: map<Ref, Place>, except: set<Ref>) {
    Owned(t, owner) && Shaped(t, owner) && Housed(t) && NoneEmpty(t, except)
  }

  function Cells(length: nat): nat {
    (length + CELL - 1) / CELL
  }

  // --- the state of one block ----------------------------------------------------------

  datatype Block = Free | Reserved | Full | Slots

  function OfState(s: State): Block {
    match s
    case FREE => Free
    case RSVD => Reserved
    case FULL => Full
    case REFINED => Slots
  }

  /** What the tree says about a block. */
  function BlockAt(t: Tree, b: nat): Block {
    BlockIn(t, b / CELL, b % CELL / FANOUT, b % FANOUT)
  }

  /** The same by coordinates: cell, L1 child, L2 child. */
  function BlockIn(t: Tree, c: nat, i: nat, j: nat): Block {
    if c >= |t.states| then Reserved
    else if t.states[c] != REFINED then OfState(t.states[c])
    else if KidState(t, L0(c), i) != REFINED then OfState(KidState(t, L0(c), i))
    else OfState(KidState(t, L1(c, i), j))
  }

  /** Inode slot s of the group is in use. */
  predicate SlotUsed(t: Tree, s: nat) {
    var b := s / FANOUT;
    KidState(t, L3(b / CELL, b % CELL / FANOUT, b % FANOUT), s % FANOUT) == FULL
  }

  // --- frames -----------------------------------------------------------------------------

  /** The same references everywhere: only FREE/FULL marks of one record may differ. */
  predicate SameLinks(a: Rec, b: Rec) {
    && |a.states| == |b.states| && a.refs == b.refs
    && forall i :: 0 <= i < |a.states| ==> (a.states[i] == REFINED <==> b.states[i] == REFINED)
  }

  function WithRec(t: Tree, r: Ref, rec: Rec): Tree {
    t.(recs := t.recs[r := rec])
  }

  lemma WithRecAt(t: Tree, r: Ref, rec: Rec, p: Place)
    requires r in t.recs && SameLinks(t.recs[r], rec)
    ensures At(WithRec(t, r, rec), p) == At(t, p)
  {
    var u := WithRec(t, r, rec);
    forall q: Option<Ref>, i: nat ensures Child(u, q, i) == Child(t, q, i) {
    }
  }

  /** Rewriting the marks of one record changes the children of its own place only. */
  lemma WithRecFacts(t: Tree, owner: map<Ref, Place>, r: Ref, rec: Rec)
    requires Owned(t, owner) && r in t.recs && SameLinks(t.recs[r], rec)
    ensures var u := WithRec(t, r, rec);
      && Owned(u, owner)
      && (forall p, i: nat :: KidState(u, p, i) ==
            if p == owner[r] then (if i < |rec.states| then rec.states[i] else RSVD) else KidState(t, p, i))
  {
    var u := WithRec(t, r, rec);
    forall p ensures At(u, p) == At(t, p) {
      WithRecAt(t, r, rec, p);
    }
  }

  /** Only the marks of one record changed, and it is still not empty: everything stays in order. */
  lemma WithRecTidy(t: Tree, owner: map<Ref, Place>, except: set<Ref>, r: Ref, rec: Rec)
    requires Tidy(t, owner, except) && r in t.recs && SameLinks(t.recs[r], rec) && rec.Ok()
    ensures Tidy(WithRec(t, r, rec), owner, if rec.All(FREE) then except + {r} else except - {r})
  {
    hide At;
    WithRecFacts(t, owner, r, rec);
  }

  // --- refining -----------------------------------------------------------------------------

  /** A root cell becomes refined, referring to a fresh empty record. */
  function RefineCell(t: Tree, c: nat, r: Ref): Tree
    requires c < |t.states| == |t.refs|
  {
    t.(states := t.states[c := REFINED], refs := t.refs[c := r], recs := t.recs[r := ZeroRec()])
  }

  lemma RefineCellFacts(t: Tree, owner: map<Ref, Place>, c: nat, r: Ref)
    requires Owned(t, owner) && c < |t.states| == |t.refs| && t.states[c] != REFINED && r !in t.recs
    ensures var u, o := RefineCell(t, c, r), owner[r := L0(c)];
      && Owned(u, o) && At(u, L0(c)) == Some(r)
      && (forall p, i: nat :: KidState(u, p, i) ==
            if p == L0(c) then (if i < FANOUT then FREE else RSVD) else KidState(t, p, i))
  {
    var u, o := RefineCell(t, c, r), owner[r := L0(c)];
    forall q: Option<Ref>, i: nat ensures Child(u, q, i) == if q == Some(r) then None else Child(t, q, i) {
    }
    forall p ensures At(u, p) == if p == L0(c) then Some(r) else At(t, p) {
      TopNotFresh(t, owner, r);
    }
    forall p | At(u, p).Some? ensures At(u, p).value in u.recs && o[At(u, p).value] == p {
    }
  }

  lemma TopNotFresh(t: Tree, owner: map<Ref, Place>, r: Ref)
    requires Owned(t, owner) && r !in t.recs
    ensures forall p :: At(t, p) != Some(r)
    ensures forall c :: Top(t, c) != Some(r)
    ensures forall c, i :: Child(t, Top(t, c), i) != Some(r)
  {
    forall c: nat ensures Top(t, c) != Some(r) {
      assert At(t, L0(c)) == Top(t, c);
    }
    forall c: nat, i: nat ensures Child(t, Top(t, c), i) != Some(r) {
      assert At(t, L1(c, i)) == Child(t, Top(t, c), i);
    }
  }

  /** Child i of a record becomes refined, referring to a fresh record. */
  function RefineKid(t: Tree, parent: Ref, i: nat, r: Ref, rec: Rec): Tree
    requires parent in t.recs && i < |t.recs[parent].states| && i < |t.recs[parent].refs|
  {
    var p := t.recs[parent];
    t.(recs := t.recs[r := rec][parent := Rec(p.states[i := REFINED], p.refs[i := r])])
  }

  /** The place of child i below a place. */
  function Below(p: Place, i: nat): Place
    requires !p.L3?
  {
    match p
    case L0(c) => L1(c, i)
    case L1(c, k) => L3(c, k, i)
  }

  lemma RefineKidFacts(t: Tree, owner: map<Ref, Place>, parent: Ref, i: nat, r: Ref, rec: Rec)
    requires Owned(t, owner) && parent in t.recs && !owner[parent].L3? && t.recs[parent].Ok() && i < FANOUT
    requires t.recs[parent].states[i] != REFINED && r !in t.recs && rec.NoRefined()
    ensures var u, o := RefineKid(t, parent, i, r, rec), owner[r := Below(owner[parent], i)];
      && Owned(u, o) && At(u, Below(owner[parent], i)) == Some(r)
      && (forall p, k: nat :: KidState(u, p, k) ==
            if p == Below(owner[parent], i) then (if k < |rec.states| then rec.states[k] else RSVD)
            else if p == owner[parent] && k == i then REFINED else KidState(t, p, k))
  {
    var u, o := RefineKid(t, parent, i, r, rec), owner[r := Below(owner[parent], i)];
    var here := Below(owner[parent], i);
    TopNotFresh(t, owner, r);
    forall q: Option<Ref>, k: nat
      ensures Child(u, q, k) == if q == Some(parent) && k == i then Some(r) else if q == Some(r) then None else Child(t, q, k)
    {
    }
    forall p ensures At(u, p) == if p == here then Some(r) else At(t, p) {
      PlaceUnder(t, owner, parent, p);
    }
  }

  /** A place lies directly below a record exactly when the record's own place says so. */
  lemma PlaceUnder(t: Tree, owner: map<Ref, Place>, parent: Ref, p: Place)
    requires Owned(t, owner) && parent in t.recs && !owner[parent].L3?
    ensures match p
      case L0(c) => true
      case L1(c, i) => Top(t, c) == Some(parent) <==> p == Below(owner[parent], i)
      case L3(c, i, j) => Child(t, Top(t, c), i) == Some(parent) <==> p == Below(owner[parent], j)
  {
    match p
    case L0(c) =>
    case L1(c, i) => assert At(t, L0(c)) == Top(t, c);
    case L3(c, i, j) => assert At(t, L1(c, i)) == Child(t, Top(t, c), i);
  }

  // --- coarsening ------------------------------------------------------------------------------

  function Without(recs: map<Ref, Rec>, r: Ref): map<Ref, Rec> {
    recs - {r}
  }

  /** The record of child i of parent is released and the child takes a plain state. */
  function DropKid(t: Tree, parent: Ref, i: nat, r: Ref, st: State): Tree
    requires parent in t.recs && i < |t.recs[parent].states| && i < |t.recs[parent].refs|
  {
    t.(recs := Without(t.recs, r)[parent := Rec(t.recs[parent].states[i := st], t.recs[parent].refs[i := Ref(0, 0)])])
  }

  lemma DropKidFacts(t: Tree, owner: map<Ref, Place>, parent: Ref, i: nat, r: Ref, st: State)
    requires Owned(t, owner) && parent in t.recs && !owner[parent].L3? && t.recs[parent].Ok() && i < FANOUT
    requires At(t, Below(owner[parent], i)) == Some(r) && r in t.recs && t.recs[r].NoRefined() && st != REFINED
    ensures var u := DropKid(t, parent, i, r, st);
      && Owned(u, owner - {r})
      && (forall p, k: nat :: KidState(u, p, k) ==
            if p == Below(owner[parent], i) then RSVD
            else if p == owner[parent] && k == i then st else KidState(t, p, k))
  {
    var u, here := DropKid(t, parent, i, r, st), Below(owner[parent], i);
    assert owner[r] == here && r != parent;
    forall q: Option<Ref>, k: nat
      ensures Child(u, q, k) == if (q == Some(parent) && k == i) || q == Some(r) then None else Child(t, q, k)
    {
    }
    forall p ensures At(u, p) == if p == here then None else At(t, p) {
      PlaceUnder(t, owner, parent, p);
      NothingUnder(t, owner, r, p);
    }
  }

  lemma NothingUnder(t: Tree, owner: map<Ref, Place>, r: Ref, p: Place)
    requires Owned(t, owner) && r in t.recs && t.recs[r].NoRefined()
    ensures forall i: nat :: Child(t, Some(r), i).None?
  {
  }

  /** The record of a root cell is released and the cell takes a plain state. */
  function DropCell(t: Tree, c: nat, r: Ref, st: State): Tree
    requires c < |t.states| == |t.refs|
  {
    t.(states := t.states[c := st], refs := t.refs[c := Ref(0, 0)], recs := Without(t.recs, r))
  }

  lemma DropCellFacts(t: Tree, owner: map<Ref, Place>, c: nat, r: Ref, st: State)
    requires Owned(t, owner) && c < |t.states| == |t.refs| && st != REFINED
    requires At(t, L0(c)) == Some(r) && r in t.recs && t.recs[r].NoRefined()
    ensures var u := DropCell(t, c, r, st);
      && Owned(u, owner - {r})
      && (forall p, k: nat :: KidState(u, p, k) == if p == L0(c) then RSVD else KidState(t, p, k))
  {
    var u := DropCell(t, c, r, st);
    assert owner[r] == L0(c);
    forall q: Option<Ref>, k: nat
      ensures Child(u, q, k) == if q == Some(r) then None else Child(t, q, k)
    {
    }
    NothingUnder(t, owner, r, L0(c));
    forall p ensures At(u, p) == if p == L0(c) then None else At(t, p) {
    }
  }

  // --- plain root cells -------------------------------------------------------------------------

  /** A cell that is not refined takes another plain state. */
  function MarkCell(t: Tree, c: nat, st: State): Tree
    requires c < |t.states|
  {
    t.(states := t.states[c := st])
  }

  lemma MarkCellFacts(t: Tree, owner: map<Ref, Place>, c: nat, st: State)
    requires Owned(t, owner) && c < |t.states| && t.states[c] != REFINED && st != REFINED
    ensures Owned(MarkCell(t, c, st), owner)
    ensures forall p :: At(MarkCell(t, c, st), p) == At(t, p)
    ensures forall p, k: nat :: KidState(MarkCell(t, c, st), p, k) == KidState(t, p, k)
  {
    var u := MarkCell(t, c, st);
    forall q: Option<Ref>, k: nat ensures Child(u, q, k) == Child(t, q, k) {
    }
    forall p ensures At(u, p) == At(t, p) {
    }
  }
}
