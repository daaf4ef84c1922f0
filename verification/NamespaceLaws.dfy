/** Names, inodes and link counts of a volume, and what adding and removing a name does to them. */
module NamespaceLaws {
  import opened Wrappers
  import HashedDir

  type Name = HashedDir.Name

  datatype Link = Link(ino: nat, isDir: bool)

  /** An inode as far as names go. Files and symbolic links have no entries. */
  datatype Inode = Inode(isDir: bool, nlink: nat, immutable: bool, entries: map<Name, Link>)

  type Table = map<nat, Inode>

  /** The names in a directory that name directories. */
  function Subdirs(entries: map<Name, Link>): set<Name> {
    set n | n in entries && entries[n].isDir
  }

  /** Every place that names inode i. */
  function Refs(t: Table, i: nat): set<(nat, Name)> {
    set d, n | d in t && n in t[d].entries && t[d].entries[n].ino == i :: (d, n)
  }

  // --- the invariant ---------------------------------------------------------------------

  ghost predicate DirCounts(t: Table, d: nat)
    requires d in t
  {
    t[d].isDir ==> t[d].nlink == 2 + |Subdirs(t[d].entries)|
  }

  ghost predicate FileCounts(t: Table, i: nat, loose: set<nat>)
    requires i in t
  {
    !t[i].isDir ==> t[i].entries == map[] && t[i].nlink == |Refs(t, i)| && (i !in loose ==> t[i].nlink >= 1)
  }

  ghost predicate NamedOnce(t: Table, root: nat, i: nat, loose: set<nat>)
    requires i in t
  {
    && (t[i].isDir ==> |Refs(t, i)| == if i == root || i in loose then 0 else 1)
    && (i in loose ==> |Refs(t, i)| == 0)
  }

  ghost predicate LinkOk(t: Table, l: Link) {
    l.ino in t && t[l.ino].isDir == l.isDir
  }

  ghost predicate LinksOk(t: Table, d: nat)
    requires d in t
  {
    forall n :: n in t[d].entries ==> LinkOk(t, t[d].entries[n])
  }

  /**
  Link counts are right, no entry names a freed inode, and every inode is named: a directory once
  (the root not at all), a file as often as it has links. The loose ones are not named yet, or no more.
  */
  ghost predicate GoodBut(t: Table, root: nat, loose: set<nat>) {
    && root in t && t[root].isDir && root !in loose && loose <= t.Keys
    && forall i :: i in t ==> DirCounts(t, i) && FileCounts(t, i, loose) && NamedOnce(t, root, i, loose) && LinksOk(t, i)
  }

  ghost predicate Good(t: Table, root: nat) {
    GoodBut(t, root, {})
  }

  // --- steps ---------------------------------------------------------------------------------

  /** Directory d gets the name n for l: counts of the directory, or of the file, go up. */
  function AddName(t: Table, d: nat, n: Name, l: Link): Table
    requires d in t && l.ino in t
  {
    var u := t[d := t[d].(entries := t[d].entries[n := l], nlink := t[d].nlink + if l.isDir then 1 else 0)];
    if l.isDir then u else u[l.ino := u[l.ino].(nlink := u[l.ino].nlink + 1)]
  }

  function Less(k: nat): nat {
    if k > 0 then k - 1 else 0
  }

  /** The name n of directory d goes: counts go down. */
  function DelName(t: Table, d: nat, n: Name): Table
    requires d in t && n in t[d].entries && t[d].entries[n].ino in t
  {
    var l := t[d].entries[n];
    var u := t[d := t[d].(entries := t[d].entries - {n}, nlink := if l.isDir then Less(t[d].nlink) else t[d].nlink)];
    if l.isDir then u else u[l.ino := u[l.ino].(nlink := Less(u[l.ino].nlink))]
  }

  function Free(t: Table, i: nat): Table {
    t - {i}
  }

  lemma RefsAdded(t: Table, d: nat, n: Name, l: Link, i: nat)
    requires d in t && l.ino in t && n !in t[d].entries && (t[l.ino].isDir == l.isDir) && (!l.isDir ==> l.ino != d)
    ensures Refs(AddName(t, d, n, l), i) == if i == l.ino then Refs(t, i) + {(d, n)} else Refs(t, i)
    ensures (d, n) !in Refs(t, i)
  {
    var u := AddName(t, d, n, l);
    forall x: (nat, Name) ensures x in Refs(u, i) <==> x in Refs(t, i) || (i == l.ino && x == (d, n)) {
    }
  }

  lemma SubdirsAdded(entries: map<Name, Link>, n: Name, l: Link)
    requires n !in entries
    ensures |Subdirs(entries[n := l])| == |Subdirs(entries)| + if l.isDir then 1 else 0
  {
    if l.isDir {
      assert Subdirs(entries[n := l]) == Subdirs(entries) + {n};
    } else {
      assert Subdirs(entries[n := l]) == Subdirs(entries);
    }
  }

  lemma SubdirsGone(entries: map<Name, Link>, n: Name)
    requires n in entries
    ensures |Subdirs(entries - {n})| == |Subdirs(entries)| - if entries[n].isDir then 1 else 0
  {
    if entries[n].isDir {
      assert Subdirs(entries - {n}) == Subdirs(entries) - {n};
    } else {
      assert Subdirs(entries - {n}) == Subdirs(entries);
    }
  }

  lemma AddNameGood(t: Table, root: nat, loose: set<nat>, d: nat, n: Name, l: Link)
    requires GoodBut(t, root, loose) && d in t && t[d].isDir && n !in t[d].entries
    requires LinkOk(t, l) && l.ino != root && (l.isDir ==> l.ino in loose)
    ensures GoodBut(AddName(t, d, n, l), root, loose - {l.ino})
  {
    hide Refs, Subdirs;
    var u, less := AddName(t, d, n, l), loose - {l.ino};
    SubdirsAdded(t[d].entries, n, l);
    forall i | i in u ensures DirCounts(u, i) && FileCounts(u, i, less) && NamedOnce(u, root, i, less) && LinksOk(u, i) {
      RefsAdded(t, d, n, l, i);
      assert DirCounts(t, i) && FileCounts(t, i, loose) && NamedOnce(t, root, i, loose) && LinksOk(t, i);
      assert FileCounts(t, l.ino, loose);
      if i == l.ino {
        assert |Refs(t, i) + {(d, n)}| == |Refs(t, i)| + 1;
      }
    }
  }

  lemma RefsGone(t: Table, d: nat, n: Name, i: nat)
    requires d in t && n in t[d].entries && LinkOk(t, t[d].entries[n]) && t[d].isDir
    ensures Refs(DelName(t, d, n), i) == if i == t[d].entries[n].ino then Refs(t, i) - {(d, n)} else Refs(t, i)
    ensures (d, n) in Refs(t, i) <==> i == t[d].entries[n].ino
  {
    var u := DelName(t, d, n);
    forall x: (nat, Name) ensures x in Refs(u, i) <==> x in Refs(t, i) && x != (d, n) {
    }
  }

  /** What is not named any more after the name goes. */
  function Loosened(t: Table, l: Link): set<nat>
    requires l.ino in t
  {
    if l.isDir || t[l.ino].nlink == 1 then {l.ino} else {}
  }

  lemma DelNameGood(t: Table, root: nat, d: nat, n: Name)
    requires Good(t, root) && d in t && t[d].isDir && n in t[d].entries
    ensures var l := t[d].entries[n];
      && LinkOk(t, l) && l.ino != root && GoodBut(DelName(t, d, n), root, Loosened(t, l))
      && t[l.ino].nlink >= 1 && (l.isDir ==> t[d].nlink >= 3)
  {
    hide Refs, Subdirs;
    assert LinksOk(t, d);
    var l := t[d].entries[n];
    var u, loose := DelName(t, d, n), Loosened(t, l);
    SubdirsGone(t[d].entries, n);
    RefsGone(t, d, n, l.ino);
    assert DirCounts(t, d) && FileCounts(t, l.ino, {}) && NamedOnce(t, root, l.ino, {}) && NamedOnce(t, root, root, {});
    assert |Refs(t, l.ino) - {(d, n)}| == |Refs(t, l.ino)| - 1;
    NoneLeft(Refs(t, root), (d, n));
    if l.isDir {
      HasSubdir(t[d].entries, n);
    }
    forall i | i in u ensures DirCounts(u, i) && FileCounts(u, i, loose) && NamedOnce(u, root, i, loose) && LinksOk(u, i) {
      DelNameOne(t, root, d, n, i);
    }
  }

  lemma DelNameOne(t: Table, root: nat, d: nat, n: Name, i: nat)
    requires Good(t, root) && d in t && t[d].isDir && n in t[d].entries && i in t
    requires LinkOk(t, t[d].entries[n]) && t[d].entries[n].ino != root && t[t[d].entries[n].ino].nlink >= 1
    requires |Subdirs(t[d].entries - {n})| == |Subdirs(t[d].entries)| - if t[d].entries[n].isDir then 1 else 0
    ensures var u, loose := DelName(t, d, n), Loosened(t, t[d].entries[n]);
      DirCounts(u, i) && FileCounts(u, i, loose) && NamedOnce(u, root, i, loose) && LinksOk(u, i)
  {
    hide Refs, Subdirs;
    var l := t[d].entries[n];
    RefsGone(t, d, n, i);
    assert DirCounts(t, i) && FileCounts(t, i, {}) && NamedOnce(t, root, i, {}) && LinksOk(t, i);
    if i == l.ino {
      assert |Refs(t, i) - {(d, n)}| == |Refs(t, i)| - 1;
    }
  }

  lemma HasSubdir(entries: map<Name, Link>, n: Name)
    requires n in entries && entries[n].isDir
    ensures |Subdirs(entries)| >= 1
  {
    assert n in Subdirs(entries);
  }

  lemma NoneLeft(s: set<(nat, Name)>, x: (nat, Name))
    requires |s| == 0
    ensures x !in s
  {
  }

  lemma RefsFreed(t: Table, i: nat, j: nat)
    requires i in t && t[i].entries == map[]
    ensures Refs(Free(t, i), j) == Refs(t, j)
  {
  }

  lemma NoRefs(t: Table, i: nat, d: nat)
    requires Refs(t, i) == {} && d in t
    ensures forall n :: n in t[d].entries ==> t[d].entries[n].ino != i
  {
    forall n | n in t[d].entries ensures t[d].entries[n].ino != i {
      assert (d, n) !in Refs(t, i);
    }
  }

  /** A loose inode without entries can be freed: nothing names it. */
  lemma FreeGood(t: Table, root: nat, loose: set<nat>, i: nat)
    requires GoodBut(t, root, loose) && i in loose && t[i].entries == map[]
    ensures GoodBut(Free(t, i), root, loose - {i})
  {
    hide Refs, Subdirs;
    var u := Free(t, i);
    assert NamedOnce(t, root, i, loose);
    forall j | j in u
      ensures DirCounts(u, j) && FileCounts(u, j, loose - {i}) && NamedOnce(u, root, j, loose - {i}) && LinksOk(u, j)
    {
      assert DirCounts(t, j) && FileCounts(t, j, loose) && NamedOnce(t, root, j, loose) && LinksOk(t, j);
      RefsFreed(t, i, j);
      NoRefs(t, i, j);
      forall n | n in u[j].entries ensures LinkOk(u, u[j].entries[n]) {
        assert LinkOk(t, t[j].entries[n]);
      }
    }
  }

  lemma RefsNew(t: Table, i: nat, node: Inode, j: nat)
    requires i !in t && node.entries == map[]
    ensures Refs(t[i := node], j) == Refs(t, j)
  {
  }

  lemma NothingNames(t: Table, i: nat)
    requires i !in t && forall d :: d in t ==> LinksOk(t, d)
    ensures Refs(t, i) == {}
  {
  }

  /** A new inode that nothing names yet. */
  lemma NewGood(t: Table, root: nat, i: nat, node: Inode)
    requires Good(t, root) && i !in t && node.entries == map[] && node.nlink == if node.isDir then 2 else 0
    ensures GoodBut(t[i := node], root, {i})
  {
    hide Refs;
    var u := t[i := node];
    NothingNames(t, i);
    forall j | j in u ensures DirCounts(u, j) && FileCounts(u, j, {i}) && NamedOnce(u, root, j, {i}) && LinksOk(u, j) {
      RefsNew(t, i, node, j);
      if j != i {
        assert DirCounts(t, j) && FileCounts(t, j, {}) && NamedOnce(t, root, j, {}) && LinksOk(t, j);
        forall n | n in u[j].entries ensures LinkOk(u, u[j].entries[n]) {
          assert LinkOk(t, t[j].entries[n]);
        }
      }
    }
  }

  // --- whole operations --------------------------------------------------------------------------

  function Made(t: Table, parent: nat, name: Name, ino: nat, isDir: bool): Table
    requires parent in t && ino !in t
  {
    AddName(t[ino := Inode(isDir, if isDir then 2 else 0, false, map[])], parent, name, Link(ino, isDir))
  }

  function Removed(t: Table, d: nat, n: Name): Table
    requires d in t && n in t[d].entries && t[d].entries[n].ino in t
  {
    var l := t[d].entries[n];
    if l.isDir || t[l.ino].nlink <= 1 then Free(DelName(t, d, n), l.ino) else DelName(t, d, n)
  }

  /** n2 of p2 names what n1 of p1 named; what it named before loses that name. */
  function Renamed(t: Table, p1: nat, n1: Name, p2: nat, n2: Name): Table
    requires CanRename(t, p1, n1, p2, n2)
  {
    var l := t[p1].entries[n1];
    if n2 in t[p2].entries && t[p2].entries[n2].ino == l.ino then t
    else
      var u := if n2 in t[p2].entries then Removed(t, p2, n2) else t;
      AddName(DelName(u, p1, n1), p2, n2, l)
  }

  /** The source is there; what it would replace is of the same kind, and empty if a directory. */
  ghost predicate CanRename(t: Table, p1: nat, n1: Name, p2: nat, n2: Name) {
    && p1 in t && p2 in t && t[p1].isDir && t[p2].isDir && n1 in t[p1].entries
    && LinkOk(t, t[p1].entries[n1])
    && (n2 in t[p2].entries && t[p2].entries[n2].ino != t[p1].entries[n1].ino ==> Replaceable(t, t[p2].entries[n2], t[p1].entries[n1]))
  }

  ghost predicate Replaceable(t: Table, was: Link, l: Link) {
    LinkOk(t, was) && was.isDir == l.isDir && (was.isDir ==> t[was.ino].entries == map[])
  }

  lemma MadeGood(t: Table, root: nat, parent: nat, name: Name, ino: nat, isDir: bool)
    requires Good(t, root) && parent in t && t[parent].isDir && name !in t[parent].entries && ino !in t
    ensures Good(Made(t, parent, name, ino, isDir), root)
  {
    var node := Inode(isDir, if isDir then 2 else 0, false, map[]);
    NewGood(t, root, ino, node);
    AddNameGood(t[ino := node], root, {ino}, parent, name, Link(ino, isDir));
    assert {ino} - {ino} == {};
  }

  lemma RemovedGood(t: Table, root: nat, d: nat, n: Name)
    requires Good(t, root) && d in t && t[d].isDir && n in t[d].entries
    requires LinkOk(t, t[d].entries[n]) && (t[d].entries[n].isDir ==> t[t[d].entries[n].ino].entries == map[])
    ensures Good(Removed(t, d, n), root)
  {
    var l := t[d].entries[n];
    DelNameGood(t, root, d, n);
    if l.isDir || t[l.ino].nlink <= 1 {
      assert FileCounts(t, l.ino, {});
      var u := DelName(t, d, n);
      assert l.isDir ==> l.ino != d;
      FreeGood(u, root, {l.ino}, l.ino);
      assert {l.ino} - {l.ino} == {};
    }
  }

  lemma RenamedGood(t: Table, root: nat, p1: nat, n1: Name, p2: nat, n2: Name)
    requires Good(t, root) && CanRename(t, p1, n1, p2, n2)
    ensures Good(Renamed(t, p1, n1, p2, n2), root)
  {
    hide GoodBut, AddName, DelName, Removed;
    var l := t[p1].entries[n1];
    if !(n2 in t[p2].entries && t[p2].entries[n2].ino == l.ino) {
      var u := if n2 in t[p2].entries then Removed(t, p2, n2) else t;
      if n2 in t[p2].entries {
        RemovedGood(t, root, p2, n2);
        ReplacedKeeps(t, p1, n1, p2, n2);
      }
      MovedGood(u, root, p1, n1, p2, n2);
    }
  }

  lemma MovedGood(t: Table, root: nat, p1: nat, n1: Name, p2: nat, n2: Name)
    requires Good(t, root) && p1 in t && t[p1].isDir && n1 in t[p1].entries && p2 in t && t[p2].isDir && n2 !in t[p2].entries
    requires t[p1].entries[n1].ino in t
    ensures Good(AddName(DelName(t, p1, n1), p2, n2, t[p1].entries[n1]), root)
  {
    var l := t[p1].entries[n1];
    DelNameGood(t, root, p1, n1);
    var v := DelName(t, p1, n1);
    DelNameParts(t, p1, n1, p2, n2);
    hide GoodBut, AddName, DelName;
    AddNameGood(v, root, Loosened(t, l), p2, n2, l);
    assert Loosened(t, l) - {l.ino} == {};
  }

  lemma DelNameParts(t: Table, d: nat, n: Name, p: nat, m: Name)
    requires d in t && n in t[d].entries && LinkOk(t, t[d].entries[n]) && p in t && m !in t[p].entries
    ensures var u := DelName(t, d, n);
      p in u && u[p].isDir == t[p].isDir && m !in u[p].entries && LinkOk(u, t[d].entries[n])
  {
  }

  /** Removing what is replaced touches neither the parents' other names nor what is moved. */
  lemma ReplacedKeeps(t: Table, p1: nat, n1: Name, p2: nat, n2: Name)
    requires CanRename(t, p1, n1, p2, n2) && n2 in t[p2].entries && t[p2].entries[n2].ino != t[p1].entries[n1].ino
    ensures var u := Removed(t, p2, n2);
      && p1 in u && p2 in u && u[p1].isDir && u[p2].isDir && n1 in u[p1].entries && u[p1].entries[n1] == t[p1].entries[n1]
      && n2 !in u[p2].entries && t[p1].entries[n1].ino in u
      && u[t[p1].entries[n1].ino].isDir == t[p1].entries[n1].isDir
  {
    var was := t[p2].entries[n2];
    assert was.isDir ==> was.ino != p1 && was.ino != p2;
  }

  // --- the names alone ------------------------------------------------------------------------------

  /** What the name n of directory d stands for. */
  function EntryAt(t: Table, d: nat, n: Name): Option<Link> {
    if d in t && n in t[d].entries then Some(t[d].entries[n]) else None
  }

  lemma AddNameView(t: Table, d: nat, n: Name, l: Link)
    requires d in t && l.ino in t
    ensures forall x, m :: EntryAt(AddName(t, d, n, l), x, m) == if x == d && m == n then Some(l) else EntryAt(t, x, m)
    ensures forall x :: x in AddName(t, d, n, l) <==> x in t
    ensures forall x :: x in t ==> AddName(t, d, n, l)[x].isDir == t[x].isDir
  {
  }

  lemma DelNameView(t: Table, d: nat, n: Name)
    requires d in t && n in t[d].entries && t[d].entries[n].ino in t
    ensures forall x, m :: EntryAt(DelName(t, d, n), x, m) == if x == d && m == n then None else EntryAt(t, x, m)
    ensures forall x :: x in DelName(t, d, n) <==> x in t
    ensures forall x :: x in t ==> DelName(t, d, n)[x].isDir == t[x].isDir
  {
  }

  lemma FreeView(t: Table, i: nat)
    requires i in t && t[i].entries == map[]
    ensures forall x, m :: EntryAt(Free(t, i), x, m) == EntryAt(t, x, m)
  {
  }

  /** Removing a name takes that name and nothing else; the inode goes with its last name. */
  lemma RemovedView(t: Table, root: nat, d: nat, n: Name)
    requires Good(t, root) && d in t && t[d].isDir && n in t[d].entries
    requires LinkOk(t, t[d].entries[n]) && (t[d].entries[n].isDir ==> t[t[d].entries[n].ino].entries == map[])
    ensures var u, l := Removed(t, d, n), t[d].entries[n];
      && (forall x, m :: EntryAt(u, x, m) == if x == d && m == n then None else EntryAt(t, x, m))
      && (forall x :: x in u <==> x in t && !(x == l.ino && (l.isDir || t[x].nlink == 1)))
      && (forall x :: x in u ==> u[x].isDir == t[x].isDir)
  {
    DelNameGood(t, root, d, n);
    assert FileCounts(t, t[d].entries[n].ino, {});
    RemovedNames(t, d, n);
  }

  lemma RemovedNames(t: Table, d: nat, n: Name)
    requires d in t && t[d].isDir && n in t[d].entries && LinkOk(t, t[d].entries[n])
    requires var l := t[d].entries[n]; t[l.ino].entries == map[] && t[l.ino].nlink >= 1
    ensures var u, l := Removed(t, d, n), t[d].entries[n];
      && (forall x, m :: EntryAt(u, x, m) == if x == d && m == n then None else EntryAt(t, x, m))
      && (forall x :: x in u <==> x in t && !(x == l.ino && (l.isDir || t[x].nlink == 1)))
      && (forall x :: x in u ==> u[x].isDir == t[x].isDir)
  {
    DelNameView(t, d, n);
    DelNameTarget(t, d, n);
    var l, v := t[d].entries[n], DelName(t, d, n);
    hide DelName, EntryAt;
    if l.isDir || t[l.ino].nlink <= 1 {
      FreeView(v, l.ino);
    }
  }

  lemma DelNameTarget(t: Table, d: nat, n: Name)
    requires d in t && t[d].isDir && n in t[d].entries && LinkOk(t, t[d].entries[n])
    requires t[t[d].entries[n].ino].entries == map[]
    ensures var l := t[d].entries[n]; l.ino in DelName(t, d, n) && DelName(t, d, n)[l.ino].entries == map[]
  {
    assert t[d].entries[n].ino != d;
  }

  // --- the steps as the operations take them ---------------------------------------------------------

  lemma MadeIs(t: Table, parent: nat, name: Name, ino: nat, isDir: bool)
    requires parent in t && ino !in t
    ensures var p := t[parent];
      var q := p.(entries := p.entries[name := Link(ino, isDir)], nlink := p.nlink + if isDir then 1 else 0);
      t[ino := Inode(isDir, if isDir then 2 else 1, false, map[])][parent := q] == Made(t, parent, name, ino, isDir)
  {
    hide Refs, Subdirs, GoodBut;
  }

  lemma LinkIs(t: Table, parent: nat, name: Name, ino: nat)
    requires parent in t && ino in t && parent != ino
    ensures var p, i := t[parent], t[ino];
      t[ino := i.(nlink := i.nlink + 1)][parent := p.(entries := p.entries[name := Link(ino, false)])]
      == AddName(t, parent, name, Link(ino, false))
  {
  }

  /** The directory and the inode are written apart; together that is the removal. */
  lemma RemovedIs(t: Table, d: nat, n: Name)
    requires d in t && n in t[d].entries && t[d].entries[n].ino in t && t[d].entries[n].ino != d
    ensures var p, l := t[d], t[d].entries[n]; var i, rest := t[l.ino], p.entries - {n};
      Removed(t, d, n) ==
        if l.isDir then Free(t, l.ino)[d := p.(entries := rest, nlink := Less(p.nlink))]
        else if Less(i.nlink) == 0 then Free(t, l.ino)[d := p.(entries := rest)]
        else t[l.ino := i.(nlink := Less(i.nlink))][d := p.(entries := rest)]
  {
  }

  /** Moving a name within a directory, or from one to another. */
  lemma MovedIs(t: Table, p1: nat, n1: Name, p2: nat, n2: Name)
    requires p1 in t && p2 in t && n1 in t[p1].entries && t[p1].entries[n1].ino in t
    requires var l := t[p1].entries[n1];
      if l.isDir then t[p1].nlink >= 1 else t[l.ino].nlink >= 1 && l.ino != p1 && l.ino != p2
    ensures var l := t[p1].entries[n1]; var k := if l.isDir then 1 else 0; var rest := t[p1].entries - {n1};
      AddName(DelName(t, p1, n1), p2, n2, l) ==
        if p1 == p2 then t[p2 := t[p2].(entries := rest[n2 := l])]
        else t[p1 := t[p1].(entries := rest, nlink := if l.isDir then Less(t[p1].nlink) else t[p1].nlink)]
              [p2 := t[p2].(entries := t[p2].entries[n2 := l], nlink := t[p2].nlink + k)]
  {
  }
}
