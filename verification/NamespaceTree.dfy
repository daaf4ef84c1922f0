/** Whether every directory still hangs below the root. */
module NamespaceTree {
  import opened Wrappers
  import opened NamespaceLaws

  // --- reachability -------------------------------------------------------------------------------

  /** Directory d names c. */
  ghost predicate Above(t: Table, d: nat, c: nat) {
    exists n :: EntryAt(t, d, n) == Some(Link(c, true))
  }

  /** From x upwards, each named by the next, to y. */
  ghost predicate Chain(t: Table, path: seq<nat>, x: nat, y: nat) {
    && path != [] && path[0] == x && path[|path| - 1] == y
    && forall i :: 0 <= i < |path| - 1 ==> Above(t, path[i + 1], path[i])
  }

  ghost predicate Reaches(t: Table, x: nat, y: nat) {
    exists path :: Chain(t, path, x, y)
  }

  /** Every directory hangs below the root. */
  ghost predicate Connected(t: Table, root: nat) {
    forall x :: x in t && t[x].isDir ==> Reaches(t, x, root)
  }

  lemma ChainTail(t: Table, path: seq<nat>, x: nat, y: nat, k: nat)
    requires Chain(t, path, x, y) && k < |path|
    ensures Chain(t, path[k..], path[k], y)
  {
    forall i | 0 <= i < |path[k..]| - 1 ensures Above(t, path[k..][i + 1], path[k..][i]) {
      assert Above(t, path[k + i + 1], path[k + i]);
    }
  }

  lemma ChainJoin(t: Table, a: seq<nat>, x: nat, y: nat, b: seq<nat>, z: nat, w: nat)
    requires Chain(t, a, x, y) && Chain(t, b, z, w) && Above(t, z, y)
    ensures Chain(t, a + b, x, w)
  {
    var c := a + b;
    forall i | 0 <= i < |c| - 1 ensures Above(t, c[i + 1], c[i]) {
      if i < |a| - 1 {
        assert Above(t, a[i + 1], a[i]);
      } else if i >= |a| {
        assert Above(t, b[i - |a| + 1], b[i - |a|]);
      }
    }
  }

  lemma ChainHead(t: Table, path: seq<nat>, x: nat, y: nat, k: nat)
    requires Chain(t, path, x, y) && k < |path|
    ensures Chain(t, path[..k + 1], x, path[k])
  {
    var front := path[..k + 1];
    forall i | 0 <= i < |front| - 1 ensures Above(t, front[i + 1], front[i]) {
      assert Above(t, path[i + 1], path[i]);
    }
  }

  /** A directory is named in one place only. */
  lemma OneParent(t: Table, root: nat, d: nat, e: nat, c: nat)
    requires Good(t, root) && Above(t, d, c) && Above(t, e, c)
    ensures d == e && c != root && c in t && t[c].isDir
  {
    var n :| EntryAt(t, d, n) == Some(Link(c, true));
    var m :| EntryAt(t, e, m) == Some(Link(c, true));
    assert LinksOk(t, d) && LinkOk(t, t[d].entries[n]);
    assert NamedOnce(t, root, c, {});
    assert {(d, n), (e, m)} <= Refs(t, c);
    Size2(Refs(t, c), (d, n), (e, m));
  }

  lemma Size2(s: set<(nat, Name)>, x: (nat, Name), y: (nat, Name))
    requires x in s && y in s && |s| <= 1
    ensures x == y && |s| == 1
  {
    assert s == {x} + (s - {x});
    assert |s - {x}| == |s| - 1;
  }

  /** The edges that an operation leaves as they were. */
  ghost predicate SameEdges(t: Table, u: Table, path: seq<nat>) {
    forall i :: 0 <= i < |path| - 1 ==> Above(t, path[i + 1], path[i]) ==> Above(u, path[i + 1], path[i])
  }

  lemma ChainKept(t: Table, u: Table, path: seq<nat>, x: nat, y: nat)
    requires Chain(t, path, x, y) && SameEdges(t, u, path)
    ensures Chain(u, path, x, y)
  {
  }

  /** The root alone, with no names in it. */
  lemma RootAlone(t: Table, root: nat)
    requires t == map[root := Inode(true, 2, false, map[])]
    ensures Good(t, root) && Connected(t, root)
  {
    assert Subdirs(t[root].entries) == {};
    assert Refs(t, root) == {};
    assert Chain(t, [root], root, root);
  }

  // --- making and removing ---------------------------------------------------------------------

  lemma MadeView(t: Table, parent: nat, name: Name, ino: nat, isDir: bool)
    requires parent in t && ino !in t && name !in t[parent].entries
    ensures var u := Made(t, parent, name, ino, isDir);
      && (forall x, m :: EntryAt(u, x, m) == if x == parent && m == name then Some(Link(ino, isDir)) else EntryAt(t, x, m))
      && (forall x :: x in u <==> x in t || x == ino)
      && (forall x :: x in t ==> u[x].isDir == t[x].isDir)
  {
    var v := t[ino := Inode(isDir, if isDir then 2 else 0, false, map[])];
    AddNameView(v, parent, name, Link(ino, isDir));
    assert forall x, m :: EntryAt(v, x, m) == EntryAt(t, x, m);
  }

  lemma MadeConnected(t: Table, root: nat, parent: nat, name: Name, ino: nat, isDir: bool)
    requires Good(t, root) && Connected(t, root)
    requires parent in t && t[parent].isDir && name !in t[parent].entries && ino !in t
    ensures Connected(Made(t, parent, name, ino, isDir), root)
  {
    var u := Made(t, parent, name, ino, isDir);
    MadeView(t, parent, name, ino, isDir);
    hide Made, GoodBut;
    forall d, c | Above(t, d, c) ensures Above(u, d, c) {
      var n :| EntryAt(t, d, n) == Some(Link(c, true));
      assert EntryAt(u, d, n) == Some(Link(c, true));
    }
    forall x | x in u && u[x].isDir ensures Reaches(u, x, root) {
      var from := if x == ino then parent else x;
      assert Reaches(t, from, root);
      var path :| Chain(t, path, from, root);
      ChainKept(t, u, path, from, root);
      if x == ino {
        assert EntryAt(u, parent, name) == Some(Link(ino, isDir));
        NewIsDir(t, parent, name, ino, isDir);
        assert Chain(u, [ino], ino, ino);
        ChainJoin(u, [ino], ino, ino, path, parent, root);
        assert Chain(u, [ino] + path, ino, root);
      }
    }
  }

  lemma NewIsDir(t: Table, parent: nat, name: Name, ino: nat, isDir: bool)
    requires parent in t && ino !in t
    ensures ino in Made(t, parent, name, ino, isDir) && Made(t, parent, name, ino, isDir)[ino].isDir == isDir
  {
  }

  /** One more name for a file takes no directory's way up. */
  lemma LinkConnected(t: Table, root: nat, parent: nat, name: Name, ino: nat)
    requires Connected(t, root) && parent in t && ino in t && !t[ino].isDir && name !in t[parent].entries
    ensures Connected(AddName(t, parent, name, Link(ino, false)), root)
  {
    var u := AddName(t, parent, name, Link(ino, false));
    AddNameView(t, parent, name, Link(ino, false));
    hide AddName;
    forall d, c | Above(t, d, c) ensures Above(u, d, c) {
      var n :| EntryAt(t, d, n) == Some(Link(c, true));
      assert EntryAt(u, d, n) == Some(Link(c, true));
    }
    forall x | x in u && u[x].isDir ensures Reaches(u, x, root) {
      assert Reaches(t, x, root);
      var path :| Chain(t, path, x, root);
      ChainKept(t, u, path, x, root);
    }
  }

  /** Removing a file, or a directory that names nothing, takes no other directory's way up. */
  lemma RemovedConnected(t: Table, root: nat, d: nat, n: Name)
    requires Good(t, root) && Connected(t, root) && d in t && t[d].isDir && n in t[d].entries
    requires LinkOk(t, t[d].entries[n]) && (t[d].entries[n].isDir ==> t[t[d].entries[n].ino].entries == map[])
    ensures Connected(Removed(t, d, n), root)
  {
    var u, gone := Removed(t, d, n), t[d].entries[n];
    RemovedView(t, root, d, n);
    assert FileCounts(t, gone.ino, {});
    hide Removed, GoodBut;
    forall x | x in u && u[x].isDir ensures Reaches(u, x, root) {
      assert Reaches(t, x, root);
      var path :| Chain(t, path, x, root);
      forall i | 0 <= i < |path| - 1 && Above(t, path[i + 1], path[i]) ensures Above(u, path[i + 1], path[i]) {
        OffTheWay(t, path, x, root, gone.ino, i);
        EdgeStays(t, u, d, n, path[i + 1], path[i]);
      }
      ChainKept(t, u, path, x, root);
    }
  }

  /** An inode that names nothing is on a way up only as its start. */
  lemma OffTheWay(t: Table, path: seq<nat>, x: nat, y: nat, gone: nat, i: nat)
    requires Chain(t, path, x, y) && gone in t && i < |path| - 1
    requires t[gone].entries == map[]
    ensures path[i + 1] != gone && (x != gone ==> path[i] != gone)
  {
    assert Above(t, path[i + 1], path[i]);
    if i > 0 {
      assert Above(t, path[i], path[i - 1]);
    }
  }

  lemma EdgeStays(t: Table, u: Table, d: nat, n: Name, e: nat, c: nat)
    requires d in t && n in t[d].entries && Above(t, e, c)
    requires forall x, m :: EntryAt(u, x, m) == if x == d && m == n then None else EntryAt(t, x, m)
    requires c != t[d].entries[n].ino || !t[d].entries[n].isDir
    ensures Above(u, e, c)
  {
    var m :| EntryAt(t, e, m) == Some(Link(c, true));
    assert EntryAt(u, e, m) == Some(Link(c, true));
  }

  // --- renaming ----------------------------------------------------------------------------------

  /** A rename that does something: the target name is not the source already. */
  ghost predicate Moves(t: Table, p1: nat, n1: Name, p2: nat, n2: Name) {
    CanRename(t, p1, n1, p2, n2) && !(n2 in t[p2].entries && t[p2].entries[n2].ino == t[p1].entries[n1].ino)
  }

  /** After a rename n2 of p2 stands for what n1 of p1 stood for; every other name is as before. */
  lemma RenamedView(t: Table, root: nat, p1: nat, n1: Name, p2: nat, n2: Name)
    requires Good(t, root) && Moves(t, p1, n1, p2, n2)
    ensures var u := Renamed(t, p1, n1, p2, n2);
      && (forall x, m :: EntryAt(u, x, m) ==
            if x == p2 && m == n2 then EntryAt(t, p1, n1) else if x == p1 && m == n1 then None else EntryAt(t, x, m))
      && (forall x :: x in u ==> x in t && u[x].isDir == t[x].isDir)
      && (forall x :: x in t && x !in u ==> EntryAt(t, p2, n2).Some? && EntryAt(t, p2, n2).value.ino == x)
      && (forall x :: x in u && u[x].isDir ==> !(EntryAt(t, p2, n2).Some? && EntryAt(t, p2, n2).value.ino == x))
  {
    var l := t[p1].entries[n1];
    var v := if n2 in t[p2].entries then Removed(t, p2, n2) else t;
    if n2 in t[p2].entries {
      RemovedView(t, root, p2, n2);
      ReplacedKeeps(t, p1, n1, p2, n2);
    }
    DelNameView(v, p1, n1);
    AddNameView(DelName(v, p1, n1), p2, n2, l);
    hide Removed, DelName, AddName, GoodBut;
  }

  /** The only way up that changes is that of the inode moved. */
  lemma RenamedEdges(t: Table, root: nat, p1: nat, n1: Name, p2: nat, n2: Name, d: nat, c: nat)
    requires Good(t, root) && Moves(t, p1, n1, p2, n2)
    ensures var u, l := Renamed(t, p1, n1, p2, n2), t[p1].entries[n1];
      && (c == l.ino ==> (Above(u, d, c) <==> l.isDir && d == p2))
      && (c != l.ino && Above(u, d, c) ==> Above(t, d, c))
      && (c != l.ino && Above(t, d, c) && c in u ==> Above(u, d, c))
  {
    var u, l := Renamed(t, p1, n1, p2, n2), t[p1].entries[n1];
    RenamedView(t, root, p1, n1, p2, n2);
    assert LinksOk(t, p1) && LinkOk(t, l);
    hide Renamed;
    if Above(u, d, c) {
      EdgeWas(t, u, root, p1, n1, p2, n2, d, c);
    }
    if c == l.ino && l.isDir && d == p2 {
      assert EntryAt(u, p2, n2) == Some(Link(c, true));
    }
    if c != l.ino && Above(t, d, c) && c in u {
      var m :| EntryAt(t, d, m) == Some(Link(c, true));
      assert LinksOk(t, d) && LinkOk(t, t[d].entries[m]);
      assert EntryAt(u, d, m) == Some(Link(c, true));
    }
  }

  function MovedEntry(t: Table, p1: nat, n1: Name, p2: nat, n2: Name, x: nat, m: Name): Option<Link> {
    if x == p2 && m == n2 then EntryAt(t, p1, n1) else if x == p1 && m == n1 then None else EntryAt(t, x, m)
  }

  lemma EdgeWas(t: Table, u: Table, root: nat, p1: nat, n1: Name, p2: nat, n2: Name, d: nat, c: nat)
    requires Good(t, root) && EntryAt(t, p1, n1).Some? && Above(u, d, c)
    requires forall x, m :: EntryAt(u, x, m) == MovedEntry(t, p1, n1, p2, n2, x, m)
    ensures var l := EntryAt(t, p1, n1).value;
      if c == l.ino then l.isDir && d == p2 else Above(t, d, c)
  {
    var m :| EntryAt(u, d, m) == Some(Link(c, true));
    if !(d == p2 && m == n2) {
      assert EntryAt(t, d, m) == Some(Link(c, true));
      if c == EntryAt(t, p1, n1).value.ino {
        assert LinksOk(t, d) && LinkOk(t, t[d].entries[m]);
        NamedTwice(t, root, c, d, m, p1, n1);
      }
    }
  }

  lemma NamedTwice(t: Table, root: nat, c: nat, d: nat, m: Name, e: nat, n: Name)
    requires Good(t, root) && c in t && t[c].isDir && d in t && m in t[d].entries && t[d].entries[m].ino == c
    requires e in t && n in t[e].entries && t[e].entries[n].ino == c
    ensures (d, m) == (e, n)
  {
    assert NamedOnce(t, root, c, {});
    assert (d, m) in Refs(t, c) && (e, n) in Refs(t, c);
    Size2(Refs(t, c), (d, m), (e, n));
  }

  /** A way up that the moved inode is not on, except perhaps as its end, stays. */
  lemma WayStays(t: Table, root: nat, p1: nat, n1: Name, p2: nat, n2: Name, path: seq<nat>, x: nat, y: nat)
    requires Good(t, root) && Moves(t, p1, n1, p2, n2) && Chain(t, path, x, y)
    requires x in Renamed(t, p1, n1, p2, n2)
    requires forall i :: 0 <= i < |path| - 1 ==> path[i] != t[p1].entries[n1].ino
    ensures Chain(Renamed(t, p1, n1, p2, n2), path, x, y)
  {
    var u := Renamed(t, p1, n1, p2, n2);
    RenamedView(t, root, p1, n1, p2, n2);
    hide Renamed, GoodBut;
    forall i | 0 <= i < |path| - 1 && Above(t, path[i + 1], path[i]) ensures Above(u, path[i + 1], path[i]) {
      RenamedEdges(t, root, p1, n1, p2, n2, path[i + 1], path[i]);
      OnTheWay(t, root, path, x, y, i);
      if n2 in t[p2].entries {
        Replaced(t, root, p1, n1, p2, n2, path, x, y, i);
      }
    }
    ChainKept(t, u, path, x, y);
  }

  lemma OnTheWay(t: Table, root: nat, path: seq<nat>, x: nat, y: nat, i: nat)
    requires Good(t, root) && Chain(t, path, x, y) && i < |path| - 1
    ensures path[i] in t && t[path[i]].isDir
  {
    assert Above(t, path[i + 1], path[i]);
    OneParent(t, root, path[i + 1], path[i + 1], path[i]);
  }

  /** What a rename replaces is not on the way up of anything that is still there. */
  lemma Replaced(t: Table, root: nat, p1: nat, n1: Name, p2: nat, n2: Name, path: seq<nat>, x: nat, y: nat, i: nat)
    requires Good(t, root) && Moves(t, p1, n1, p2, n2) && Chain(t, path, x, y) && i < |path| - 1
    requires n2 in t[p2].entries && x in Renamed(t, p1, n1, p2, n2)
    ensures path[i] != t[p2].entries[n2].ino
  {
    var gone := t[p2].entries[n2];
    OnTheWay(t, root, path, x, y, i);
    RenamedView(t, root, p1, n1, p2, n2);
    hide Renamed, GoodBut;
    if i > 0 {
      assert Above(t, path[i], path[i - 1]);
    }
  }

  lemma {:induction false} FirstAt(path: seq<nat>, m: nat) returns (k: nat)
    requires m in path
    ensures k < |path| && path[k] == m && forall i :: 0 <= i < k ==> path[i] != m
  {
    if path[0] == m {
      k := 0;
    } else {
      k := FirstAt(path[1..], m);
      k := k + 1;
    }
  }

  /** Below m, m included, in the tree as it is. */
  ghost predicate Below(t: Table, x: nat, m: nat) {
    Reaches(t, x, m)
  }

  lemma RenameReaches(t: Table, root: nat, p1: nat, n1: Name, p2: nat, n2: Name, x: nat)
    requires Good(t, root) && Connected(t, root) && Moves(t, p1, n1, p2, n2)
    requires !(t[p1].entries[n1].isDir && Below(t, p2, t[p1].entries[n1].ino))
    requires x in Renamed(t, p1, n1, p2, n2) && Renamed(t, p1, n1, p2, n2)[x].isDir
    ensures Reaches(Renamed(t, p1, n1, p2, n2), x, root)
  {
    var u, l := Renamed(t, p1, n1, p2, n2), t[p1].entries[n1];
    RenamedView(t, root, p1, n1, p2, n2);
    hide Renamed, GoodBut;
    assert Reaches(t, x, root);
    var path :| Chain(t, path, x, root);
    if forall i :: 0 <= i < |path| - 1 ==> path[i] != l.ino {
      WayStays(t, root, p1, n1, p2, n2, path, x, root);
    } else {
      ReachesThrough(t, root, p1, n1, p2, n2, x, path);
    }
  }

  /** A way up through the moved directory goes on from its new place. */
  lemma ReachesThrough(t: Table, root: nat, p1: nat, n1: Name, p2: nat, n2: Name, x: nat, path: seq<nat>)
    requires Good(t, root) && Connected(t, root) && Moves(t, p1, n1, p2, n2)
    requires !(t[p1].entries[n1].isDir && Below(t, p2, t[p1].entries[n1].ino))
    requires x in Renamed(t, p1, n1, p2, n2) && Chain(t, path, x, root)
    requires exists j :: 0 <= j < |path| - 1 && path[j] == t[p1].entries[n1].ino
    ensures Reaches(Renamed(t, p1, n1, p2, n2), x, root)
  {
    var u, l := Renamed(t, p1, n1, p2, n2), t[p1].entries[n1];
    var j :| 0 <= j < |path| - 1 && path[j] == l.ino;
    OnTheWay(t, root, path, x, root, j);
    assert LinksOk(t, p1) && LinkOk(t, l);
    assert p2 in t && t[p2].isDir && p2 in u by { RenamedView(t, root, p1, n1, p2, n2); TargetStays(t, p1, n1, p2, n2); }
    hide Renamed, GoodBut, Moves;
    HeadStays(t, root, p1, n1, p2, n2, x, path);
    TargetReaches(t, root, p1, n1, p2, n2);
    RenamedEdges(t, root, p1, n1, p2, n2, p2, l.ino);
    ReachesJoin(u, x, l.ino, p2, root);
  }

  lemma HeadStays(t: Table, root: nat, p1: nat, n1: Name, p2: nat, n2: Name, x: nat, path: seq<nat>)
    requires Good(t, root) && Moves(t, p1, n1, p2, n2) && x in Renamed(t, p1, n1, p2, n2)
    requires Chain(t, path, x, root) && t[p1].entries[n1].ino in path
    ensures Reaches(Renamed(t, p1, n1, p2, n2), x, t[p1].entries[n1].ino)
  {
    var m := t[p1].entries[n1].ino;
    hide Renamed, GoodBut, Moves;
    var k := FirstAt(path, m);
    ChainHead(t, path, x, root, k);
    WayStays(t, root, p1, n1, p2, n2, path[..k + 1], x, m);
  }

  lemma TargetReaches(t: Table, root: nat, p1: nat, n1: Name, p2: nat, n2: Name)
    requires Good(t, root) && Connected(t, root) && Moves(t, p1, n1, p2, n2) && p2 in Renamed(t, p1, n1, p2, n2)
    requires !Below(t, p2, t[p1].entries[n1].ino)
    ensures Reaches(Renamed(t, p1, n1, p2, n2), p2, root)
  {
    assert p2 in t && t[p2].isDir;
    hide Renamed, GoodBut, Moves;
    assert Reaches(t, p2, root);
    var way :| Chain(t, way, p2, root);
    forall i | 0 <= i < |way| - 1 ensures way[i] != t[p1].entries[n1].ino {
      ChainHead(t, way, p2, root, i);
    }
    WayStays(t, root, p1, n1, p2, n2, way, p2, root);
  }

  lemma ReachesJoin(u: Table, x: nat, m: nat, p: nat, y: nat)
    requires Reaches(u, x, m) && Above(u, p, m) && Reaches(u, p, y)
    ensures Reaches(u, x, y)
  {
    var a :| Chain(u, a, x, m);
    var b :| Chain(u, b, p, y);
    ChainJoin(u, a, x, m, b, p, y);
  }

  lemma TargetStays(t: Table, p1: nat, n1: Name, p2: nat, n2: Name)
    requires Moves(t, p1, n1, p2, n2)
    ensures p2 in Renamed(t, p1, n1, p2, n2)
  {
    if n2 in t[p2].entries {
      ReplacedKeeps(t, p1, n1, p2, n2);
    }
  }

  /** Going up from inside the moved directory leads back into it, never to the root. */
  lemma {:induction false} Trapped(t: Table, root: nat, p1: nat, n1: Name, p2: nat, n2: Name, path: seq<nat>, x: nat, y: nat)
    requires Good(t, root) && Moves(t, p1, n1, p2, n2)
    requires t[p1].entries[n1].isDir && Below(t, p2, t[p1].entries[n1].ino)
    requires Chain(Renamed(t, p1, n1, p2, n2), path, x, y) && Below(t, x, t[p1].entries[n1].ino)
    ensures Below(t, y, t[p1].entries[n1].ino)
    decreases |path|
  {
    var u, m := Renamed(t, p1, n1, p2, n2), t[p1].entries[n1].ino;
    if |path| > 1 {
      assert Above(u, path[1], path[0]);
      RenamedEdges(t, root, p1, n1, p2, n2, path[1], path[0]);
      if x != m {
        var up :| Chain(t, up, x, m);
        assert Above(t, up[1], up[0]);
        OneParent(t, root, path[1], up[1], x);
        ChainTail(t, up, x, m, 1);
      }
      ChainTail(u, path, x, y, 1);
      Trapped(t, root, p1, n1, p2, n2, path[1..], path[1], y);
    }
  }

  lemma MovedStays(t: Table, root: nat, p1: nat, n1: Name, p2: nat, n2: Name)
    requires Good(t, root) && Moves(t, p1, n1, p2, n2)
    ensures var u, l := Renamed(t, p1, n1, p2, n2), t[p1].entries[n1]; l.ino in u && u[l.ino].isDir == l.isDir && l.ino != root
  {
    RenamedView(t, root, p1, n1, p2, n2);
    DelNameGood(t, root, p1, n1);
  }

  lemma RootNotBelow(t: Table, root: nat, m: nat)
    requires Good(t, root) && m != root
    ensures !Below(t, root, m)
  {
    if Below(t, root, m) {
      var path :| Chain(t, path, root, m);
      assert Above(t, path[1], path[0]);
      OneParent(t, root, path[1], path[1], root);
    }
  }

  /**
  A rename keeps every directory reachable from the root exactly when it does not move a directory
  to a place inside itself.
  */
  lemma RenameConnected(t: Table, root: nat, p1: nat, n1: Name, p2: nat, n2: Name)
    requires Good(t, root) && Connected(t, root) && Moves(t, p1, n1, p2, n2)
    ensures Connected(Renamed(t, p1, n1, p2, n2), root)
            <==> !(t[p1].entries[n1].isDir && Below(t, p2, t[p1].entries[n1].ino))
  {
    var u, l := Renamed(t, p1, n1, p2, n2), t[p1].entries[n1];
    if l.isDir && Below(t, p2, l.ino) {
      RenameTraps(t, root, p1, n1, p2, n2);
    } else {
      forall x | x in u && u[x].isDir ensures Reaches(u, x, root) {
        RenameReaches(t, root, p1, n1, p2, n2, x);
      }
    }
  }

  lemma RenameTraps(t: Table, root: nat, p1: nat, n1: Name, p2: nat, n2: Name)
    requires Good(t, root) && Moves(t, p1, n1, p2, n2)
    requires t[p1].entries[n1].isDir && Below(t, p2, t[p1].entries[n1].ino)
    ensures !Connected(Renamed(t, p1, n1, p2, n2), root)
  {
    var u, l := Renamed(t, p1, n1, p2, n2), t[p1].entries[n1];
    MovedStays(t, root, p1, n1, p2, n2);
    hide Renamed, GoodBut, Moves;
    if Reaches(u, l.ino, root) {
      var path :| Chain(u, path, l.ino, root);
      assert Chain(t, [l.ino], l.ino, l.ino);
      Trapped(t, root, p1, n1, p2, n2, path, l.ino, root);
      RootNotBelow(t, root, l.ino);
    }
  }
}
