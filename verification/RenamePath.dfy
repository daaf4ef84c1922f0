/** Renaming by path: the guard that compares the two paths as text, and what it is worth. */
module RenamePath {
  import opened Wrappers
  import opened NamespaceLaws
  import opened NamespaceTree

  const SLASH: bv16 := 0x2F
  const DOT: bv16 := 0x2E

  /** A path is a sequence of units like a name, with slashes. */
  type Path = Name

  function Split(s: Path): (r: seq<Name>)
    ensures |r| >= 1
  {
    if s == [] then [[]]
    else if s[0] == SLASH then [[]] + Split(s[1..])
    else var r := Split(s[1..]); [[s[0]] + r[0]] + r[1..]
  }

  function Filter(parts: seq<Name>): seq<Name> {
    if parts == [] then []
    else (if parts[0] == [] || parts[0] == [DOT] then [] else [parts[0]]) + Filter(parts[1..])
  }

  /** The components of a path: no empty ones, no dots. */
  function Comps(s: Path): seq<Name> {
    Filter(Split(s))
  }

  function TrimLeft(s: Path): Path {
    if s != [] && s[0] == SLASH then TrimLeft(s[1..]) else s
  }

  function TrimRight(s: Path): Path {
    if s != [] && s[|s| - 1] == SLASH then TrimRight(s[..|s| - 1]) else s
  }

  function Trim(s: Path): Path {
    TrimRight(TrimLeft(s))
  }

  /** The two trimmed paths are the same, or one continues the other after a slash: the rename is refused. */
  predicate Refused(from: Path, to: Path) {
    Trim(to) == Trim(from) || Trim(from) + [SLASH] <= Trim(to)
  }

  function Join(parts: seq<Name>): Path {
    if parts == [] then [] else if |parts| == 1 then parts[0] else parts[0] + [SLASH] + Join(parts[1..])
  }

  /** Written without dots and doubled slashes. */
  predicate Plain(s: Path) {
    Trim(s) == Join(Comps(s))
  }

  // --- text ---------------------------------------------------------------------------------

  lemma SplitFront(s: Path)
    requires s != []
    ensures Split(s) == if s[0] == SLASH then [[]] + Split(s[1..]) else [[s[0]] + Split(s[1..])[0]] + Split(s[1..])[1..]
  {
  }

  lemma {:induction false} SplitSlash(a: Path, b: Path)
    ensures Split(a + [SLASH] + b) == Split(a) + Split(b)
    decreases |a|
  {
    hide Split;
    var s := a + [SLASH] + b;
    SplitFront(s);
    if a == [] {
      assert s[1..] == b;
      NoSplit();
    } else {
      var rest := a[1..];
      assert s[0] == a[0] && s[1..] == rest + [SLASH] + b;
      SplitSlash(rest, b);
      SplitFront(a);
      if a[0] == SLASH {
        assert [[]] + (Split(rest) + Split(b)) == ([[]] + Split(rest)) + Split(b);
      } else {
        assert (Split(rest) + Split(b))[1..] == Split(rest)[1..] + Split(b);
      }
    }
  }

  lemma NoSplit()
    ensures Split([]) == [[]] && Comps([]) == []
  {
    var none: seq<Name> := [[]];
    assert none[1..] == [];
  }

  lemma {:induction false} FilterJoin(a: seq<Name>, b: seq<Name>)
    ensures Filter(a + b) == Filter(a) + Filter(b)
  {
    if a == [] {
      assert a + b == b;
    } else {
      assert (a + b)[1..] == a[1..] + b;
      FilterJoin(a[1..], b);
    }
  }

  /** A slash separates components. */
  lemma CompsSlash(a: Path, b: Path)
    ensures Comps(a + [SLASH] + b) == Comps(a) + Comps(b)
  {
    SplitSlash(a, b);
    FilterJoin(Split(a), Split(b));
  }

  lemma {:induction false} TrimLeftComps(s: Path)
    ensures Comps(TrimLeft(s)) == Comps(s)
  {
    hide Comps;
    if s != [] && s[0] == SLASH {
      var rest := s[1..];
      TrimLeftComps(rest);
      assert s == [] + [SLASH] + rest;
      CompsSlash([], rest);
      NoSplit();
    }
  }

  lemma {:induction false} TrimRightComps(s: Path)
    ensures Comps(TrimRight(s)) == Comps(s)
    decreases |s|
  {
    hide Comps;
    if s != [] && s[|s| - 1] == SLASH {
      var front := s[..|s| - 1];
      TrimRightComps(front);
      assert s == front + [SLASH] + [];
      CompsSlash(front, []);
      NoSplit();
    }
  }

  lemma TrimComps(s: Path)
    ensures Comps(Trim(s)) == Comps(s)
  {
    TrimLeftComps(s);
    TrimRightComps(TrimLeft(s));
  }

  lemma {:induction false} JoinMore(a: seq<Name>, b: seq<Name>)
    requires a != [] && b != []
    ensures Join(a + b) == Join(a) + [SLASH] + Join(b)
    decreases |a|
  {
    assert (a + b)[1..] == a[1..] + b;
    if |a| == 1 {
      assert a[1..] + b == b;
    } else {
      JoinMore(a[1..], b);
      assert a[0] + [SLASH] + (Join(a[1..]) + [SLASH] + Join(b)) == (a[0] + [SLASH] + Join(a[1..])) + [SLASH] + Join(b);
    }
  }

  /** What is refused really is the same place or one below. */
  lemma RefusedIsBelow(from: Path, to: Path)
    requires Refused(from, to)
    ensures Comps(from) <= Comps(to)
  {
    TrimComps(from);
    TrimComps(to);
    var f, t := Trim(from), Trim(to);
    if t != f {
      assert t == f + [SLASH] + t[|f| + 1..];
      CompsSlash(f, t[|f| + 1..]);
    }
  }

  /** What the guard refuses is the same place or one below; such a place it misses is not plainly written. */
  lemma RefusedExactly(from: Path, to: Path)
    requires Comps(from) != []
    ensures Refused(from, to) ==> Comps(from) <= Comps(to)
    ensures Comps(from) <= Comps(to) && !Refused(from, to) ==> !Plain(from) || !Plain(to)
  {
    if Refused(from, to) {
      RefusedIsBelow(from, to);
    } else if Comps(from) <= Comps(to) && Plain(from) && Plain(to) {
      var rest := Comps(to)[|Comps(from)|..];
      assert Comps(to) == Comps(from) + rest;
      assert rest == [] ==> Comps(to) == Comps(from);
      if rest != [] {
        JoinMore(Comps(from), rest);
      }
    }
  }

  /** A leading dot gets a place below past the guard. */
  lemma DotPassesGuard() returns (from: Path, to: Path)
    ensures |Comps(from)| == 1 && |Comps(to)| == 2 && Comps(from) < Comps(to) && !Refused(from, to)
  {
    var a: bv16, b: bv16 := 0x61, 0x62;
    from, to := [a], [DOT, SLASH, a, SLASH, b];
    OneComp(a);
    assert Comps(to) == [[a], [b]] by {
      CompsSlash([DOT], [a, SLASH, b]);
      assert to == [DOT] + [SLASH] + [a, SLASH, b];
      CompsSlash([a], [b]);
      assert [a, SLASH, b] == [a] + [SLASH] + [b];
      OneComp(b);
      DotComp();
    }
    assert Comps(from) == Comps(to)[..1];
    assert TrimLeft(to) == to && TrimRight(to) == to;
    assert TrimLeft(from) == from && TrimRight(from) == from;
    assert !Refused(from, to);
  }

  lemma SplitOne(s: Path)
    requires |s| == 1 && s[0] != SLASH
    ensures Split(s) == [s] && Filter([s]) == if s == [DOT] then [] else [s]
  {
    var rest := s[1..];
    assert rest == [];
    assert Split(rest) == [[]];
    assert [s[0]] + Split(rest)[0] == s;
    assert Split(rest)[1..] == [];
    var more := [s][1..];
    assert more == [] && Filter(more) == [];
  }

  lemma OneComp(c: bv16)
    requires c != SLASH && c != DOT
    ensures Comps([c]) == [[c]]
  {
    SplitOne([c]);
    assert [c] != [DOT] by { assert [c][0] != [DOT][0]; }
  }

  lemma DotComp()
    ensures Comps([DOT]) == []
  {
    SplitOne([DOT]);
  }

  // --- walking -------------------------------------------------------------------------------------

  /** The inode that the components lead to from the root. */
  function Walk(t: Table, root: nat, comps: seq<Name>): Option<nat> {
    if comps == [] then Some(root)
    else match Walk(t, root, comps[..|comps| - 1])
      case None => None
      case Some(d) => match EntryAt(t, d, comps[|comps| - 1])
        case None => None
        case Some(l) => Some(l.ino)
  }

  /** The last step of a walk to a directory names it as one. */
  lemma LastStep(t: Table, root: nat, comps: seq<Name>, x: nat)
    requires Good(t, root) && Walk(t, root, comps) == Some(x) && comps != [] && x in t && t[x].isDir
    ensures var d := Walk(t, root, comps[..|comps| - 1]);
      d.Some? && EntryAt(t, d.value, comps[|comps| - 1]) == Some(Link(x, true)) && Above(t, d.value, x)
      && x != root && d.value in t && t[d.value].isDir
  {
    var d, n := Walk(t, root, comps[..|comps| - 1]).value, comps[|comps| - 1];
    assert LinksOk(t, d) && LinkOk(t, t[d].entries[n]);
    assert EntryAt(t, d, n) == Some(Link(x, true));
    assert FileCounts(t, d, {});
    OneParent(t, root, d, d, x);
  }

  /** A directory inside m is reached by walking on from m. */
  lemma {:induction false} BelowIsPrefix(t: Table, root: nat, path: seq<nat>, x: nat, m: nat, to: seq<Name>, from: seq<Name>)
    requires Good(t, root) && Chain(t, path, x, m) && x in t && t[x].isDir && m in t && t[m].isDir
    requires Walk(t, root, to) == Some(x) && Walk(t, root, from) == Some(m)
    ensures from <= to
    decreases |path|
  {
    if |path| == 1 {
      SameWalk(t, root, from, to, x);
    } else {
      assert Above(t, path[1], path[0]);
      OneParent(t, root, path[1], path[1], x);
      LastStep(t, root, to, x);
      var d := Walk(t, root, to[..|to| - 1]).value;
      OneParent(t, root, d, path[1], x);
      ChainTail(t, path, x, m, 1);
      BelowIsPrefix(t, root, path[1..], d, m, to[..|to| - 1], from);
    }
  }

  lemma SameName(t: Table, root: nat, x: nat, d: nat, m: Name, e: nat, n: Name)
    requires Good(t, root) && x in t && t[x].isDir
    requires EntryAt(t, d, m) == Some(Link(x, true)) && EntryAt(t, e, n) == Some(Link(x, true))
    ensures d == e && m == n
  {
    NamedTwice(t, root, x, d, m, e, n);
  }

  /** Only one path leads to a directory. */
  lemma {:induction false} SameWalk(t: Table, root: nat, a: seq<Name>, b: seq<Name>, x: nat)
    requires Good(t, root) && Walk(t, root, a) == Some(x) == Walk(t, root, b) && x in t && t[x].isDir
    ensures a == b
    decreases |a|
  {
    hide GoodBut, EntryAt, Above;
    if a != [] && b != [] {
      LastStep(t, root, a, x);
      LastStep(t, root, b, x);
      var d, e := Walk(t, root, a[..|a| - 1]).value, Walk(t, root, b[..|b| - 1]).value;
      SameName(t, root, x, d, a[|a| - 1], e, b[|b| - 1]);
      SameWalk(t, root, a[..|a| - 1], b[..|b| - 1], d);
      assert a == a[..|a| - 1] + [a[|a| - 1]] && b == b[..|b| - 1] + [b[|b| - 1]];
    } else if a != [] {
      LastStep(t, root, a, x);
    } else if b != [] {
      LastStep(t, root, b, x);
    }
  }

  /** Walking on from m leads to places inside m. */
  lemma {:induction false} WalkOn(t: Table, root: nat, from: seq<Name>, m: nat, to: seq<Name>, x: nat)
    requires Good(t, root) && Walk(t, root, from) == Some(m) && Walk(t, root, to) == Some(x)
    requires from <= to && x in t && t[x].isDir
    ensures Below(t, x, m)
    decreases |to|
  {
    if from == to {
      assert Chain(t, [x], x, m);
    } else {
      LastStep(t, root, to, x);
      var d := Walk(t, root, to[..|to| - 1]).value;
      WalkOn(t, root, from, m, to[..|to| - 1], d);
      var path :| Chain(t, path, d, m);
      assert Chain(t, [x], x, x);
      ChainJoin(t, [x], x, x, path, d, m);
    }
  }

  /** The paths lead to these parents, and the rename does something. */
  ghost predicate RenamesByPath(t: Table, root: nat, f: seq<Name>, g: seq<Name>, p1: nat, p2: nat) {
    && f != [] && g != []
    && Walk(t, root, f[..|f| - 1]) == Some(p1) && Walk(t, root, g[..|g| - 1]) == Some(p2)
    && Moves(t, p1, f[|f| - 1], p2, g[|g| - 1])
  }

  /**
  Whatever the paths look like: a rename keeps every directory reachable exactly when it does not move
  a directory to a path that continues its own.
  */
  lemma RenameByPathConnected(t: Table, root: nat, from: Path, to: Path, p1: nat, p2: nat)
    requires Good(t, root) && Connected(t, root) && RenamesByPath(t, root, Comps(from), Comps(to), p1, p2)
    ensures var f, g := Comps(from), Comps(to);
      Connected(Renamed(t, p1, f[|f| - 1], p2, g[|g| - 1]), root)
      <==> !(t[p1].entries[f[|f| - 1]].isDir && f < g)
  {
    hide Renamed, GoodBut, Comps, Walk, Connected;
    var f, g := Comps(from), Comps(to);
    MovesFacts(t, p1, f[|f| - 1], p2, g[|g| - 1]);
    if f <= g {
      ToInside(t, root, f, g, p1, p2);
      RenameConnected(t, root, p1, f[|f| - 1], p2, g[|g| - 1]);
    } else {
      OutsideConnected(t, root, f, g, p1, p2);
    }
  }

  /** A target whose path continues the source's lies inside the source. */
  lemma ToInside(t: Table, root: nat, f: seq<Name>, g: seq<Name>, p1: nat, p2: nat)
    requires Good(t, root) && RenamesByPath(t, root, f, g, p1, p2) && f <= g
    ensures f < g && Below(t, p2, t[p1].entries[f[|f| - 1]].ino)
  {
    hide GoodBut;
    var m := t[p1].entries[f[|f| - 1]].ino;
    if f != g {
      assert Walk(t, root, f) == Some(m);
      WalkOn(t, root, f, m, g[..|g| - 1], p2);
    }
  }

  /**
  What the guard lets through keeps every directory reachable, except a directory moved to a path that
  continues its own; that takes a path with a dot or a doubled slash.
  */
  lemma GuardedRenameConnected(t: Table, root: nat, from: Path, to: Path, p1: nat, p2: nat)
    requires Good(t, root) && Connected(t, root) && !Refused(from, to)
    requires RenamesByPath(t, root, Comps(from), Comps(to), p1, p2)
    ensures var f, g := Comps(from), Comps(to);
      Connected(Renamed(t, p1, f[|f| - 1], p2, g[|g| - 1]), root)
      || (t[p1].entries[f[|f| - 1]].isDir && f < g && (!Plain(from) || !Plain(to)))
  {
    hide Renamed, GoodBut, Comps, Walk, Connected, Refused, Plain, Moves;
    RefusedExactly(from, to);
    RenameByPathConnected(t, root, from, to, p1, p2);
  }

  /** The guard lets a directory be moved into itself: a and ./a/b, with a directory a, cuts a off the root. */
  lemma DotDisconnects() returns (t: Table, from: Path, to: Path)
    ensures Good(t, 1) && Connected(t, 1) && !Refused(from, to)
    ensures RenamesByPath(t, 1, Comps(from), Comps(to), 1, 2)
    ensures var f, g := Comps(from), Comps(to); !Connected(Renamed(t, 1, f[|f| - 1], 2, g[|g| - 1]), 1)
  {
    hide GoodBut, Connected, Renamed, Refused, Comps;
    from, to := DotPassesGuard();
    var a, b := Comps(from)[0], Comps(to)[1];
    var alone: Table := map[1 := Inode(true, 2, false, map[])];
    RootAlone(alone, 1);
    MadeGood(alone, 1, 1, a, 2, true);
    MadeConnected(alone, 1, 1, a, 2, true);
    t := Made(alone, 1, a, 2, true);
    assert t == map[1 := Inode(true, 3, false, map[a := Link(2, true)]), 2 := Inode(true, 2, false, map[])];
    OneStep(t, 1, a, 2);
    assert Comps(to)[..1] == [a] && Comps(from)[..0] == [];
    RenameByPathConnected(t, 1, from, to, 1, 2);
  }

  lemma OneStep(t: Table, root: nat, a: Name, x: nat)
    requires EntryAt(t, root, a) == Some(Link(x, true))
    ensures Walk(t, root, []) == Some(root) && Walk(t, root, [a]) == Some(x)
  {
    assert [a][..0] == [];
  }

  lemma OutsideConnected(t: Table, root: nat, f: seq<Name>, g: seq<Name>, p1: nat, p2: nat)
    requires Good(t, root) && Connected(t, root) && f != [] && g != [] && !(f <= g)
    requires Walk(t, root, f[..|f| - 1]) == Some(p1) && Walk(t, root, g[..|g| - 1]) == Some(p2)
    requires Moves(t, p1, f[|f| - 1], p2, g[|g| - 1])
    ensures Connected(Renamed(t, p1, f[|f| - 1], p2, g[|g| - 1]), root)
  {
    MovesFacts(t, p1, f[|f| - 1], p2, g[|g| - 1]);
    hide Renamed, GoodBut, Walk, Connected, Moves;
    NotInside(t, root, f, g, p1, p2);
    RenameConnected(t, root, p1, f[|f| - 1], p2, g[|g| - 1]);
  }

  lemma MovesFacts(t: Table, p1: nat, n1: Name, p2: nat, n2: Name)
    requires Moves(t, p1, n1, p2, n2)
    ensures p1 in t && p2 in t && t[p2].isDir && n1 in t[p1].entries && LinkOk(t, t[p1].entries[n1])
  {
  }

  /** A target whose path does not continue the source's does not lie inside the source. */
  lemma NotInside(t: Table, root: nat, f: seq<Name>, g: seq<Name>, p1: nat, p2: nat)
    requires Good(t, root) && f != [] && g != [] && !(f <= g)
    requires Walk(t, root, f[..|f| - 1]) == Some(p1) && Walk(t, root, g[..|g| - 1]) == Some(p2)
    requires p1 in t && p2 in t && t[p2].isDir && f[|f| - 1] in t[p1].entries && LinkOk(t, t[p1].entries[f[|f| - 1]])
    ensures var l := t[p1].entries[f[|f| - 1]]; !(l.isDir && Below(t, p2, l.ino))
  {
    hide GoodBut;
    var l := t[p1].entries[f[|f| - 1]];
    if l.isDir && Below(t, p2, l.ino) {
      var path :| Chain(t, path, p2, l.ino);
      BelowIsPrefix(t, root, path, p2, l.ino, g[..|g| - 1], f);
    }
  }
}
