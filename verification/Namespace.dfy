/**
Creating, linking, removing and renaming. Each operation works on a copy of the inodes and of what
is stored of the directories, as a transaction does, and installs it only when everything went well.
*/
module Namespace {
  import opened Wrappers
  import opened NamespaceLaws
  import opened NamespaceTree
  import HashedDir
  import DirShape
  import D = Directory
  import DirLayout

  const INODE_PAYLOAD := D.INODE_PAYLOAD
  const MAX_NAME := D.MAX_NAME

  /** kernel.bin */
  const KERNEL_BIN: Name := [0x6B, 0x65, 0x72, 0x6E, 0x65, 0x6C, 0x2E, 0x62, 0x69, 0x6E]

  datatype NamespaceError = BadName | NoSuchInode | NotADirectory | IsADirectory | Exists | NotFound | NotEmpty | IsImmutable | TooLong | NoSpace
    | DepthLimit | HeaderOverflow | TransactionTooLarge

  const DT_FILE := 1
  const DT_DIR := 2

  function FileType(isDir: bool): nat {
    if isDir then DT_DIR else DT_FILE
  }

  /** The entries as the directory layer sees them. */
  function ViewOf(entries: map<Name, Link>): HashedDir.View {
    map n | n in entries :: HashedDir.Ref(entries[n].ino, FileType(entries[n].isDir))
  }

  type Layouts = map<nat, D.Layout>

  /** What is stored of every directory shows its entries. */
  ghost predicate Laid(hash: Name -> HashedDir.Hash64, t: Table, layouts: Layouts) {
    forall i :: i in t && t[i].isDir ==> i in layouts && D.LayoutOk(hash, layouts[i], ViewOf(t[i].entries))
  }

  /** The header of the directory has room for what taking the name out gives back. */
  ghost predicate HasRoom(hash: Name -> HashedDir.Hash64, t: Table, layouts: Layouts, d: nat, name: Name) {
    d in t && d in layouts && DirLayout.RemovalHasRoom(hash, layouts[d], ViewOf(t[d].entries), name)
  }

  /** While renaming: the inodes without the replaced one, the changed target directory and its layout. */
  datatype Room = Room(inodes: Table, target: Inode, layout: D.Layout)

  function Without(t: Table, d: nat, n: Name): Table
    requires d in t && (n in t[d].entries ==> t[d].entries[n].ino in t)
  {
    if n in t[d].entries then Removed(t, d, n) else t
  }

  /** Errors of the layers below: they depend on more than the names. */
  predicate FromBelow(e: NamespaceError) {
    e in {NoSpace, DepthLimit, HeaderOverflow, TransactionTooLarge}
  }

  /** Names an entry may have: not empty, no slash, not a dot name, at most 255 units. */
  predicate NameOk(name: Name) {
    0 < |name| <= MAX_NAME && 0x2F !in name && name != [0x2E] && name != [0x2E, 0x2E]
  }

  /** What the layers below would answer: the inode slots left, blocks for a directory that grows, and whether the journal takes the transaction. */
  datatype Below = Below(slots: set<nat>, blocks: bool, journal: bool)

  /** An inode slot that is not in use. */
  ghost predicate HasSlot(t: Table, below: Below) {
    exists i :: i in below.slots && i != 0 && i !in t
  }

  class Volume {
    var below: Below
    var inodes: Table
    var layouts: Layouts
    const root: nat
    const hash: Name -> HashedDir.Hash64

    /** A volume as it is made: the root directory, with the immutable kernel.bin if there is a kernel. */
    constructor (r: nat, kernel: Option<nat>, hash: Name -> HashedDir.Hash64, below: Below)
      requires r > 0 && (kernel.Some? ==> kernel.value != r && kernel.value > 0)
      ensures root == r && this.hash == hash && Valid() && Connected(inodes, root)
      ensures inodes == match kernel
        case None => map[r := Inode(true, 2, false, map[])]
        case Some(k) => map[r := Inode(true, 2, false, map[KERNEL_BIN := Link(k, false)]), k := Inode(false, 1, true, map[])]
    {
      this.hash := hash;
      this.below := below;
      root := r;
      inodes := map[r := Inode(true, 2, false, map[])];
      layouts := map[r := DirLayout.NOTHING_STORED];
      if kernel.Some? {
        var k := kernel.value;
        inodes := map[r := Inode(true, 2, false, map[KERNEL_BIN := Link(k, false)]), k := Inode(false, 1, true, map[])];
        layouts := map[r := DirLayout.NOTHING_STORED.(format := D.Embed, embedded := [D.DirEntry(k, DT_FILE, KERNEL_BIN)])];
      }
      new;
      RootAlone(map[root := Inode(true, 2, false, map[])], root);
      if kernel.Some? {
        WithKernel(root, kernel.value);
        DirLayout.OneStored(hash, D.DirEntry(kernel.value, DT_FILE, KERNEL_BIN));
        KernelView(kernel.value);
      } else {
        DirLayout.NothingStored(hash);
      }
    }

    ghost predicate Valid()
      reads this
    {
      Good(inodes, root) && 0 !in inodes && Laid(hash, inodes, layouts)
    }

    // --- what the layers below may answer ------------------------------------------------------

    /** A free inode slot, if there is one. */
    method AllocInode() returns (ino: Option<nat>)
      ensures ino.Some? ==> ino.value !in inodes && ino.value != 0
      ensures ino.Some? <==> HasSlot(inodes, below)
    {
      var left := set i | i in below.slots && i != 0 && i !in inodes;
      if left == {} {
        assert forall i :: i in below.slots && i != 0 && i !in inodes ==> i in left;
        return None;
      }
      var i :| i in left;
      return Some(i);
    }

    /** Blocks for a directory that grows; one that does not needs none. */
    method RoomForEntry() returns (ok: bool)
      ensures below.blocks ==> ok
    {
      var grows: bool := *;
      ok := below.blocks || !grows;
    }

    /** The transaction may have more blocks than the journal takes. */
    method Commit() returns (ok: bool)
      ensures ok == below.journal
    {
      ok := below.journal;
    }

    /** Store one more entry in the layout of a directory. */
    method DirInsert(l: D.Layout, ghost entries: map<Name, Link>, name: Name, link: Link) returns (r: Result<D.Layout, NamespaceError>)
      requires D.LayoutOk(hash, l, ViewOf(entries)) && link.ino != 0 && |name| <= MAX_NAME && name !in entries
      ensures r.Ok? ==> D.LayoutOk(hash, r.value, ViewOf(entries[name := link])) && !DirShape.Crowded(hash, ViewOf(entries), name)
      ensures r.Err? ==> (r.error == NoSpace && !below.blocks) || (r.error == DepthLimit && DirShape.Crowded(hash, ViewOf(entries), name))
    {
      hide D.LayoutOk, DirShape.Crowded;
      var ok := RoomForEntry();
      if !ok {
        return Err(NoSpace);
      }
      var done := DirLayout.InsertInto(hash, l, ViewOf(entries), D.DirEntry(link.ino, FileType(link.isDir), name));
      ViewAdded(entries, name, link);
      match done {
        case Ok(now) => r := Ok(now);
        case Err(_) => r := Err(DepthLimit);
      }
    }

    /** Take an entry out of the layout of a directory. */
    method DirRemove(l: D.Layout, ghost entries: map<Name, Link>, name: Name) returns (r: Result<D.Layout, NamespaceError>)
      requires D.LayoutOk(hash, l, ViewOf(entries)) && name in entries
      ensures r.Ok? ==> D.LayoutOk(hash, r.value, ViewOf(entries - {name}))
      ensures r.Err? ==> r.error == HeaderOverflow
      ensures r.Ok? <==> DirLayout.RemovalHasRoom(hash, l, ViewOf(entries), name)
    {
      hide D.LayoutOk, DirLayout.RemovalHasRoom;
      var done := DirLayout.RemoveFrom(hash, l, ViewOf(entries), name);
      ViewRemoved(entries, name);
      match done {
        case Ok(now) => r := Ok(now);
        case Err(_) => r := Err(HeaderOverflow);
      }
    }

    // --- creating -------------------------------------------------------------------------------

    method CreateAt(parent: nat, name: Name) returns (r: Result<nat, NamespaceError>)
      requires Valid()
      modifies this`inodes, this`layouts
      ensures r.Ok? ==> Valid() && Fresh(old(inodes), parent, name, r.value) && inodes == Made(old(inodes), parent, name, r.value, false)
      ensures r.Err? ==> inodes == old(inodes) && layouts == old(layouts)
      ensures r.Err? && !FromBelow(r.error) <==> MayNotName(old(inodes), parent, name)
      ensures r.Err? ==> NamingError(inodes, parent, name, r.error) || FromBelow(r.error)
      ensures r.Err? ==> BelowError(hash, inodes, below, parent, name, r.error, !HasSlot(inodes, below))
    {
      r := Mknod(parent, name, false, None);
    }

    method MkdirAt(parent: nat, name: Name) returns (r: Result<nat, NamespaceError>)
      requires Valid()
      modifies this`inodes, this`layouts
      ensures r.Ok? ==> Valid() && Fresh(old(inodes), parent, name, r.value) && inodes == Made(old(inodes), parent, name, r.value, true)
      ensures r.Err? ==> inodes == old(inodes) && layouts == old(layouts)
      ensures r.Err? && !FromBelow(r.error) <==> MayNotName(old(inodes), parent, name)
      ensures r.Err? ==> NamingError(inodes, parent, name, r.error) || FromBelow(r.error)
      ensures r.Err? ==> BelowError(hash, inodes, below, parent, name, r.error, !HasSlot(inodes, below))
    {
      r := Mknod(parent, name, true, None);
    }

    method SymlinkAt(parent: nat, name: Name, target: nat) returns (r: Result<nat, NamespaceError>)
      requires Valid()
      modifies this`inodes, this`layouts
      ensures r.Ok? ==> Valid() && Fresh(old(inodes), parent, name, r.value) && inodes == Made(old(inodes), parent, name, r.value, false)
      ensures r.Err? ==> inodes == old(inodes) && layouts == old(layouts)
      ensures r.Ok? ==> target <= INODE_PAYLOAD
      ensures r.Err? && !FromBelow(r.error) <==>
        MayNotName(old(inodes), parent, name) || (HasSlot(old(inodes), below) && target > INODE_PAYLOAD)
      ensures r.Err? ==> NamingError(inodes, parent, name, r.error) || (r.error == TooLong && target > INODE_PAYLOAD) || FromBelow(r.error)
      ensures r.Err? ==> BelowError(hash, inodes, below, parent, name, r.error, !HasSlot(inodes, below))
    {
      r := Mknod(parent, name, false, Some(target));
    }

    /** A new inode under a new name; data is the length of a symbolic link's target. */
    method Mknod(parent: nat, name: Name, isDir: bool, data: Option<nat>) returns (r: Result<nat, NamespaceError>)
      requires Valid()
      modifies this`inodes, this`layouts
      ensures r.Ok? ==> Valid() && Fresh(old(inodes), parent, name, r.value) && inodes == Made(old(inodes), parent, name, r.value, isDir)
      ensures r.Err? ==> inodes == old(inodes) && layouts == old(layouts)
      ensures r.Err? && !FromBelow(r.error) <==> MayNotName(old(inodes), parent, name) || (HasSlot(old(inodes), below) && TargetTooLong(data))
      ensures r.Ok? ==> !MayNotName(old(inodes), parent, name) && !TargetTooLong(data)
      ensures r.Err? ==> NamingError(inodes, parent, name, r.error) || (r.error == TooLong && TargetTooLong(data)) || FromBelow(r.error)
      ensures r.Ok? ==> HasSlot(old(inodes), below) && below.journal && !Full(hash, old(inodes), parent, name)
      ensures r.Err? ==> BelowError(hash, inodes, below, parent, name, r.error, !HasSlot(inodes, below))
    {
      hide GoodBut, AddName, DelName, Removed, Made, Renamed, Refs, Subdirs, Laid, D.LayoutOk, DirShape.Crowded, HasSlot;
      if !NameOk(name) {
        return Err(BadName);
      }
      if parent !in inodes {
        return Err(NoSuchInode);
      }
      var pinode := inodes[parent];
      if !pinode.isDir {
        return Err(NotADirectory);
      }
      if name in pinode.entries {
        return Err(Exists);
      }
      var ino := AllocInode();
      if ino.None? {
        return Err(NoSpace);
      }
      if data.Some? && data.value > INODE_PAYLOAD {
        return Err(TooLong);
      }
      r := Create(parent, name, ino.value, isDir);
    }

    /** Write the new inode and its name. */
    method Create(parent: nat, name: Name, ino: nat, isDir: bool) returns (r: Result<nat, NamespaceError>)
      requires Valid() && NameOk(name) && Fresh(inodes, parent, name, ino) && ino != 0
      modifies this`inodes, this`layouts
      ensures r.Ok? ==> r.value == ino && Valid() && inodes == Made(old(inodes), parent, name, ino, isDir)
      ensures r.Ok? ==> below.journal && !Full(hash, old(inodes), parent, name)
      ensures r.Err? ==> inodes == old(inodes) && layouts == old(layouts)
      ensures r.Err? ==> FromBelow(r.error) && BelowError(hash, inodes, below, parent, name, r.error, false)
    {
      hide GoodBut, AddName, DelName, Removed, Made, Renamed, Refs, Subdirs, Laid, D.LayoutOk, DirShape.Crowded;
      var t, pinode := inodes, inodes[parent];
      t := t[ino := Inode(isDir, if isDir then 2 else 1, false, map[])];
      LaidAt(hash, inodes, layouts, parent);
      var stored := DirInsert(layouts[parent], pinode.entries, name, Link(ino, isDir));
      if stored.Err? {
        return Err(stored.error);
      }
      pinode := pinode.(entries := pinode.entries[name := Link(ino, isDir)]);
      if isDir {
        pinode := pinode.(nlink := pinode.nlink + 1);
      }
      t := t[parent := pinode];
      var ok := Commit();
      if !ok {
        return Err(TransactionTooLarge);
      }
      MadeGood(inodes, root, parent, name, ino, isDir);
      MadeIs(inodes, parent, name, ino, isDir);
      var now := layouts[ino := DirLayout.NOTHING_STORED][parent := stored.value];
      DirLayout.NothingStored(hash);
      NothingShown();
      LaidAfter(hash, inodes, layouts, t, now, {ino, parent});
      inodes, layouts := t, now;
      r := Ok(ino);
    }

    /** One more name for a file. */
    method LinkAt(ino: nat, parent: nat, name: Name) returns (r: Result<(), NamespaceError>)
      requires Valid()
      modifies this`inodes, this`layouts
      ensures r.Ok? ==> Valid() && ino in old(inodes) && !old(inodes)[ino].isDir && parent in old(inodes)
      ensures r.Ok? ==> inodes == AddName(old(inodes), parent, name, Link(ino, false))
      ensures r.Err? ==> inodes == old(inodes) && layouts == old(layouts)
      ensures r.Err? && !FromBelow(r.error) <==>
        MayNotName(old(inodes), parent, name) || ino !in old(inodes) || old(inodes)[ino].isDir
      ensures r.Err? ==>
        || NamingError(inodes, parent, name, r.error) || FromBelow(r.error)
        || (r.error == NoSuchInode && ino !in inodes) || (r.error == IsADirectory && ino in inodes && inodes[ino].isDir)
      ensures r.Ok? ==> below.journal && !Full(hash, old(inodes), parent, name)
      ensures r.Err? ==> BelowError(hash, inodes, below, parent, name, r.error, false)
    {
      hide GoodBut, AddName, DelName, Removed, Made, Renamed, Refs, Subdirs, Laid, D.LayoutOk, DirShape.Crowded, HasSlot;
      if !NameOk(name) {
        return Err(BadName);
      }
      if ino !in inodes {
        return Err(NoSuchInode);
      }
      var inode := inodes[ino];
      if inode.isDir {
        return Err(IsADirectory);
      }
      if parent !in inodes {
        return Err(NoSuchInode);
      }
      var pinode := inodes[parent];
      if !pinode.isDir {
        return Err(NotADirectory);
      }
      if name in pinode.entries {
        return Err(Exists);
      }
      r := AddLink(ino, parent, name);
    }

    /** Write the entry and the inode with one more link. */
    method AddLink(ino: nat, parent: nat, name: Name) returns (r: Result<(), NamespaceError>)
      requires Valid() && ino in inodes && !inodes[ino].isDir && !MayNotName(inodes, parent, name)
      modifies this`inodes, this`layouts
      ensures r.Ok? ==> Valid() && inodes == AddName(old(inodes), parent, name, Link(ino, false))
      ensures r.Ok? ==> below.journal && !Full(hash, old(inodes), parent, name)
      ensures r.Err? ==> inodes == old(inodes) && layouts == old(layouts)
      ensures r.Err? ==> FromBelow(r.error) && BelowError(hash, inodes, below, parent, name, r.error, false)
    {
      hide GoodBut, AddName, DelName, Removed, Made, Renamed, Refs, Subdirs, Laid, D.LayoutOk, DirShape.Crowded;
      var t, inode, pinode := inodes, inodes[ino], inodes[parent];
      LaidAt(hash, inodes, layouts, parent);
      var stored := DirInsert(layouts[parent], pinode.entries, name, Link(ino, false));
      if stored.Err? {
        return Err(stored.error);
      }
      pinode := pinode.(entries := pinode.entries[name := Link(ino, false)]);
      inode := inode.(nlink := inode.nlink + 1);
      t := t[ino := inode];
      t := t[parent := pinode];
      var ok := Commit();
      if !ok {
        return Err(TransactionTooLarge);
      }
      RootIsDir(inodes, root);
      AddNameGood(inodes, root, {}, parent, name, Link(ino, false));
      assert {} - {ino} == {};
      LinkIs(inodes, parent, name, ino);
      var now := layouts[parent := stored.value];
      LaidAfter(hash, inodes, layouts, t, now, {parent});
      inodes, layouts := t, now;
      r := Ok(());
    }

    // --- removing -----------------------------------------------------------------------------

    method UnlinkAt(parent: nat, name: Name) returns (r: Result<(), NamespaceError>)
      requires Valid()
      modifies this`inodes, this`layouts
      ensures r.Ok? ==> Valid() && Removable(old(inodes), parent, name, false) && inodes == Removed(old(inodes), parent, name)
      ensures r.Err? ==> inodes == old(inodes) && layouts == old(layouts)
      ensures r.Ok? <==> Removable(old(inodes), parent, name, false) && HasRoom(hash, old(inodes), old(layouts), parent, name) && below.journal
      ensures r.Err? ==> RemovalError(hash, inodes, layouts, parent, name, false, r.error)
    {
      r := RemoveCommon(parent, name, false);
    }

    method RmdirAt(parent: nat, name: Name) returns (r: Result<(), NamespaceError>)
      requires Valid()
      modifies this`inodes, this`layouts
      ensures r.Ok? ==> Valid() && Removable(old(inodes), parent, name, true) && inodes == Removed(old(inodes), parent, name)
      ensures r.Err? ==> inodes == old(inodes) && layouts == old(layouts)
      ensures r.Ok? <==> Removable(old(inodes), parent, name, true) && HasRoom(hash, old(inodes), old(layouts), parent, name) && below.journal
      ensures r.Err? ==> RemovalError(hash, inodes, layouts, parent, name, true, r.error)
    {
      r := RemoveCommon(parent, name, true);
    }

    /**
    Take a name away; the inode goes with its last one. It works only when the name may go, and then
    unless the directory's header overflows or the transaction is too large.
    */
    method RemoveCommon(parent: nat, name: Name, wantDir: bool) returns (r: Result<(), NamespaceError>)
      requires Valid()
      modifies this`inodes, this`layouts
      ensures r.Ok? <==> Removable(old(inodes), parent, name, wantDir) && HasRoom(hash, old(inodes), old(layouts), parent, name) && below.journal
      ensures r.Ok? ==> Valid() && inodes == Removed(old(inodes), parent, name)
      ensures r.Err? ==> inodes == old(inodes) && layouts == old(layouts)
      ensures r.Err? ==> RemovalError(hash, inodes, layouts, parent, name, wantDir, r.error)
    {
      hide GoodBut, AddName, DelName, Removed, Made, Renamed, Refs, Subdirs, Laid, D.LayoutOk, DirLayout.RemovalHasRoom;
      var t := inodes;
      if parent !in t {
        return Err(NoSuchInode);
      }
      var pinode := t[parent];
      if !pinode.isDir {
        NoNames(t, root, parent);
        return Err(NotADirectory);
      }
      if name !in pinode.entries {
        return Err(NotFound);
      }
      var ent := pinode.entries[name];
      EntryFacts(t, root, parent, name);
      var inode := t[ent.ino];
      if wantDir != inode.isDir {
        return Err(if wantDir then NotADirectory else IsADirectory);
      }
      if inode.immutable {
        return Err(IsImmutable);
      }
      if wantDir {
        if inode.entries != map[] {
          return Err(NotEmpty);
        }
        t := Free(t, ent.ino);
        pinode := pinode.(nlink := Less(pinode.nlink));
      } else {
        inode := inode.(nlink := Less(inode.nlink));
        if inode.nlink == 0 {
          t := Free(t, ent.ino);
        } else {
          t := t[ent.ino := inode];
        }
      }
      LaidAt(hash, inodes, layouts, parent);
      var stored := DirRemove(layouts[parent], pinode.entries, name);
      if stored.Err? {
        return Err(stored.error);
      }
      pinode := pinode.(entries := pinode.entries - {name});
      t := t[parent := pinode];
      var ok := Commit();
      if !ok {
        return Err(TransactionTooLarge);
      }
      RemovedGood(inodes, root, parent, name);
      RemovedIs(inodes, parent, name);
      var now := layouts[parent := stored.value];
      LaidAfter(hash, inodes, layouts, t, now, {parent});
      inodes, layouts := t, now;
      r := Ok(());
    }

    // --- renaming ---------------------------------------------------------------------------------

    /**
    n2 of p2 takes over what n1 of p1 names. An existing target is replaced if it is of the same kind,
    and empty if a directory; if both names stand for one inode nothing happens.
    */
    method RenameAt(p1: nat, n1: Name, p2: nat, n2: Name) returns (r: Result<(), NamespaceError>)
      requires Valid()
      modifies this`inodes, this`layouts
      ensures r.Ok? ==> Valid() && NameOk(n2) && CanRename(old(inodes), p1, n1, p2, n2)
      ensures r.Ok? ==> inodes == Renamed(old(inodes), p1, n1, p2, n2)
      ensures r.Err? ==> inodes == old(inodes) && layouts == old(layouts)
      ensures r.Err? && !FromBelow(r.error) ==>
        !NameOk(n2) || !CanRename(inodes, p1, n1, p2, n2) || TargetImmutable(inodes, p1, n1, p2, n2)
      ensures r.Ok? ==> !TargetImmutable(old(inodes), p1, n1, p2, n2)
      ensures NameOk(n2) && p1 in old(inodes) && !old(inodes)[p1].isDir ==> r == Err(NotADirectory)
      ensures NameOk(n2) && EntryAt(old(inodes), p1, n1).Some? && p2 in old(inodes) && !old(inodes)[p2].isDir ==>
        r == Err(NotADirectory)
      ensures r.Err? && !FromBelow(r.error) ==> RenameError(inodes, p1, n1, p2, n2, r.error)
      ensures r.Err? && FromBelow(r.error) ==>
        NameOk(n2) && Moves(inodes, p1, n1, p2, n2) && RenameFails(hash, inodes, layouts, below, p1, n1, p2, n2, r.error)
      ensures r.Ok? && Moves(old(inodes), p1, n1, p2, n2) ==>
        below.journal && !DirShape.Crowded(hash, ViewOf(Target(old(inodes), p1, n1, p2, n2)), n2)
    {
      hide GoodBut, AddName, DelName, Removed, Made, Renamed, Refs, Subdirs, Laid, D.LayoutOk, DirLayout.RemovalHasRoom, DirShape.Crowded;
      if !NameOk(n2) {
        return Err(BadName);
      }
      var t := inodes;
      if p1 !in t {
        return Err(NoSuchInode);
      }
      var src := t[p1];
      if !src.isDir {
        NoNames(t, root, p1);
        return Err(NotADirectory);
      }
      if n1 !in src.entries {
        return Err(NotFound);
      }
      var ent := src.entries[n1];
      EntryFacts(t, root, p1, n1);
      if p2 !in t {
        return Err(NoSuchInode);
      }
      var dst := t[p2];
      if !dst.isDir {
        return Err(NotADirectory);
      }
      if n2 in dst.entries && dst.entries[n2].ino == ent.ino {
        RenamedSame(t, p1, n1, p2, n2);
        return Ok(()); // both names stand for one inode
      }
      var free := MakeRoom(p1, n1, p2, n2);
      if free.Err? {
        return Err(free.error);
      }
      r := MoveInto(p1, n1, p2, n2, free.value);
    }

    /** With the target name free: move the entry, and with it a directory's link to its parent. */
    method MoveInto(p1: nat, n1: Name, p2: nat, n2: Name, room: Room) returns (r: Result<(), NamespaceError>)
      requires Valid() && NameOk(n2) && Moves(inodes, p1, n1, p2, n2) && Cleared(room, p2, n2)
      modifies this`inodes, this`layouts
      ensures r.Ok? ==> Valid() && inodes == Renamed(old(inodes), p1, n1, p2, n2)
      ensures r.Err? ==> inodes == old(inodes) && layouts == old(layouts) && FromBelow(r.error)
      ensures r.Ok? ==> below.journal && !DirShape.Crowded(hash, ViewOf(Target(old(inodes), p1, n1, p2, n2)), n2)
      ensures r.Err? && (n2 in inodes[p2].entries || room.layout == layouts[p2]) ==>
        RenameFails(hash, inodes, layouts, below, p1, n1, p2, n2, r.error)
    {
      hide GoodBut, AddName, DelName, Removed, Made, Renamed, Refs, Subdirs, Laid, D.LayoutOk, DirLayout.RemovalHasRoom, DirShape.Crowded;
      hide Replaceable, Without, NameMoved, RenameFails, Target;
      var t, src, dst := room.inodes, inodes[p1], room.target;
      var ent := src.entries[n1];
      EntryFacts(inodes, root, p1, n1);
      SourceStays(inodes, root, p1, n1, p2, n2, t, dst);
      LaidAt(hash, inodes, layouts, p1);
      var moved := MoveEntry(p1, n1, p2, n2, ent, src, dst, room.layout);
      LaidAt(hash, inodes, layouts, p2);
      MoveFails(hash, inodes, layouts, below, p1, n1, p2, n2, dst, room.layout);
      if moved.Err? {
        return Err(moved.error);
      }
      t := MoveName(p1, n1, p2, n2, ent, src, dst, t);
      var ok := Commit();
      if !ok {
        return Err(TransactionTooLarge);
      }
      RenameIs(inodes, root, p1, n1, p2, n2, room.inodes, room.target, t);
      RenameLaid(hash, inodes, root, layouts, p1, n1, p2, n2, room.inodes, room.target, t, moved.value);
      inodes, layouts := t, moved.value;
      r := Ok(());
    }

    /** The inodes with the name moved; a directory takes its link to the parent along. */
    static method MoveName(p1: nat, n1: Name, p2: nat, n2: Name, ent: Link, srcBefore: Inode, dstBefore: Inode, cleared: Table)
      returns (t: Table)
      ensures t == NameMoved(cleared, p1, n1, p2, n2, ent, srcBefore, dstBefore)
    {
      var src, dst := srcBefore, dstBefore;
      t := cleared;
      if p1 == p2 {
        dst := dst.(entries := dst.entries - {n1});
        dst := dst.(entries := dst.entries[n2 := ent]);
        t := t[p2 := dst];
      } else {
        src := src.(entries := src.entries - {n1});
        dst := dst.(entries := dst.entries[n2 := ent]);
        if ent.isDir {
          src := src.(nlink := Less(src.nlink));
          dst := dst.(nlink := dst.nlink + 1);
        }
        t := t[p1 := src];
        t := t[p2 := dst];
      }
    }

    /** The target name is free, or what it stands for may go and does. */
    method MakeRoom(p1: nat, n1: Name, p2: nat, n2: Name) returns (r: Result<Room, NamespaceError>)
      requires Valid() && p1 in inodes && inodes[p1].isDir && n1 in inodes[p1].entries && p2 in inodes && inodes[p2].isDir
      requires n2 in inodes[p2].entries ==> inodes[p2].entries[n2].ino != inodes[p1].entries[n1].ino
      ensures r.Ok? ==> CanRename(inodes, p1, n1, p2, n2) && !TargetImmutable(inodes, p1, n1, p2, n2)
      ensures r.Ok? ==> Cleared(r.value, p2, n2)
      ensures r.Err? && !FromBelow(r.error) ==> !CanRename(inodes, p1, n1, p2, n2) || TargetImmutable(inodes, p1, n1, p2, n2)
      ensures r == Err(HeaderOverflow) ==>
        n2 in inodes[p2].entries && !HasRoom(hash, inodes, layouts, p2, n2) && CanRename(inodes, p1, n1, p2, n2)
      ensures r.Err? && !FromBelow(r.error) ==> RenameError(inodes, p1, n1, p2, n2, r.error)
      ensures r.Ok? && n2 !in inodes[p2].entries ==> r.value.layout == layouts[p2]
      ensures r.Err? ==> r.error in {IsImmutable, IsADirectory, NotADirectory, NotEmpty, HeaderOverflow}
    {
      hide GoodBut, AddName, DelName, Removed, Made, Renamed, Refs, Subdirs, Laid, D.LayoutOk, DirLayout.RemovalHasRoom;
      var t, dst := inodes, inodes[p2];
      LaidAt(hash, inodes, layouts, p2);
      EntryFacts(t, root, p1, n1);
      if n2 !in dst.entries {
        assert t[p2 := dst] == t;
        return Ok(Room(t, dst, layouts[p2]));
      }
      var existing, isDir := dst.entries[n2], inodes[p1].entries[n1].isDir;
      EntryFacts(t, root, p2, n2);
      var ei := t[existing.ino];
      if ei.immutable {
        return Err(IsImmutable);
      }
      if ei.isDir != isDir {
        return Err(if ei.isDir then IsADirectory else NotADirectory);
      }
      if ei.isDir {
        if ei.entries != map[] {
          return Err(NotEmpty);
        }
        t := Free(t, existing.ino);
        dst := dst.(nlink := Less(dst.nlink));
      } else {
        ei := ei.(nlink := Less(ei.nlink));
        if ei.nlink == 0 {
          t := Free(t, existing.ino);
        } else {
          t := t[existing.ino := ei];
        }
      }
      var without := DirRemove(layouts[p2], dst.entries, n2);
      if without.Err? {
        return Err(without.error);
      }
      dst := dst.(entries := dst.entries - {n2});
      RemovedIs(inodes, p2, n2);
      r := Ok(Room(t, dst, without.value));
    }

    /** The inodes without what n2 stood for, the target directory without the name, and its layout. */
    ghost predicate Cleared(room: Room, p2: nat, n2: Name)
      requires p2 in inodes && (n2 in inodes[p2].entries ==> inodes[p2].entries[n2].ino in inodes)
      reads this
    {
      && room.inodes[p2 := room.target] == Without(inodes, p2, n2)
      && room.target.entries == inodes[p2].entries - {n2}
      && D.LayoutOk(hash, room.layout, ViewOf(room.target.entries))
    }

    /** Take the entry out of the source and put it into the target, which may be the same directory. */
    method MoveEntry(p1: nat, n1: Name, p2: nat, n2: Name, ent: Link, src: Inode, dst: Inode, dstLayout: D.Layout)
      returns (r: Result<Layouts, NamespaceError>)
      requires p1 in layouts && ent.ino != 0 && |n2| <= MAX_NAME && n2 !in dst.entries
      requires D.LayoutOk(hash, dstLayout, ViewOf(dst.entries))
      requires if p1 == p2 then n1 in dst.entries && n1 != n2
               else n1 in src.entries && D.LayoutOk(hash, layouts[p1], ViewOf(src.entries))
      ensures r.Ok? ==> p1 in r.value && p2 in r.value && forall i :: i in layouts && i != p1 && i != p2 ==> i in r.value && r.value[i] == layouts[i]
      ensures r.Ok? && p1 == p2 ==> D.LayoutOk(hash, r.value[p2], ViewOf((dst.entries - {n1})[n2 := ent]))
      ensures r.Ok? && p1 != p2 ==>
        && D.LayoutOk(hash, r.value[p1], ViewOf(src.entries - {n1}))
        && D.LayoutOk(hash, r.value[p2], ViewOf(dst.entries[n2 := ent]))
      ensures r.Ok? ==> !DirShape.Crowded(hash, ViewOf(if p1 == p2 then dst.entries - {n1} else dst.entries), n2)
      ensures r.Err? ==> MoveError(hash, layouts, below, p1, n1, p2, n2, src, dst, dstLayout, r.error)
    {
      hide D.LayoutOk, DirLayout.RemovalHasRoom, DirShape.Crowded;
      if p1 == p2 {
        var without := DirRemove(dstLayout, dst.entries, n1);
        if without.Err? {
          return Err(without.error);
        }
        var stored := DirInsert(without.value, dst.entries - {n1}, n2, ent);
        if stored.Err? {
          return Err(stored.error);
        }
        return Ok(layouts[p2 := stored.value]);
      }
      var without := DirRemove(layouts[p1], src.entries, n1);
      if without.Err? {
        return Err(without.error);
      }
      var stored := DirInsert(dstLayout, dst.entries, n2, ent);
      if stored.Err? {
        return Err(stored.error);
      }
      return Ok(layouts[p1 := without.value][p2 := stored.value]);
    }
  }

  // --- facts -----------------------------------------------------------------------------------------

  /** A request for a new name that must be refused, whatever it is to stand for. */
  ghost predicate MayNotName(t: Table, parent: nat, name: Name) {
    !NameOk(name) || parent !in t || !t[parent].isDir || name in t[parent].entries
  }

  /** Why it is refused. */
  ghost predicate NamingError(t: Table, parent: nat, name: Name, e: NamespaceError) {
    || (e == BadName && !NameOk(name))
    || (e == NoSuchInode && parent !in t)
    || (e == NotADirectory && parent in t && !t[parent].isDir)
    || (e == Exists && parent in t && name in t[parent].entries)
  }

  ghost predicate TargetTooLong(data: Option<nat>) {
    data.Some? && data.value > INODE_PAYLOAD
  }

  /** The entries that share the name's top hash bits leave it no room. */
  ghost predicate Full(hash: Name -> HashedDir.Hash64, t: Table, d: nat, name: Name) {
    d in t && DirShape.Crowded(hash, ViewOf(t[d].entries), name)
  }

  /** An error of a layer below has its cause there; a directory's header never overflows on a new name. */
  ghost predicate BelowError(hash: Name -> HashedDir.Hash64, t: Table, below: Below, parent: nat, name: Name, e: NamespaceError,
      noSlot: bool) {
    && (e == NoSpace ==> noSlot || !below.blocks)
    && (e == DepthLimit ==> Full(hash, t, parent, name))
    && (e == TransactionTooLarge ==> !below.journal)
    && e != HeaderOverflow
  }

  ghost predicate Fresh(t: Table, parent: nat, name: Name, ino: nat) {
    parent in t && t[parent].isDir && name !in t[parent].entries && ino !in t
  }

  /** The name is there, stands for the kind of inode asked for, which may go, and is empty if a directory. */
  ghost predicate Removable(t: Table, parent: nat, name: Name, wantDir: bool) {
    && parent in t && name in t[parent].entries && t[parent].entries[name].ino in t
    && var i := t[t[parent].entries[name].ino];
    && i.isDir == wantDir && !i.immutable && (wantDir ==> i.entries == map[])
  }

  /** The error of a removal: the first cause there is, in the order in which they are tested. */
  ghost predicate RemovalError(hash: Name -> HashedDir.Hash64, t: Table, layouts: Layouts, parent: nat, name: Name, wantDir: bool,
      e: NamespaceError) {
    if parent !in t then e == NoSuchInode
    else if !t[parent].isDir then e == NotADirectory
    else if name !in t[parent].entries then e == NotFound
    else t[parent].entries[name].ino in t && var i := t[t[parent].entries[name].ino];
      if wantDir != i.isDir then e == if wantDir then NotADirectory else IsADirectory
      else if i.immutable then e == IsImmutable
      else if wantDir && i.entries != map[] then e == NotEmpty
      else e == if HasRoom(hash, t, layouts, parent, name) then TransactionTooLarge else HeaderOverflow
  }

  /** The entries that a renamed entry joins: those of the target without both names. */
  function Target(t: Table, p1: nat, n1: Name, p2: nat, n2: Name): map<Name, Link>
    requires p2 in t
  {
    t[p2].entries - {n2} - (if p1 == p2 then {n1} else {})
  }

  /** Why a rename is refused. */
  ghost predicate RenameError(t: Table, p1: nat, n1: Name, p2: nat, n2: Name, e: NamespaceError) {
    || (e == BadName && !NameOk(n2))
    || (e == NoSuchInode && (p1 !in t || p2 !in t))
    || (e == NotADirectory && ((p1 in t && !t[p1].isDir) || (p2 in t && !t[p2].isDir)))
    || (e == NotFound && p1 in t && n1 !in t[p1].entries)
    || (EntryAt(t, p1, n1).Some? && EntryAt(t, p2, n2).Some? && EntryAt(t, p2, n2).value.ino in t
        && var i := t[EntryAt(t, p2, n2).value.ino];
           || (e == IsImmutable && i.immutable)
           || (e == IsADirectory && i.isDir && !EntryAt(t, p1, n1).value.isDir)
           || (e == NotADirectory && !i.isDir && EntryAt(t, p1, n1).value.isDir)
           || (e == NotEmpty && i.isDir && i.entries != map[]))
  }

  /** Why one that is not refused fails all the same. */
  ghost predicate RenameFails(hash: Name -> HashedDir.Hash64, t: Table, layouts: Layouts, below: Below, p1: nat, n1: Name, p2: nat, n2: Name,
      e: NamespaceError)
    requires p2 in t
  {
    && (e == NoSpace ==> !below.blocks)
    && (e == TransactionTooLarge ==> !below.journal)
    && (e == DepthLimit ==> DirShape.Crowded(hash, ViewOf(Target(t, p1, n1, p2, n2)), n2))
    && (e == HeaderOverflow && (p1 != p2 || n2 !in t[p2].entries) ==>
          !HasRoom(hash, t, layouts, p1, n1) || (n2 in t[p2].entries && !HasRoom(hash, t, layouts, p2, n2)))
  }

  ghost predicate MoveError(hash: Name -> HashedDir.Hash64, layouts: Layouts, below: Below, p1: nat, n1: Name, p2: nat, n2: Name, src: Inode, dst: Inode,
      dstLayout: D.Layout, e: NamespaceError)
    requires p1 in layouts
  {
    || (e == NoSpace && !below.blocks)
    || (e == DepthLimit && DirShape.Crowded(hash, ViewOf(if p1 == p2 then dst.entries - {n1} else dst.entries), n2))
    || (e == HeaderOverflow
        && !DirLayout.RemovalHasRoom(hash, if p1 == p2 then dstLayout else layouts[p1], ViewOf(if p1 == p2 then dst.entries else src.entries), n1))
  }

  /** How the failures of moving an entry look from before room was made for it. */
  lemma MoveFails(hash: Name -> HashedDir.Hash64, t: Table, layouts: Layouts, below: Below, p1: nat, n1: Name, p2: nat, n2: Name, dst: Inode,
      dstLayout: D.Layout)
    requires p1 in t && p2 in t && p1 in layouts && p2 in layouts && dst.entries == t[p2].entries - {n2}
    ensures Target(t, p1, n1, p2, n2) == if p1 == p2 then dst.entries - {n1} else dst.entries
    ensures forall e :: MoveError(hash, layouts, below, p1, n1, p2, n2, t[p1], dst, dstLayout, e) && (n2 in t[p2].entries || dstLayout == layouts[p2]) ==>
      RenameFails(hash, t, layouts, below, p1, n1, p2, n2, e)
    ensures !below.journal ==> RenameFails(hash, t, layouts, below, p1, n1, p2, n2, TransactionTooLarge)
  {
    hide DirLayout.RemovalHasRoom, DirShape.Crowded;
    assert dst.entries - {} == dst.entries;
    assert n2 !in t[p2].entries ==> dst.entries == t[p2].entries;
  }

  ghost predicate TargetImmutable(t: Table, p1: nat, n1: Name, p2: nat, n2: Name) {
    && EntryAt(t, p1, n1).Some? && EntryAt(t, p2, n2).Some?
    && EntryAt(t, p2, n2).value.ino != EntryAt(t, p1, n1).value.ino
    && EntryAt(t, p2, n2).value.ino in t && t[EntryAt(t, p2, n2).value.ino].immutable
  }

  // --- layouts ---------------------------------------------------------------------------------------

  lemma LaidAt(hash: Name -> HashedDir.Hash64, t: Table, layouts: Layouts, d: nat)
    requires Laid(hash, t, layouts) && d in t && t[d].isDir
    ensures d in layouts && D.LayoutOk(hash, layouts[d], ViewOf(t[d].entries))
  {
  }

  /** Directories other than the changed ones keep entries and layout. */
  lemma LaidAfter(hash: Name -> HashedDir.Hash64, t: Table, layouts: Layouts, u: Table, now: Layouts, changed: set<nat>)
    requires Laid(hash, t, layouts)
    requires forall i :: i in u && u[i].isDir && i !in changed ==> i in t && t[i].isDir && t[i].entries == u[i].entries
    requires forall i :: i in layouts && i !in changed ==> i in now && now[i] == layouts[i]
    requires forall i :: i in u && u[i].isDir && i in changed ==> i in now && D.LayoutOk(hash, now[i], ViewOf(u[i].entries))
    ensures Laid(hash, u, now)
  {
    hide D.LayoutOk;
  }

  lemma ViewAdded(entries: map<Name, Link>, name: Name, link: Link)
    ensures ViewOf(entries[name := link]) == ViewOf(entries)[name := HashedDir.Ref(link.ino, FileType(link.isDir))]
  {
  }

  lemma ViewRemoved(entries: map<Name, Link>, name: Name)
    ensures ViewOf(entries - {name}) == ViewOf(entries) - {name}
  {
  }

  lemma NothingShown()
    ensures ViewOf(map[]) == map[]
  {
  }

  lemma KernelView(k: nat)
    ensures ViewOf(map[KERNEL_BIN := Link(k, false)]) == map[KERNEL_BIN := HashedDir.Ref(k, DT_FILE)]
  {
  }

  lemma EntryFacts(t: Table, root: nat, d: nat, n: Name)
    requires Good(t, root) && d in t && t[d].isDir && n in t[d].entries
    ensures var l := t[d].entries[n];
      && LinkOk(t, l) && (l.isDir ==> t[d].nlink >= 3) && (!l.isDir ==> t[l.ino].nlink >= 1)
      && (!l.isDir ==> t[l.ino].entries == map[] && l.ino != d)
  {
    DelNameGood(t, root, d, n);
    assert FileCounts(t, t[d].entries[n].ino, {});
  }

  /** Only directories have names in them. */
  lemma NoNames(t: Table, root: nat, i: nat)
    requires Good(t, root) && i in t && !t[i].isDir
    ensures t[i].entries == map[]
  {
    assert FileCounts(t, i, {});
  }

  lemma RootIsDir(t: Table, root: nat)
    requires Good(t, root)
    ensures root in t && t[root].isDir
  {
  }

  lemma RenamedSame(t: Table, p1: nat, n1: Name, p2: nat, n2: Name)
    requires CanRename(t, p1, n1, p2, n2) && !Moves(t, p1, n1, p2, n2)
    ensures Renamed(t, p1, n1, p2, n2) == t
  {
  }

  /** After the replacement the source name still stands for the same inode, and its counts allow the move. */
  lemma AfterReplacing(t: Table, root: nat, p1: nat, n1: Name, p2: nat, n2: Name)
    requires Good(t, root) && Moves(t, p1, n1, p2, n2)
    ensures var u := if n2 in t[p2].entries then Removed(t, p2, n2) else t;
      && p1 in u && p2 in u && n1 in u[p1].entries && u[p1].entries[n1] == t[p1].entries[n1]
      && n2 !in u[p2].entries && (p1 != p2 ==> u[p1] == t[p1])
      && var l := u[p1].entries[n1];
      && l.ino in u && u[l.ino].isDir == l.isDir && u[p1].isDir && u[p2].isDir
      && (if l.isDir then u[p1].nlink >= 1 else u[l.ino].nlink >= 1)
  {
    hide GoodBut, Removed;
    if n2 in t[p2].entries {
      ReplacedKeeps(t, p1, n1, p2, n2);
      RemovedGood(t, root, p2, n2);
      EntryFacts(Removed(t, p2, n2), root, p1, n1);
      if p1 != p2 {
        NotTheSource(t, p1, n1, p2, n2);
        OtherStays(t, p1, p2, n2);
      }
    } else {
      EntryFacts(t, root, p1, n1);
    }
  }

  lemma NotTheSource(t: Table, p1: nat, n1: Name, p2: nat, n2: Name)
    requires Moves(t, p1, n1, p2, n2) && n2 in t[p2].entries
    ensures p1 != t[p2].entries[n2].ino && t[p2].entries[n2].ino in t
  {
  }

  lemma OtherStays(t: Table, p1: nat, p2: nat, n2: Name)
    requires p1 in t && p2 in t && n2 in t[p2].entries && t[p2].entries[n2].ino in t && p1 != p2
    requires p1 != t[p2].entries[n2].ino
    ensures p1 in Removed(t, p2, n2) && Removed(t, p2, n2)[p1] == t[p1]
  {
  }

  /** Removing a name leaves the other directories' entries. */
  lemma OthersKept(t: Table, d: nat, n: Name)
    requires d in t && (n in t[d].entries ==> t[d].entries[n].ino in t)
    ensures var u := Without(t, d, n);
      forall i :: i in u && i != d ==> i in t && u[i].isDir == t[i].isDir && u[i].entries == t[i].entries
  {
  }

  /** What the room made for the new name leaves of the source. */
  lemma SourceStays(t: Table, root: nat, p1: nat, n1: Name, p2: nat, n2: Name, cleared: Table, dst: Inode)
    requires Good(t, root) && Moves(t, p1, n1, p2, n2)
    requires cleared[p2 := dst] == Without(t, p2, n2) && dst.entries == t[p2].entries - {n2}
    ensures n2 !in dst.entries && t[p1].entries[n1].ino in t && (p1 == p2 ==> n1 in dst.entries && n1 != n2)
    ensures p1 != p2 ==> p1 in cleared && cleared[p1] == t[p1]
  {
    hide GoodBut, Removed;
    AfterReplacing(t, root, p1, n1, p2, n2);
    EntryFacts(t, root, p1, n1);
    assert p1 != p2 ==> cleared[p2 := dst][p1] == cleared[p1];
  }

  function NameMoved(t: Table, p1: nat, n1: Name, p2: nat, n2: Name, ent: Link, src: Inode, dst: Inode): Table {
    if p1 == p2 then t[p2 := dst.(entries := (dst.entries - {n1})[n2 := ent])]
    else t[p1 := src.(entries := src.entries - {n1}, nlink := if ent.isDir then Less(src.nlink) else src.nlink)]
          [p2 := dst.(entries := dst.entries[n2 := ent], nlink := if ent.isDir then dst.nlink + 1 else dst.nlink)]
  }

  /** The explicit updates are the rename. */
  lemma RenameIs(t: Table, root: nat, p1: nat, n1: Name, p2: nat, n2: Name, cleared: Table, dst: Inode, now: Table)
    requires Good(t, root) && Moves(t, p1, n1, p2, n2)
    requires cleared[p2 := dst] == Without(t, p2, n2) && dst.entries == t[p2].entries - {n2}
    requires now == NameMoved(cleared, p1, n1, p2, n2, t[p1].entries[n1], t[p1], dst)
    ensures now == Renamed(t, p1, n1, p2, n2) && Good(now, root)
    ensures forall i :: i in now && i != p1 && i != p2 ==> i in t && now[i].isDir == t[i].isDir && now[i].entries == t[i].entries
  {
    hide GoodBut, Removed, AddName, DelName, Renamed;
    var u := Without(t, p2, n2);
    SourceStays(t, root, p1, n1, p2, n2, cleared, dst);
    AfterReplacing(t, root, p1, n1, p2, n2);
    RenamedGood(t, root, p1, n1, p2, n2);
    MovedIs(u, p1, n1, p2, n2);
    RenamedIs(t, p1, n1, p2, n2);
    EntryFacts(t, root, p1, n1);
    OthersKept(t, p2, n2);
    assert u[p2] == dst;
    forall i | i in now && i != p1 && i != p2 ensures i in u && now[i] == u[i] {
      assert now[i] == cleared[i] == cleared[p2 := dst][i];
    }
  }

  /** With the layouts of source and target stored anew, what is stored shows every directory. */
  lemma RenameLaid(hash: Name -> HashedDir.Hash64, t: Table, root: nat, layouts: Layouts, p1: nat, n1: Name, p2: nat, n2: Name,
      cleared: Table, dst: Inode, now: Table, stored: Layouts)
    requires Good(t, root) && Moves(t, p1, n1, p2, n2) && Laid(hash, t, layouts)
    requires now == NameMoved(cleared, p1, n1, p2, n2, t[p1].entries[n1], t[p1], dst)
    requires forall i :: i in now && i != p1 && i != p2 ==> i in t && now[i].isDir == t[i].isDir && now[i].entries == t[i].entries
    requires forall i :: i in layouts && i != p1 && i != p2 ==> i in stored && stored[i] == layouts[i]
    requires p1 in stored && p2 in stored
    requires var ent := t[p1].entries[n1];
      if p1 == p2 then D.LayoutOk(hash, stored[p2], ViewOf((dst.entries - {n1})[n2 := ent]))
      else D.LayoutOk(hash, stored[p1], ViewOf(t[p1].entries - {n1})) && D.LayoutOk(hash, stored[p2], ViewOf(dst.entries[n2 := ent]))
    ensures Laid(hash, now, stored)
  {
    hide GoodBut, D.LayoutOk;
    LaidAfter(hash, t, layouts, now, stored, {p1, p2});
  }

  lemma RenamedIs(t: Table, p1: nat, n1: Name, p2: nat, n2: Name)
    requires Moves(t, p1, n1, p2, n2)
    ensures var u := if n2 in t[p2].entries then Removed(t, p2, n2) else t;
      && p1 in u && n1 in u[p1].entries && u[p1].entries[n1].ino in u && p2 in u
      && Renamed(t, p1, n1, p2, n2) == AddName(DelName(u, p1, n1), p2, n2, u[p1].entries[n1])
  {
    if n2 in t[p2].entries {
      ReplacedKeeps(t, p1, n1, p2, n2);
    }
  }

  lemma WithKernel(r: nat, k: nat)
    requires k != r
    ensures var u := map[r := Inode(true, 2, false, map[KERNEL_BIN := Link(k, false)]), k := Inode(false, 1, true, map[])];
      Good(u, r) && Connected(u, r)
  {
    var alone: Table := map[r := Inode(true, 2, false, map[])];
    RootAlone(alone, r);
    MadeGood(alone, r, r, KERNEL_BIN, k, false);
    MadeConnected(alone, r, r, KERNEL_BIN, k, false);
    var t := Made(alone, r, KERNEL_BIN, k, false);
    var u := t[k := t[k].(immutable := true)];
    assert u == map[r := Inode(true, 2, false, map[KERNEL_BIN := Link(k, false)]), k := Inode(false, 1, true, map[])];
    ImmutableKeeps(t, r, k);
  }

  /** Whether an inode is immutable does not matter to links and reachability. */
  lemma ImmutableKeeps(t: Table, root: nat, k: nat)
    requires Good(t, root) && Connected(t, root) && k in t
    ensures var u := t[k := t[k].(immutable := true)]; Good(u, root) && Connected(u, root)
  {
    hide GoodBut, Refs, Connected, EntryAt;
    var u := t[k := t[k].(immutable := true)];
    SameRefs(t, k);
    SameLinksGood(t, u, root);
    SameLinksConnected(t, u, root);
  }

  lemma SameRefs(t: Table, k: nat)
    requires k in t
    ensures var u := t[k := t[k].(immutable := true)]; forall i :: Refs(u, i) == Refs(t, i)
    ensures var u := t[k := t[k].(immutable := true)]; forall d, n :: EntryAt(u, d, n) == EntryAt(t, d, n)
  {
  }

  lemma SameLinksGood(t: Table, u: Table, root: nat)
    requires Good(t, root) && u.Keys == t.Keys && forall i :: Refs(u, i) == Refs(t, i)
    requires forall i :: i in t ==> u[i].isDir == t[i].isDir && u[i].nlink == t[i].nlink && u[i].entries == t[i].entries
    ensures Good(u, root)
  {
    hide Refs, Subdirs;
    forall i | i in u ensures DirCounts(u, i) && FileCounts(u, i, {}) && NamedOnce(u, root, i, {}) && LinksOk(u, i) {
      assert DirCounts(t, i) && FileCounts(t, i, {}) && NamedOnce(t, root, i, {}) && LinksOk(t, i);
      forall n | n in u[i].entries ensures LinkOk(u, u[i].entries[n]) {
        assert LinkOk(t, t[i].entries[n]);
      }
    }
  }

  lemma SameLinksConnected(t: Table, u: Table, root: nat)
    requires Connected(t, root) && u.Keys == t.Keys && forall d, n :: EntryAt(u, d, n) == EntryAt(t, d, n)
    requires forall x :: x in t ==> u[x].isDir == t[x].isDir
    ensures Connected(u, root)
  {
    hide EntryAt;
    forall x | x in u && u[x].isDir ensures Reaches(u, x, root) {
      assert Reaches(t, x, root);
      var path :| Chain(t, path, x, root);
      forall i | 0 <= i < |path| - 1 && Above(t, path[i + 1], path[i]) ensures Above(u, path[i + 1], path[i]) {
        var n :| EntryAt(t, path[i + 1], n) == Some(Link(path[i], true));
        assert EntryAt(u, path[i + 1], n) == Some(Link(path[i], true));
      }
      ChainKept(t, u, path, x, root);
    }
  }
}
