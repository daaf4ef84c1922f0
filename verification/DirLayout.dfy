/** Directory operations on what is stored: read it, change it, hand back what is to be stored. */
module DirLayout {
  import opened Wrappers
  import opened HashedDir
  import opened DirShape
  import opened DirSpace
  import opened Directory

  const NOTHING_STORED := Layout(Empty, [], Hashed(0, 0, [], [], map[]))

  /** Taking the name out leaves the header room for what merging gives back. */
  ghost predicate RemovalHasRoom(hash: Name -> Hash64, l: Layout, view: View, name: Name) {
    l.format == HashedFormat ==> Numbering(l.d) && RemovalFits(hash, l.d, view - {name}, name)
  }

  method InsertInto(hash: Name -> Hash64, l: Layout, ghost view: View, entry: DirEntry) returns (r: Result<Layout, DirError>)
    requires LayoutOk(hash, l, view) && entry.ino != 0 && |entry.name| <= MAX_NAME
    ensures r == Err(AlreadyExists) <==> entry.name in view
    ensures r.Ok? ==> LayoutOk(hash, r.value, view[entry.name := Ref(entry.ino, entry.ftype)])
    ensures r.Err? ==> r.error in {AlreadyExists, DepthLimit}
    ensures r == Err(DepthLimit) <==> entry.name !in view && Crowded(hash, view, entry.name)
  {
    hide LayoutOk, Crowded;
    var dir := new Directory.Load(hash, l, view);
    var done := dir.DirInsert(entry);
    dir.ValidSaved();
    match done {
      case Ok(_) => r := Ok(dir.Save());
      case Err(e) => r := Err(e);
    }
  }

  method RemoveFrom(hash: Name -> Hash64, l: Layout, ghost view: View, name: Name) returns (r: Result<Layout, DirError>)
    requires LayoutOk(hash, l, view)
    ensures r == Err(NotFound) <==> name !in view
    ensures r.Ok? ==> LayoutOk(hash, r.value, view - {name})
    ensures r.Err? ==> r.error in {NotFound, HeaderOverflow}
    ensures r == Err(HeaderOverflow) <==> name in view && !RemovalHasRoom(hash, l, view, name)
    ensures r.Ok? && r.value.format == HashedFormat ==> l.format == HashedFormat && r.value.d.nbuckets == l.d.nbuckets
  {
    hide RemovalFits;
    var dir := new Directory.Load(hash, l, view);
    var done := dir.DirRemove(name);
    dir.ValidSaved();
    match done {
      case Ok(_) => r := Ok(dir.Save());
      case Err(e) => r := Err(e);
    }
  }

  lemma NothingStored(hash: Name -> Hash64)
    ensures LayoutOk(hash, NOTHING_STORED, map[])
  {
  }

  lemma OneStored(hash: Name -> Hash64, entry: DirEntry)
    requires 10 + 2 * |entry.name| <= INODE_PAYLOAD
    ensures LayoutOk(hash, NOTHING_STORED.(format := Embed, embedded := [entry]), map[entry.name := Ref(entry.ino, entry.ftype)])
  {
    var es := [entry];
    assert es[..0] == [];
    assert EmbedUsed(es) == EmbedUsed(es[..0]) + 10 + 2 * |entry.name|;
    assert es[0] == entry;
  }
}
