/**
Growing and shrinking a volume: adding a group, moving one as a whole, retiring an
empty one, and emptying the tail of the device. Only the AG map changes; block
addresses stay what they are.
*/
module Resize {
  import opened Wrappers
  import opened Geometry
  import opened ExtentTree
  import opened ExtentSpec
  import opened AllocFormat
  import opened AllocTree
  import opened ResizeLaws
  import opened RelocateCopy

  const U32 := 0x1_0000_0000

  datatype ResizeError = Unaligned | TooSmall | Overlaps | NoSuchAg | NotPresent | Immovable | PastEnd | NotEmpty | FirstAg | NoRoom | NoGrowth | MapFull

  class Disk {
    var entries: seq<AgEntry>
    var dev: seq<bv8>
    /** Blocks allocated in each group, as its header says. */
    var full: seq<nat>
    var nextAg: nat
    /** Bytes set aside for a copy of the map. */
    const capacity: nat

    ghost predicate Valid()
      reads this
    {
      MapOk(entries, |dev|) && |full| == |entries| == nextAg && nextAg < U32 && MapBytes(entries) <= capacity
    }

    // --- looking around -----------------------------------------------------------------------

    /** A stretch reaches into a segment of a group other than skip. */
    method OverlapsExcluding(off: nat, len: nat, skip: int) returns (r: bool)
      ensures r <==> Overlapping(entries, off, len, skip)
    {
      for a := 0 to |entries|
        invariant forall b, i :: 0 <= b < a && b != skip && 0 <= i < |entries[b].segs| ==> !Meets(off, len, entries[b].segs[i])
      {
        if a != skip {
          for i := 0 to |entries[a].segs|
            invariant forall j :: 0 <= j < i ==> !Meets(off, len, entries[a].segs[j])
          {
            if Meets(off, len, entries[a].segs[i]) {
              return true;
            }
          }
        }
      }
      return false;
    }

    /** All mapped stretches, in no particular order. */
    method Collect() returns (all: seq<Extent>)
      ensures Listed(entries, all)
    {
      all := [];
      for a := 0 to |entries|
        invariant forall b, i :: 0 <= b < a && 0 <= i < |entries[b].segs| ==> Stretch(entries[b].segs[i]) in all
        invariant forall x :: x in all ==> IsStretch(entries, x)
      {
        for i := 0 to |entries[a].segs|
          invariant forall b, j :: 0 <= b < a && 0 <= j < |entries[b].segs| ==> Stretch(entries[b].segs[j]) in all
          invariant forall j :: 0 <= j < i ==> Stretch(entries[a].segs[j]) in all
          invariant forall x :: x in all ==> IsStretch(entries, x)
        {
          var s := Stretch(entries[a].segs[i]);
          assert IsStretch(entries, s);
          all := all + [s];
        }
      }
    }

    /** The lowest place for bytes bytes below limit that nothing is mapped to, if there is one. */
    method FindGap(bytes: nat, limit: nat) returns (r: Option<nat>)
      requires bytes >= 1
      ensures r.Some? ==> LowestVacant(entries, r.value, bytes, limit)
      ensures r.None? ==> forall g: nat :: !VacantBelow(entries, g, bytes, limit)
      ensures r.Some? ==> r.value == 0 || exists a, i :: 0 <= a < |entries| && 0 <= i < |entries[a].segs| && r.value == SegEnd(entries[a].segs[i])
    {
      var all := Collect();
      var sorted := Sorted(all);
      SortedOrder(all);
      var cursor := 0;
      for k := 0 to |sorted|
        invariant forall j :: 0 <= j < k ==> sorted[j].first + sorted[j].blocks <= cursor
        invariant cursor == 0 || exists j :: 0 <= j < k && cursor == sorted[j].first + sorted[j].blocks
        invariant forall g: nat :: g < cursor ==> !Clear(all, g, bytes) || g + bytes > limit
      {
        var s0, s1 := sorted[k].first, sorted[k].first + sorted[k].blocks;
        if s0 > cursor && (if s0 < limit then s0 else limit) - cursor >= bytes {
          GapHere(entries, all, sorted, k, cursor, bytes);
          LowestGap(entries, all, cursor, bytes, limit);
          return Some(cursor);
        }
        NoGapBefore(all, sorted, k, cursor, bytes, limit);
        cursor := if s1 > cursor then s1 else cursor;
      }
      if limit - cursor >= bytes {
        GapHere(entries, all, sorted, |sorted|, cursor, bytes);
        LowestGap(entries, all, cursor, bytes, limit);
        return Some(cursor);
      }
      LowestGap(entries, all, cursor, bytes, limit);
      return None;
    }

    /** The end of the last mapped segment. */
    method MappedEnd() returns (end: nat)
      ensures EndsAt(entries, end)
    {
      end := 0;
      for a := 0 to |entries|
        invariant forall b, i :: 0 <= b < a && 0 <= i < |entries[b].segs| ==> SegEnd(entries[b].segs[i]) <= end
        invariant end == 0 || exists b, i :: 0 <= b < |entries| && 0 <= i < |entries[b].segs| && end == SegEnd(entries[b].segs[i])
      {
        for i := 0 to |entries[a].segs|
          invariant forall b, j :: 0 <= b < a && 0 <= j < |entries[b].segs| ==> SegEnd(entries[b].segs[j]) <= end
          invariant forall j :: 0 <= j < i ==> SegEnd(entries[a].segs[j]) <= end
          invariant end == 0 || exists b, j :: 0 <= b < |entries| && 0 <= j < |entries[b].segs| && end == SegEnd(entries[b].segs[j])
        {
          if SegEnd(entries[a].segs[i]) > end {
            end := SegEnd(entries[a].segs[i]);
          }
        }
      }
    }

    /** Write entry after entry; that fails when the map no longer fits its place. */
    method WriteMap() returns (ok: bool)
      ensures ok <==> entries == [] || MapBytes(entries) <= capacity
    {
      var off := MAP_HDR;
      for a := 0 to |entries|
        invariant off == MapBytes(entries[..a]) && (a > 0 ==> off <= capacity)
      {
        MapBytesNext(entries, a);
        if off + 8 + 16 * |entries[a].segs| > capacity {
          return false;
        }
        off := off + 8 + 16 * |entries[a].segs|;
      }
      assert entries[..|entries|] == entries;
      return true;
    }

    /** The bytes of a header or table; what they say is the allocator's business. */
    method Metadata(n: nat) returns (buf: seq<bv8>)
      ensures |buf| == n
    {
      var content: nat -> bv8 := *;
      buf := seq(n, i requires 0 <= i => content(i));
    }

    // --- adding -----------------------------------------------------------------------------------

    /** A new group in an unmapped region of the device. Its metadata goes to the region's start. */
    method AddAg(off: nat, bytes: nat) returns (r: Result<nat, ResizeError>)
      requires Valid() && off + bytes <= |dev| && nextAg + 1 < U32
      modifies this
      ensures r.Ok? ==> Valid() && r.value == old(nextAg) && |dev| == old(|dev|)
      ensures r.Ok? ==> entries == old(entries) + [NewEntry(off, bytes)]
      ensures r.Ok? ==> full == old(full) + [0]
      ensures r.Ok? ==> SameContents(old(entries), old(dev), entries, dev, {r.value})
      ensures r.Err? <==> !Addable(old(entries), off, bytes) || MapBytes(old(entries) + [NewEntry(off, bytes)]) > capacity
      ensures r.Err? ==> r.error == AddError(old(entries), off, bytes)
      ensures r.Err? && r.error != MapFull ==> entries == old(entries) && dev == old(dev)
    {
      hide SameContents, Overlapping, MapBytes, Content, MapOk;
      if off % BLOCKSIZE != 0 {
        return Err(Unaligned);
      }
      var agLen := bytes / BLOCKSIZE % U32;
      if agLen < MIN_LENGTH {
        return Err(TooSmall);
      }
      var taken := OverlapsExcluding(off, bytes, -1);
      if taken {
        return Err(Overlaps);
      }
      HeadFits(agLen);
      MetadataFits(agLen, bytes);
      // no address leads to the region yet, so its blocks need no journaling
      var header := Metadata(BLOCKSIZE);
      var table := Metadata(Bytes(RtBlocks(agLen)));
      ghost var before, wasEntries := dev, entries;
      dev := Put(dev, off, header);
      dev := Put(dev, off + BLOCKSIZE, table);
      assert SameOutside(before, dev, off, bytes);
      var e := NewEntry(off, bytes);
      NarrowerIsFree(wasEntries, off, bytes, Bytes(agLen), -1);
      AddedOk(wasEntries, |before|, e);
      AddedContents(wasEntries, before, dev, e, off, bytes);
      entries := entries + [e];
      full := full + [0];
      var ag := nextAg;
      nextAg := nextAg + 1;
      var ok := WriteMap();
      if !ok {
        return Err(MapFull);
      }
      r := Ok(ag);
    }

    /** Extend the device and put a new group into what was added. */
    method Grow(newSize: nat) returns (r: Result<nat, ResizeError>)
      requires Valid() && nextAg + 1 < U32
      modifies this
      ensures r.Ok? ==> Valid() && r.value == old(nextAg) && |dev| == if newSize > |old(dev)| then newSize else |old(dev)|
      ensures r.Ok? ==> SameContents(old(entries), old(dev), entries, dev, {r.value})
      ensures exists end :: EndsAt(old(entries), end) && Grown(old(entries), entries, end, newSize, capacity, if r.Ok? then None else Some(r.error))
    {
      hide SameContents, MapOk, EndsAt, Overlapping, MapBytes, Content;
      var end := MappedEnd();
      if newSize <= end {
        return Err(NoGrowth);
      }
      ghost var before := dev;
      if newSize > |dev| {
        SetLen(newSize);
      }
      ghost var longer := dev;
      LongerDevice(entries, before, longer);
      BehindAll(entries, |before|, end, newSize - end);
      r := AddAg(end, newSize - end);
      assert Grown(old(entries), entries, end, newSize, capacity, if r.Ok? then None else Some(r.error));
      if r.Ok? {
        ContentsTrans(old(entries), before, old(entries), longer, entries, dev, {}, {r.value});
        assert {} + {r.value} == {r.value};
      }
    }

    // --- moving -------------------------------------------------------------------------------------

    /**
    Move a whole group to an unmapped region. Every block address of every group reads as before if no
    chunk is overwritten before it is read, which takes a region that reaches into the group's own segments.
    */
    method Relocate(ag: nat, dest: nat) returns (r: Result<(), ResizeError>)
      requires Valid()
      modifies this`entries, this`dev
      ensures r.Ok? ==> Target(old(entries), |old(dev)|, ag, dest) && !old(entries)[ag].immovable && dest % BLOCKSIZE == 0
      ensures r.Ok? ==> entries == old(entries)[ag := Moved(old(entries)[ag], dest)]
      ensures r.Ok? ==> var ms := GroupMoves(old(entries)[ag].segs, dest); MovesFit(ms, |old(dev)|) && dev == Perform(old(dev), ms)
      ensures r.Ok? && old(entries)[ag].length >= 1 ==> Valid()
      ensures r.Ok? && ReadFirst(GroupMoves(old(entries)[ag].segs, dest)) ==> SameContents(old(entries), old(dev), entries, dev, {})
      ensures r.Ok? <==> Relocatable(old(entries), |old(dev)|, ag, dest) && MapBytes(old(entries)[ag := Moved(old(entries)[ag], dest)]) <= capacity
      ensures r.Err? ==> r.error == RelocateError(old(entries), |old(dev)|, ag, dest)
      ensures r == Err(MapFull) ==> old(entries)[ag].segs == []
      ensures r.Err? && r.error != MapFull ==> entries == old(entries) && dev == old(dev)
    {
      hide Perform, GroupMoves, ReadFirst, SameContents, MovesFit, SegsDistinct, MapOk;
      if dest % BLOCKSIZE != 0 {
        return Err(Unaligned);
      }
      if ag >= |entries| {
        return Err(NoSuchAg);
      }
      var e := entries[ag];
      if !e.present {
        return Err(NotPresent);
      }
      if e.immovable {
        return Err(Immovable);
      }
      var bytes := Bytes(e.length);
      if dest + bytes > |dev| {
        return Err(PastEnd);
      }
      var taken := OverlapsExcluding(dest, bytes, ag);
      if taken {
        return Err(Overlaps);
      }
      GroupsSegs(entries, |dev|, ag);
      CopySegments(e, dest);
      if e.length >= 1 {
        MovedOk(entries, |dev|, ag, dest);
      }
      if ReadFirst(GroupMoves(e.segs, dest)) {
        ReadFirstKeeps(entries, old(dev), ag, dest);
      }
      MapBytesAt(entries, ag, Moved(e, dest));
      entries := entries[ag := Moved(e, dest)];
      var ok := WriteMap();
      if !ok {
        return Err(MapFull);
      }
      r := Ok(());
    }

    /** Segment after segment goes to the one region that is to hold the group. */
    method CopySegments(e: AgEntry, dest: nat)
      requires EntryOk(e) && SegsDistinct(e.segs) && dest + Bytes(e.length) <= |dev|
      requires forall i :: 0 <= i < |e.segs| ==> SegEnd(e.segs[i]) <= |dev|
      modifies this`dev
      ensures var ms := GroupMoves(e.segs, dest); MovesFit(ms, |old(dev)|) && dev == Perform(old(dev), ms)
    {
      hide Perform, SegMoves, SegsDistinct;
      GroupWithin(e, dest, |dev|);
      ghost var all := GroupMoves(e.segs, dest);
      assert e.segs[0..] == e.segs;
      for i := 0 to |e.segs|
        invariant |dev| == |old(dev)| && MovesFit(GroupMoves(e.segs[i..], dest), |dev|)
        invariant Perform(dev, GroupMoves(e.segs[i..], dest)) == Perform(old(dev), all)
      {
        assert SegOk(e, e.segs[i]);
        assert e.segs[i..][1..] == e.segs[i + 1..];
        ghost var a, b := SegMoves(e.segs[i], dest, 0), GroupMoves(e.segs[i + 1..], dest);
        assert GroupMoves(e.segs[i..], dest) == a + b;
        WithinParts(a, b, |dev|);
        PerformConcat(dev, a, b);
        CopySegment(e.segs[i], dest);
      }
      NothingLeft(dev);
    }

    /** Copy one segment chunk by chunk, forwards. */
    method CopySegment(s: Seg, dest: nat)
      requires SegEnd(s) <= |dev| && dest + Bytes(s.agBlock) + Bytes(s.blocks) <= |dev|
      modifies this`dev
      ensures var ms := SegMoves(s, dest, 0); MovesFit(ms, |old(dev)|) && dev == Perform(old(dev), ms)
    {
      hide Perform, Put;
      var taken, total, to := 0, Bytes(s.blocks), dest + Bytes(s.agBlock);
      ghost var all := SegMoves(s, dest, 0);
      SegWithin(s, dest, 0, |dev|);
      while taken < total
        invariant taken <= total && |dev| == |old(dev)| && MovesFit(SegMoves(s, dest, taken), |dev|)
        invariant Perform(dev, SegMoves(s, dest, taken)) == Perform(old(dev), all)
      {
        var n := if CHUNK < total - taken then CHUNK else total - taken;
        ghost var m := Move(s.off + taken, to + taken, n);
        NextChunk(dev, m, SegMoves(s, dest, taken), SegMoves(s, dest, taken + n));
        var buf := dev[s.off + taken..s.off + taken + n];
        dev := Put(dev, to + taken, buf);
        taken := taken + n;
      }
      assert SegMoves(s, dest, taken) == [];
      NothingLeft(dev);
    }

    // --- dropping -------------------------------------------------------------------------------------

    /** A group without contents leaves the map for good; its region may be given to another. */
    method Retire(ag: nat) returns (r: Result<(), ResizeError>)
      requires Valid()
      modifies this`entries
      ensures r.Ok? ==> Valid() && 0 < ag < |entries| && old(entries)[ag].present && full[ag] == 0
      ensures r.Ok? ==> entries == old(entries)[ag := Retired(old(entries)[ag])]
      ensures r.Ok? ==> SameContents(old(entries), dev, entries, dev, {ag})
      ensures r.Err? ==> entries == old(entries)
      ensures r.Err? ==> r.error == RetireError(entries, ag)
      ensures r.Err? <==> ag == 0 || ag >= |old(entries)| || !old(entries)[ag].present || full[ag] != 0
    {
      if ag == 0 {
        return Err(FirstAg);
      }
      if ag >= |entries| || !entries[ag].present {
        return Err(NotPresent);
      }
      if full[ag] != 0 {
        return Err(NotEmpty);
      }
      RetiredOk(entries, |dev|, ag);
      RetiredContents(entries, dev, ag);
      MapBytesAt(entries, ag, Retired(entries[ag]));
      entries := entries[ag := Retired(entries[ag])];
      var ok := WriteMap();
      if !ok {
        return Err(MapFull);
      }
      r := Ok(());
    }

    /**
    Shrink the device: every group beyond the new end is retired if it is empty, else moved into the
    lowest gap below, in the order of their numbers. On success no segment sticks out, exactly the empty
    ones of those groups are gone, and every address of every other group reads as before. It fails
    only at a group that cannot be dealt with.
    */
    method Shrink(newSize: nat) returns (r: Result<(), ResizeError>)
      requires Valid()
      modifies this`entries, this`dev
      ensures exists maps :: ShrinkRun(maps, old(entries), entries, full, newSize)
      ensures r.Ok? ==> Valid() && |dev| == newSize && Shrunk(old(entries), entries, full, newSize)
      ensures r.Ok? ==> SameContents(old(entries), old(dev), entries, dev, Emptied(old(entries), full, newSize))
      ensures r.Err? ==> Stuck(entries, full, newSize, r.error)
      ensures r.Err? ==> |entries| == |old(entries)| && forall a :: 0 <= a < |entries| && Sticks(entries[a], newSize) ==> entries[a] == old(entries)[a]
    {
      hide MapOk, SameContents, Sticks, Stepped, Stuck, Rounds;
      NothingGone(entries, dev);
      ghost var maps := [entries];
      while true
        invariant Valid() && |dev| == |old(dev)| && Shrinking(old(entries), entries, full, newSize)
        invariant SameContents(old(entries), old(dev), entries, dev, Gone(old(entries), entries))
        invariant ShrinkRun(maps, old(entries), entries, full, newSize)
        decreases |Beyond(entries, newSize)|
      {
        ghost var was, wasDev := entries, dev;
        var step, ag := ShrinkStep(newSize);
        if step.Err? {
          return Err(step.error);
        }
        if !step.value {
          break;
        }
        MoreGone(old(entries), old(dev), was, wasDev, entries, dev, full, newSize, ag);
        StepMore(maps, old(entries), was, entries, full, newSize, ag);
        maps := maps + [entries];
      }
      ghost var longer := dev;
      NoneBeyond(entries, |dev|, newSize);
      SetLen(newSize);
      CutDevice(entries, longer, dev);
      ContentsTrans(old(entries), old(dev), entries, longer, entries, dev, Gone(old(entries), entries), {});
      AllShrunk(old(entries), entries, full, newSize);
      assert Gone(old(entries), entries) + {} == Gone(old(entries), entries);
      r := Ok(());
    }

    /** Deal with the first group beyond the new end, if there is one. */
    method ShrinkStep(newSize: nat) returns (r: Result<bool, ResizeError>, ghost ag: nat)
      requires Valid()
      modifies this`entries, this`dev
      ensures r.Ok? ==> Valid() && |dev| == |old(dev)|
      ensures r == Ok(true) ==> Stepped(old(entries), entries, full, newSize, ag)
      ensures r == Ok(true) ==> SameContents(old(entries), old(dev), entries, dev, if full[ag] == 0 then {ag} else {})
      ensures r == Ok(true) ==> |Beyond(entries, newSize)| < |Beyond(old(entries), newSize)|
      ensures r == Ok(false) ==> entries == old(entries) && dev == old(dev) && forall a :: 0 <= a < |entries| ==> !Sticks(entries[a], newSize)
      ensures r.Err? ==> entries == old(entries) && dev == old(dev) && Stuck(entries, full, newSize, r.error)
    {
      hide SameContents, MapOk, Sticks, Vacant, Overlapping, ClearOfOwn, EntryOk, SegsDistinct, ReadFirst, GroupMoves;
      ag := 0;
      var found := FirstBeyond(newSize);
      if found.None? {
        return Ok(false), ag;
      }
      ag := found.value;
      if found.value == 0 {
        assert StuckAt(entries, full, newSize, 0, FirstAg);
        return Err(FirstAg), ag;
      }
      var e := entries[found.value];
      StickingOut(entries, |dev|, ag, newSize);
      if full[found.value] == 0 {
        var done := Retire(found.value);
        NowInside(Retired(e), newSize);
        BeyondFalls(old(entries), newSize, ag, Retired(e));
      } else {
        var dest := FindGap(Bytes(e.length), newSize);
        if dest.None? {
          assert StuckAt(entries, full, newSize, ag, NoRoom);
          return Err(NoRoom), ag;
        }
        VacantIsClear(entries, |dev|, ag, dest.value);
        VacantIsFree(entries, dest.value, Bytes(e.length), ag);
        GroupsSegs(entries, |dev|, ag);
        ClearIsReadFirst(e, dest.value);
        var done := Relocate(found.value, dest.value);
        if done.Err? {
          assert VacantBelow(entries, dest.value, Bytes(e.length), newSize);
          assert StuckAt(entries, full, newSize, ag, done.error);
          return Err(done.error), ag;
        }
        NowInside(Moved(e, dest.value), newSize);
        BeyondFalls(old(entries), newSize, ag, Moved(e, dest.value));
      }
      return Ok(true), ag;
    }

    /** The first present group with a segment beyond the given size. */
    method FirstBeyond(size: nat) returns (r: Option<nat>)
      ensures r.Some? ==> FirstSticking(entries, size, r.value)
      ensures r.None? ==> forall a :: 0 <= a < |entries| ==> !Sticks(entries[a], size)
    {
      for a := 0 to |entries|
        invariant forall b :: 0 <= b < a ==> !Sticks(entries[b], size)
      {
        if entries[a].present {
          var beyond := EndsBeyond(entries[a], size);
          if beyond {
            return Some(a);
          }
        }
      }
      return None;
    }

    /** A segment of the group ends beyond the given size. */
    method EndsBeyond(e: AgEntry, size: nat) returns (r: bool)
      ensures r <==> exists i :: 0 <= i < |e.segs| && SegEnd(e.segs[i]) > size
    {
      for i := 0 to |e.segs|
        invariant forall j :: 0 <= j < i ==> SegEnd(e.segs[j]) <= size
      {
        if SegEnd(e.segs[i]) > size {
          return true;
        }
      }
      return false;
    }

    method SetLen(size: nat)
      modifies this`dev
      ensures |dev| == size
      ensures forall k :: 0 <= k < size && k < |old(dev)| ==> dev[k] == old(dev)[k]
    {
      if size <= |dev| {
        dev := dev[..size];
      } else {
        dev := dev + seq(size - |dev|, _ => 0);
      }
    }
  }

  /** The entry of a group made in a region. */
  function NewEntry(off: nat, bytes: nat): AgEntry {
    AgEntry(true, false, bytes / BLOCKSIZE % U32, [Seg(0, bytes / BLOCKSIZE % U32, off)])
  }

  /** A region that can become a group: aligned, long enough in 32 bits, and unmapped. */
  ghost predicate Addable(entries: seq<AgEntry>, off: nat, bytes: nat) {
    off % BLOCKSIZE == 0 && MIN_LENGTH <= bytes / BLOCKSIZE % U32 && !Overlapping(entries, off, bytes, -1)
  }

  ghost function AddError(entries: seq<AgEntry>, off: nat, bytes: nat): ResizeError {
    if off % BLOCKSIZE != 0 then Unaligned
    else if bytes / BLOCKSIZE % U32 < MIN_LENGTH then TooSmall
    else if Overlapping(entries, off, bytes, -1) then Overlaps
    else MapFull
  }

  ghost function RelocateError(entries: seq<AgEntry>, size: nat, ag: nat, dest: nat): ResizeError {
    if dest % BLOCKSIZE != 0 then Unaligned
    else if ag >= |entries| then NoSuchAg
    else if !entries[ag].present then NotPresent
    else if entries[ag].immovable then Immovable
    else if dest + Bytes(entries[ag].length) > size then PastEnd
    else if Overlapping(entries, dest, Bytes(entries[ag].length), ag) then Overlaps
    else MapFull
  }

  ghost function RetireError(entries: seq<AgEntry>, ag: nat): ResizeError {
    if ag == 0 then FirstAg else if ag >= |entries| || !entries[ag].present then NotPresent else NotEmpty
  }

  /** Where a group may be moved; its own segments do not matter. */
  ghost predicate Relocatable(entries: seq<AgEntry>, size: nat, ag: nat, dest: nat) {
    && dest % BLOCKSIZE == 0 && ag < |entries| && entries[ag].present && !entries[ag].immovable
    && dest + Bytes(entries[ag].length) <= size && !Overlapping(entries, dest, Bytes(entries[ag].length), ag)
  }

  ghost predicate EndsAt(entries: seq<AgEntry>, end: nat) {
    && Within(entries, end)
    && (end == 0 || exists a, i :: 0 <= a < |entries| && 0 <= i < |entries[a].segs| && end == SegEnd(entries[a].segs[i]))
  }

  ghost predicate VacantBelow(entries: seq<AgEntry>, g: nat, bytes: nat, limit: nat) {
    Vacant(entries, g, bytes) && g + bytes <= limit
  }

  ghost predicate LowestVacant(entries: seq<AgEntry>, g: nat, bytes: nat, limit: nat) {
    VacantBelow(entries, g, bytes, limit) && forall h: nat :: h < g ==> !VacantBelow(entries, h, bytes, limit)
  }

  /** Growing puts a group between the mapped end and the new size, or names what is wrong with that place. */
  ghost predicate Grown(entries: seq<AgEntry>, now: seq<AgEntry>, end: nat, size: nat, capacity: nat, error: Option<ResizeError>) {
    if size <= end then error == Some(NoGrowth)
    else if (size - end) / BLOCKSIZE % U32 < MIN_LENGTH then error == Some(TooSmall)
    else if MapBytes(entries + [NewEntry(end, size - end)]) > capacity then error == Some(MapFull)
    else error == None && now == entries + [NewEntry(end, size - end)]
  }

  // --- facts -----------------------------------------------------------------------------------------

  lemma {:induction false} SortedOrder(all: seq<Extent>)
    ensures InOrder(Sorted(all)) && forall x :: x in Sorted(all) <==> x in all
  {
    hide InOrder;
    if all == [] {
      NoOrder();
    } else {
      var n := |all| - 1;
      SortedOrder(all[..n]);
      SortInOrder(all[n], Sorted(all[..n]));
      SortInMembers(all[n], Sorted(all[..n]));
      assert all == all[..n] + [all[n]];
    }
  }

  /** Everything sorted before k ends by the cursor, everything after starts behind the gap. */
  lemma GapHere(entries: seq<AgEntry>, all: seq<Extent>, sorted: seq<Extent>, k: nat, cursor: nat, bytes: nat)
    requires Listed(entries, all) && InOrder(sorted) && (forall x :: x in sorted <==> x in all) && k <= |sorted|
    requires forall j :: 0 <= j < k ==> sorted[j].first + sorted[j].blocks <= cursor
    requires k < |sorted| ==> cursor + bytes <= sorted[k].first
    requires cursor == 0 || exists j :: 0 <= j < k && cursor == sorted[j].first + sorted[j].blocks
    ensures Vacant(entries, cursor, bytes)
    ensures cursor == 0 || exists a, i :: 0 <= a < |entries| && 0 <= i < |entries[a].segs| && cursor == SegEnd(entries[a].segs[i])
  {
    assert Clear(all, cursor, bytes) by {
      forall x | x in all ensures !(cursor < x.first + x.blocks && x.first < cursor + bytes) {
        var j :| 0 <= j < |sorted| && sorted[j] == x;
        assert j > k ==> sorted[k].first <= sorted[j].first;
      }
    }
    ClearIsVacant(entries, all, cursor, bytes);
    if cursor != 0 {
      var j :| 0 <= j < k && cursor == sorted[j].first + sorted[j].blocks;
      assert sorted[j] in all && IsStretch(entries, sorted[j]);
      var a, i :| 0 <= a < |entries| && 0 <= i < |entries[a].segs| && sorted[j] == Stretch(entries[a].segs[i]);
      assert cursor == SegEnd(entries[a].segs[i]);
    }
  }

  lemma LowestGap(entries: seq<AgEntry>, all: seq<Extent>, cursor: nat, bytes: nat, limit: nat)
    requires Listed(entries, all) && forall g: nat :: g < cursor ==> !Clear(all, g, bytes) || g + bytes > limit
    ensures forall g: nat :: g < cursor ==> !VacantBelow(entries, g, bytes, limit)
  {
    forall g: nat | g < cursor ensures !VacantBelow(entries, g, bytes, limit) {
      ClearIsVacant(entries, all, g, bytes);
    }
  }

  /** Nothing fits between the cursor and the end of the next stretch. */
  lemma NoGapBefore(all: seq<Extent>, sorted: seq<Extent>, k: nat, cursor: nat, bytes: nat, limit: nat)
    requires k < |sorted| && (forall x :: x in sorted <==> x in all) && bytes >= 1
    requires var s0 := sorted[k].first; !(s0 > cursor && (if s0 < limit then s0 else limit) - cursor >= bytes)
    ensures forall g: nat :: cursor <= g < sorted[k].first + sorted[k].blocks ==> !Clear(all, g, bytes) || g + bytes > limit
  {
    assert sorted[k] in all;
  }

  lemma MetadataFits(agLen: nat, bytes: nat)
    requires agLen <= bytes / BLOCKSIZE && Cells(1 + RtBlocks(agLen)) < Cells(agLen)
    ensures BLOCKSIZE + Bytes(RtBlocks(agLen)) <= Bytes(agLen) <= bytes
  {
    assert 1 + RtBlocks(agLen) < agLen;
  }

  lemma NarrowerIsFree(entries: seq<AgEntry>, off: nat, len: nat, less: nat, skip: int)
    requires !Overlapping(entries, off, len, skip) && less <= len
    ensures !Overlapping(entries, off, less, skip)
  {
  }

  lemma LongerDevice(entries: seq<AgEntry>, dev: seq<bv8>, now: seq<bv8>)
    requires MapOk(entries, |dev|) && |now| >= |dev| && forall k :: 0 <= k < |dev| ==> now[k] == dev[k]
    ensures MapOk(entries, |now|) && SameContents(entries, dev, entries, now, {})
  {
    forall a: nat, l: nat ensures Content(entries, now, a, l) == Content(entries, dev, a, l) {
      if Resolve(entries, a, l).Some? {
        ResolveIsTotal(entries, |dev|, a, l);
        var o := Resolve(entries, a, l).value;
        assert now[o..o + BLOCKSIZE] == dev[o..o + BLOCKSIZE];
      }
    }
  }

  lemma CutDevice(entries: seq<AgEntry>, dev: seq<bv8>, now: seq<bv8>)
    requires MapOk(entries, |now|) && MapOk(entries, |dev|)
    requires forall k :: 0 <= k < |now| && k < |dev| ==> now[k] == dev[k]
    ensures SameContents(entries, dev, entries, now, {})
  {
    forall a: nat, l: nat ensures Content(entries, now, a, l) == Content(entries, dev, a, l) {
      if Resolve(entries, a, l).Some? {
        ResolveIsTotal(entries, |dev|, a, l);
        ResolveIsTotal(entries, |now|, a, l);
        var o := Resolve(entries, a, l).value;
        assert now[o..o + BLOCKSIZE] == dev[o..o + BLOCKSIZE];
      }
    }
  }

  /** Behind the last mapped byte nothing is in the way, and the place is aligned. */
  lemma BehindAll(entries: seq<AgEntry>, size: nat, end: nat, len: nat)
    requires MapOk(entries, size) && EndsAt(entries, end)
    ensures !Overlapping(entries, end, len, -1) && end % BLOCKSIZE == 0
  {
    if end != 0 {
      var a, i :| 0 <= a < |entries| && 0 <= i < |entries[a].segs| && end == SegEnd(entries[a].segs[i]);
      assert SegOk(entries[a], entries[a].segs[i]);
    }
  }

  // --- copying ------------------------------------------------------------------------------------------

  lemma SegWithin(s: Seg, dest: nat, taken: nat, size: nat)
    requires SegEnd(s) <= size && dest + Bytes(s.agBlock) + Bytes(s.blocks) <= size
    ensures MovesFit(SegMoves(s, dest, taken), size)
  {
    SegMovesFacts(s, dest, taken, SegMoves(s, dest, taken));
  }

  lemma NextChunk(dev: seq<bv8>, m: Move, ms: seq<Move>, rest: seq<Move>)
    requires MovesFit(ms, |dev|) && ms == [m] + rest
    ensures m.from + m.n <= |dev| && m.to + m.n <= |dev| && MovesFit(rest, |dev|)
    ensures Perform(dev, ms) == Perform(Put(dev, m.to, dev[m.from..m.from + m.n]), rest)
  {
    assert ms[0] == m && ms[1..] == rest;
  }

  lemma NothingLeft(dev: seq<bv8>)
    ensures Perform(dev, []) == dev
  {
  }

  lemma WithinParts(a: seq<Move>, b: seq<Move>, size: nat)
    requires MovesFit(a + b, size)
    ensures MovesFit(a, size) && MovesFit(b, size)
  {
    forall k | 0 <= k < |a| ensures a[k].from + a[k].n <= size && a[k].to + a[k].n <= size {
      assert (a + b)[k] == a[k];
    }
    forall k | 0 <= k < |b| ensures b[k].from + b[k].n <= size && b[k].to + b[k].n <= size {
      assert (a + b)[|a| + k] == b[k];
    }
  }

  // --- shrinking -----------------------------------------------------------------------------------------

  ghost function Gone(entries: seq<AgEntry>, now: seq<AgEntry>): set<nat> {
    set a: nat | a < |entries| && a < |now| && entries[a].present && !now[a].present
  }

  lemma NothingGone(entries: seq<AgEntry>, dev: seq<bv8>)
    ensures SameContents(entries, dev, entries, dev, Gone(entries, entries))
  {
  }

  /** The group is the first that reaches beyond the size. */
  ghost predicate FirstSticking(entries: seq<AgEntry>, size: nat, ag: nat) {
    ag < |entries| && Sticks(entries[ag], size) && forall b :: 0 <= b < ag ==> !Sticks(entries[b], size)
  }

  /** One round: the first group sticking out is retired if it is empty, else moved to the lowest place below. */
  ghost predicate Stepped(entries: seq<AgEntry>, now: seq<AgEntry>, full: seq<nat>, size: nat, ag: nat) {
    && ag > 0 && ag < |full| && FirstSticking(entries, size, ag)
    && if full[ag] == 0 then now == entries[ag := Retired(entries[ag])]
       else !entries[ag].immovable && exists dest :: LowestVacant(entries, dest, Bytes(entries[ag].length), size) && now == entries[ag := Moved(entries[ag], dest)]
  }

  ghost predicate Rounds(entries: seq<AgEntry>, now: seq<AgEntry>, full: seq<nat>, size: nat) {
    exists ag: nat :: Stepped(entries, now, full, size, ag)
  }

  /** The maps from the first to the last, a round each. */
  ghost predicate ShrinkRun(maps: seq<seq<AgEntry>>, first: seq<AgEntry>, last: seq<AgEntry>, full: seq<nat>, size: nat) {
    && maps != [] && maps[0] == first && maps[|maps| - 1] == last
    && forall k :: 0 <= k < |maps| - 1 ==> Rounds(maps[k], maps[k + 1], full, size)
  }

  /** The round that fails, and why. */
  ghost predicate Stuck(entries: seq<AgEntry>, full: seq<nat>, size: nat, e: ResizeError) {
    exists ag: nat :: StuckAt(entries, full, size, ag, e)
  }

  ghost predicate StuckAt(entries: seq<AgEntry>, full: seq<nat>, size: nat, ag: nat, e: ResizeError) {
    && ag < |full| && FirstSticking(entries, size, ag)
    && if ag == 0 then e == FirstAg else full[ag] != 0 && NoPlace(entries, ag, size, e)
  }

  /** The group has to move, and there is nowhere to go, or it may not. */
  ghost predicate NoPlace(entries: seq<AgEntry>, ag: nat, size: nat, e: ResizeError)
    requires ag < |entries|
  {
    if forall g: nat :: !VacantBelow(entries, g, Bytes(entries[ag].length), size) then e == NoRoom
    else entries[ag].immovable && e == Immovable
  }

  /** What becomes of a group that stuck out. */
  ghost predicate Settled(e: AgEntry, now: AgEntry, full: nat, size: nat) {
    if full == 0 then now == Retired(e)
    else exists dest: nat :: dest + Bytes(e.length) <= size && now == Moved(e, dest)
  }

  /** On the way: some of the groups that stuck out are settled, all others are as before. */
  ghost predicate Shrinking(entries: seq<AgEntry>, now: seq<AgEntry>, full: seq<nat>, size: nat) {
    && |now| == |entries| == |full|
    && forall a :: 0 <= a < |entries| ==>
         now[a] == entries[a] || (a > 0 && Sticks(entries[a], size) && Settled(entries[a], now[a], full[a], size) && !Sticks(now[a], size))
  }

  /** In the end: all of them. */
  ghost predicate Shrunk(entries: seq<AgEntry>, now: seq<AgEntry>, full: seq<nat>, size: nat) {
    && |now| == |entries| == |full|
    && forall a :: 0 <= a < |entries| ==>
         && !Sticks(now[a], size)
         && if Sticks(entries[a], size) then a > 0 && Settled(entries[a], now[a], full[a], size) else now[a] == entries[a]
  }

  /** The groups that shrinking retires. */
  ghost function Emptied(entries: seq<AgEntry>, full: seq<nat>, size: nat): set<nat> {
    set a: nat | a < |entries| && a < |full| && Sticks(entries[a], size) && full[a] == 0
  }

  lemma MoreGone(e0: seq<AgEntry>, d0: seq<bv8>, e1: seq<AgEntry>, d1: seq<bv8>, e2: seq<AgEntry>, d2: seq<bv8>, full: seq<nat>, size: nat, ag: nat)
    requires Shrinking(e0, e1, full, size) && Stepped(e1, e2, full, size, ag)
    requires SameContents(e0, d0, e1, d1, Gone(e0, e1)) && SameContents(e1, d1, e2, d2, if full[ag] == 0 then {ag} else {})
    ensures Shrinking(e0, e2, full, size) && SameContents(e0, d0, e2, d2, Gone(e0, e2))
  {
    hide SameContents, LowestVacant;
    ContentsTrans(e0, d0, e1, d1, e2, d2, Gone(e0, e1), if full[ag] == 0 then {ag} else {});
    assert e1[ag] == e0[ag];
    if full[ag] == 0 {
      assert Gone(e0, e1) + {ag} == Gone(e0, e2);
      NowInside(Retired(e1[ag]), size);
    } else {
      var dest: nat :| LowestVacant(e1, dest, Bytes(e1[ag].length), size) && e2 == e1[ag := Moved(e1[ag], dest)];
      LowestBelow(e1, dest, Bytes(e1[ag].length), size);
      NowInside(Moved(e1[ag], dest), size);
      assert Gone(e0, e1) + {} == Gone(e0, e2);
    }
  }

  lemma LowestBelow(entries: seq<AgEntry>, g: nat, bytes: nat, limit: nat)
    requires LowestVacant(entries, g, bytes, limit)
    ensures g + bytes <= limit
  {
  }

  lemma StepMore(maps: seq<seq<AgEntry>>, first: seq<AgEntry>, was: seq<AgEntry>, now: seq<AgEntry>, full: seq<nat>, size: nat, ag: nat)
    requires ShrinkRun(maps, first, was, full, size) && Stepped(was, now, full, size, ag)
    ensures ShrinkRun(maps + [now], first, now, full, size)
  {
    hide Stepped;
    var more := maps + [now];
    assert Rounds(was, now, full, size);
    forall k | 0 <= k < |more| - 1 ensures Rounds(more[k], more[k + 1], full, size) {
      if k < |maps| - 1 {
        assert more[k] == maps[k] && more[k + 1] == maps[k + 1];
      } else {
        assert more[k] == was && more[k + 1] == now;
      }
    }
  }

  lemma AllShrunk(entries: seq<AgEntry>, now: seq<AgEntry>, full: seq<nat>, size: nat)
    requires Shrinking(entries, now, full, size) && forall a :: 0 <= a < |now| ==> !Sticks(now[a], size)
    ensures Shrunk(entries, now, full, size) && Gone(entries, now) == Emptied(entries, full, size)
  {
  }

  /** If every group that sticks out is empty and the first does not, shrinking cannot get stuck. */
  lemma EmptyNeverStuck(entries: seq<AgEntry>, now: seq<AgEntry>, full: seq<nat>, size: nat, e: ResizeError)
    requires |entries| == |now| == |full| && forall a :: 0 <= a < |now| && Sticks(now[a], size) ==> now[a] == entries[a]
    requires forall a :: 0 <= a < |entries| && Sticks(entries[a], size) ==> a > 0 && full[a] == 0
    ensures !Stuck(now, full, size, e)
  {
    hide Sticks;
    forall ag: nat ensures !StuckAt(now, full, size, ag, e) {
      if ag < |now| && Sticks(now[ag], size) {
        assert now[ag] == entries[ag];
      }
    }
  }

  lemma VacantIsFree(entries: seq<AgEntry>, dest: nat, bytes: nat, skip: int)
    requires Vacant(entries, dest, bytes)
    ensures !Overlapping(entries, dest, bytes, skip)
  {
  }

  lemma NowInside(e: AgEntry, size: nat)
    requires e.present ==> |e.segs| == 1 && SegEnd(e.segs[0]) <= size
    ensures !Sticks(e, size)
  {
  }

  lemma StickingOut(entries: seq<AgEntry>, size: nat, ag: nat, newSize: nat)
    requires MapOk(entries, size) && ag < |entries| && Sticks(entries[ag], newSize)
    ensures entries[ag].present && entries[ag].length >= 1 && newSize < size && entries[ag].segs != []
  {
    var i :| 0 <= i < |entries[ag].segs| && SegEnd(entries[ag].segs[i]) > newSize;
    assert SegOk(entries[ag], entries[ag].segs[i]);
  }

  lemma VacantIsClear(entries: seq<AgEntry>, size: nat, ag: nat, dest: nat)
    requires MapOk(entries, size) && ag < |entries| && entries[ag].length >= 1 && Vacant(entries, dest, Bytes(entries[ag].length))
    requires dest == 0 || exists a, i :: 0 <= a < |entries| && 0 <= i < |entries[a].segs| && dest == SegEnd(entries[a].segs[i])
    ensures ClearOfOwn(entries[ag], dest) && dest % BLOCKSIZE == 0
  {
    forall i | 0 <= i < |entries[ag].segs| ensures SegClear(entries[ag].segs[i], dest, entries[ag].length) {
      assert !Meets(dest, Bytes(entries[ag].length), entries[ag].segs[i]);
    }
    if dest != 0 {
      var a, i :| 0 <= a < |entries| && 0 <= i < |entries[a].segs| && dest == SegEnd(entries[a].segs[i]);
      assert SegOk(entries[a], entries[a].segs[i]);
    }
  }
}
