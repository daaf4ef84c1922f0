/** Reading a file run by run, against reading it byte by byte. */
module FileReader {
  import opened Wrappers
  import opened Geometry
  import opened Radix
  import opened ExtentTree
  import opened ExtentLookup


  function Least(a: int, b: int): int {
    if a < b then a else b
  }

  /** 64-bit arithmetic that stops at its ends instead of wrapping. */
  function SatMul(a: int, b: int): int {
    Least(a * b, MAX_U64)
  }

  function SatSub(a: int, b: int): int {
    if a > b then a - b else 0
  }

  /** Byte p of the file: from its block if that is mapped, zero in a hole. */
  function ByteAt(m: FileMap, volume: nat -> bv8, p: nat): bv8 {
    if m.Embed? then if p < |m.payload| then m.payload[p] else 0
    else match BlockOf(m, p / BLOCKSIZE)
      case Some(b) => volume(b * BLOCKSIZE + p % BLOCKSIZE)
      case None => 0
  }

  /** What a read returns: nothing past the end of the file, and every byte as a single read would give it. */
  ghost predicate ReadOf(m: FileMap, size: nat, volume: nat -> bv8, offset: nat, len: nat, out: seq<bv8>) {
    && |out| == (if offset >= size then 0 else Least(len, size - offset))
    && forall k: nat :: k < |out| ==> out[k] == ByteAt(m, volume, offset + k)
  }

  method ReadInodeData(m: FileMap, size: nat, volume: nat -> bv8, offset: nat, len: nat) returns (out: seq<bv8>)
    requires Well(m) && size <= MAX_U64 && (m.Embed? ==> size <= |m.payload|)
    ensures ReadOf(m, size, volume, offset, len, out)
  {
    hide MapLookup, GoodFor;
    if offset >= size {
      return [];
    }
    var n := Least(len, size - offset);
    match m {
      case Empty =>
        out := seq(n, _ => 0);
      case Embed(payload) =>
        out := payload[offset..offset + n];
      case _ =>
        out := ReadMapped(m, volume, offset, n);
    }
  }

  /** Run by run over the block map; holes are skipped over a zeroed buffer. */
  method ReadMapped(m: FileMap, volume: nat -> bv8, offset: nat, n: nat) returns (out: seq<bv8>)
    requires Well(m) && offset + n <= MAX_U64 && !m.Embed?
    ensures |out| == n && forall k: nat :: k < n ==> out[k] == ByteAt(m, volume, offset + k)
  {
    hide MapLookup, GoodFor, BlockOf, Well, ByteAt;
    var buf := new bv8[n](_ => 0);
    var pos, end := offset, offset + n;
    while pos < end
      invariant offset <= pos <= end && buf.Length == n
      invariant forall k :: 0 <= k < pos - offset ==> buf[k] == ByteAt(m, volume, offset + k)
      invariant forall k :: pos - offset <= k < n ==> buf[k] == 0
    {
      var fb, inBlk := pos / BLOCKSIZE, pos % BLOCKSIZE;
      LookupSound(m, fb);
      match MapLookup(m, fb) {
        case Run(blk, rl) =>
          var avail := rl * BLOCKSIZE - inBlk;
          var take := Least(avail, end - pos);
          var phys := blk * BLOCKSIZE + inBlk;
          RunBytes(m, volume, pos, take);
          forall k | pos - offset <= k < pos - offset + take {
            buf[k] := volume(phys + (k - (pos - offset)));
          }
          pos := pos + take;
        case Hole(hl) =>
          var skip := Least(SatSub(SatMul(hl, BLOCKSIZE), inBlk), end - pos);
          skip := if skip < 1 then 1 else skip;
          HoleBytes(m, volume, pos, skip);
          pos := pos + skip; // a hole reads as what the buffer was filled with
      }
    }
    out := buf[..];
  }

  /** Where byte y lies relative to the block that byte pos is in. */
  lemma BlockOfByte(pos: nat, y: nat)
    requires pos <= y
    ensures var d := (pos % BLOCKSIZE + (y - pos)) / BLOCKSIZE;
      && y / BLOCKSIZE == pos / BLOCKSIZE + d
      && y % BLOCKSIZE == pos % BLOCKSIZE + (y - pos) - d * BLOCKSIZE
  {
  }

  lemma RunBytes(m: FileMap, volume: nat -> bv8, pos: nat, take: int)
    requires Well(m) && !m.Embed?
    requires var a := MapLookup(m, pos / BLOCKSIZE);
      a.Run? && a.len >= 1 && GoodFor(m, pos / BLOCKSIZE, a) && take <= a.len * BLOCKSIZE - pos % BLOCKSIZE
    ensures forall y: nat :: pos <= y < pos + take ==>
      ByteAt(m, volume, y) == volume(MapLookup(m, pos / BLOCKSIZE).blk * BLOCKSIZE + pos % BLOCKSIZE + (y - pos))
  {
    var fb, a := pos / BLOCKSIZE, MapLookup(m, pos / BLOCKSIZE);
    forall y: nat | pos <= y < pos + take
      ensures ByteAt(m, volume, y) == volume(a.blk * BLOCKSIZE + pos % BLOCKSIZE + (y - pos))
    {
      BlockOfByte(pos, y);
      assert Says(a, y / BLOCKSIZE - fb, BlockOf(m, y / BLOCKSIZE));
    }
  }

  lemma HoleBytes(m: FileMap, volume: nat -> bv8, pos: nat, skip: int)
    requires Well(m) && !m.Embed?
    requires var a := MapLookup(m, pos / BLOCKSIZE);
      a.Hole? && a.len >= 1 && GoodFor(m, pos / BLOCKSIZE, a) && skip <= a.len * BLOCKSIZE - pos % BLOCKSIZE
    ensures forall y: nat :: pos <= y < pos + skip ==> ByteAt(m, volume, y) == 0
  {
    var fb, a := pos / BLOCKSIZE, MapLookup(m, pos / BLOCKSIZE);
    forall y: nat | pos <= y < pos + skip ensures ByteAt(m, volume, y) == 0 {
      BlockOfByte(pos, y);
      assert Says(a, y / BLOCKSIZE - fb, BlockOf(m, y / BLOCKSIZE));
    }
  }
}
