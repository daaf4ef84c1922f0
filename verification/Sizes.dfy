/** The limits that are numbers elsewhere, as what fits the bytes of a block or of an inode's payload. */
module Sizes {
  import opened Geometry
  import BitShift
  import HashedDir
  import DirSpace
  import Directory
  import Journal
  import AllocTree
  import ExtentTree
  import Radix

  const DESC_HDR := 24
  const REC_SIZE := 128
  const EXTENT_REC := 20
  const NODE_HDR := 24
  const CHILD_REC := 16

  /** Targets of eight bytes behind the header of a descriptor block. */
  lemma TargetsFit(n: nat)
    ensures DESC_HDR + 8 * n <= BLOCKSIZE <==> n <= Journal.MAX_TARGETS
  {
  }

  /** Records behind a header of one record's size; a record has two bits and six bytes a child. */
  lemma RecordsFit(n: nat)
    ensures REC_SIZE + n * REC_SIZE <= BLOCKSIZE <==> n <= AllocTree.RECS_PER_BLOCK
    ensures AllocTree.FANOUT / 4 + 6 * AllocTree.FANOUT <= REC_SIZE && AllocTree.CELL == AllocTree.FANOUT * AllocTree.FANOUT
  {
  }

  lemma InlineExtentsFit(n: nat)
    ensures EXTENT_REC * n <= Directory.INODE_PAYLOAD <==> n <= ExtentTree.MAX_INLINE_EXTENTS
  {
  }

  /** A node with its states and children fits a block, the root with its own fits the payload. */
  lemma NodesFit()
    ensures NODE_HDR + Radix.NODE_FANOUT / 4 + CHILD_REC * Radix.NODE_FANOUT <= BLOCKSIZE
    ensures 8 + CHILD_REC * Radix.ROOT_FANOUT <= Directory.INODE_PAYLOAD
  {
  }

  /** The largest depth is the largest whose table fits the header block. */
  lemma TableFits(depth: nat)
    ensures HashedDir.BLOCK == BLOCKSIZE
    ensures DirSpace.HEADER_HDR + 4 * BitShift.Pow2(depth) <= BLOCKSIZE <==> depth <= HashedDir.MAX_DEPTH
  {
    DirSpace.TableSizes(HashedDir.MAX_DEPTH);
    if depth <= HashedDir.MAX_DEPTH {
      BitShift.Pow2Mono(depth, HashedDir.MAX_DEPTH);
    } else {
      BitShift.Pow2Mono(HashedDir.MAX_DEPTH + 1, depth);
    }
  }
}
