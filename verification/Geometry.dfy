/** Sizes that several parts share. */
module Geometry {
  /** Bytes of a block. */
  const BLOCKSIZE := 4096
}
