/** Sizes that several components share (include/param.h, include/mmu.h). */
module Params {

  /** Values of a uint32_t. */
  const WORD: nat := 0x1_0000_0000

  /** The bytes of a disk block. */
  type Data = seq<bv8>

  const PGSIZE: nat := 4096
  const BLKSIZE: nat := 4096
  const MAXOPBLOCKS: nat := 40
  const LOGSIZE: nat := MAXOPBLOCKS * 3
}
