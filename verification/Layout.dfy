/** Sizes and error numbers of testfs (fs/testfs.h, fs/inode.h, fs/bitmap.h, fs/common.h). */
module Layout {
  const BLOCK_SIZE := 8192
  const SUPER_BLOCK_SIZE := 1
  const INODE_FREEMAP_SIZE := 1
  const BLOCK_FREEMAP_SIZE := 16
  const NR_INODE_BLOCKS := 128
  const INODES_PER_BLOCK := 128
  const NR_INODES := NR_INODE_BLOCKS * INODES_PER_BLOCK

  const BITS_PER_WORD := 8
  const WORD_ALLBITS: bv8 := 0xff

  const I_NONE := 0
  const I_FILE := 1
  const I_DIR := 2

  const ENOENT := 2
  const EEXIST := 17
  const ENOTDIR := 20
  const EISDIR := 21
  const EINVAL := 22
  const EFBIG := 27
  const ENOSPC := 28
  const ENOTEMPTY := 39

  function DivRoundUp(a: nat, b: nat): nat
    requires b > 0
  {
    (a + b - 1) / b
  }
}
