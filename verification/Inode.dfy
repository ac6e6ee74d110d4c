/** An inode in memory, and reading, allocating, writing and freeing its blocks (fs/inode.c, fs/read_write.c). */
module Inodes {
  import opened Layout
  import opened Codec
  import opened Supers
  import opened BlockMap
  import opened Volumes
  import opened Allocations
  import opened FlatFiles
  import opened Freeing

  class Inode {
    const sb: SuperBlock
    const nr: nat
    var d: Dinode
    var dirty: bool

    /** The inode, the device and the allocated blocks, as one value. */
    ghost function V(): Vol
      reads this, sb
    {
      Vol(sb.disk, sb.alloc, d)
    }

    /** A change of the inode is never left unmarked. */
    ghost predicate Noted(d0: Dinode, dirty0: bool)
      reads this
    {
      dirty || (!dirty0 && d == d0)
    }

    constructor (sb: SuperBlock, nr: nat, d: Dinode)
      ensures this.sb == sb && this.nr == nr && this.d == d && !dirty
    {
      this.sb, this.nr, this.d, dirty := sb, nr, d, false;
    }

    /** Physical block and contents of a logical block; 0 and zeros for a hole. */
    method ReadBlock(log: nat, buf: Block) returns (ret: int, block: Block)
      requires Sound(sb.disk, d)
      requires log != MAX_FILE_SIZE
      ensures log > MAX_FILE_SIZE ==> ret == EFBIG && block == buf
      ensures log < MAX_FILE_SIZE ==> ret == Phys(sb.disk, d, log) && block == Content(sb.disk, d, log)
    {
      block := buf;
      if log > MAX_FILE_SIZE {
        return EFBIG, block;
      }
      var phy := 0;
      if log < NR_DIRECT_BLOCKS {
        phy := d.direct[log];
      } else {
        var n := log - NR_DIRECT_BLOCKS;
        if n >= NR_INDIRECT_BLOCKS {
          ret, block := ReadDoublyIndirect(n - NR_INDIRECT_BLOCKS);
          return;
        } else if d.indirect > 0 {
          assert At(sb.disk, d, Ind) == d.indirect;
          block := sb.disk[d.indirect];
          phy := Ptr(block, n);
          assert phy == At(sb.disk, d, IndLeaf(n));
          if phy > 0 {
            block := sb.disk[phy];
          } else {
            block := ZERO_BLOCK;
          }
          return phy, block;
        }
        assert At(sb.disk, d, Ind) == d.indirect;
      }
      assert phy == At(sb.disk, d, PathOf(log));
      if phy > 0 {
        block := sb.disk[phy];
      } else {
        block := ZERO_BLOCK;
      }
      return phy, block;
    }

    /** The part of testfs_read_block for blocks mapped through i_dindirect. */
    method ReadDoublyIndirect(n: nat) returns (phy: int, block: Block)
      requires Sound(sb.disk, d) && n < NR_INDIRECT_BLOCKS * NR_INDIRECT_BLOCKS
      ensures phy == Phys(sb.disk, d, n + FIRST_DOUBLE) && block == Content(sb.disk, d, n + FIRST_DOUBLE)
    {
      var j := n % NR_INDIRECT_BLOCKS;
      var i := n / NR_INDIRECT_BLOCKS;
      assert PathOf(n + FIRST_DOUBLE) == Leaf(i, j);
      assert At(sb.disk, d, Dind) == d.dindirect;
      if d.dindirect > 0 {
        block := sb.disk[d.dindirect];
        phy := Ptr(block, i);
      } else {
        return 0, ZERO_BLOCK;
      }
      assert At(sb.disk, d, Third(i)) == phy;
      if phy > 0 {
        block := sb.disk[phy];
        phy := Ptr(block, j);
      } else {
        return phy, ZERO_BLOCK;
      }
      assert At(sb.disk, d, Leaf(i, j)) == phy;
      if phy > 0 {
        block := sb.disk[phy];
      } else {
        block := ZERO_BLOCK;
      }
    }

    // ---- block accounting

    /** Allocates a block and counts it for the inode. */
    method AllocBlockForInode() returns (phy: int)
      requires sb.Valid()
      modifies this, sb, sb.blockFreemap, sb.blockFreemap.v
      ensures sb.Valid()
      ensures old(sb.Room()) > 0 ==>
                sb.Took(old(sb.disk), old(sb.sb), old(sb.alloc), phy) &&
                d == old(d).(blockCount := old(d).blockCount + 1) && dirty
      ensures old(sb.Room()) <= 0 ==>
                phy == -ENOSPC && V() == old(V()) && sb.sb == old(sb.sb) && dirty == old(dirty)
    {
      phy := sb.AllocBlock();
      if phy >= 0 {
        d := d.(blockCount := d.blockCount + 1);
        dirty := true;
      }
    }

    /** Frees a block of the inode; a null block number is ignored. */
    method FreeBlockFromInode(phy: int)
      requires sb.Valid() && (phy == 0 || phy in sb.alloc)
      modifies this, sb, sb.blockFreemap, sb.blockFreemap.v
      ensures sb.Valid()
      ensures phy == 0 ==> V() == old(V()) && sb.sb == old(sb.sb) && dirty == old(dirty)
      ensures phy != 0 ==> Released(old(V()), V(), phy) && dirty
      ensures phy != 0 ==> sb.sb == old(sb.sb).(usedBlockCount := old(sb.sb).usedBlockCount - 1)
    {
      if phy == 0 {
        return;
      }
      sb.FreeBlock(phy);
      d := d.(blockCount := d.blockCount - 1);
      dirty := true;
    }

    // ---- allocation on demand

    /** A logical block of the inode's own address array. */
    method AllocateDirect(log: nat) returns (phy: int)
      requires sb.Valid() && Good(V())
      requires log < NR_DIRECT_BLOCKS && Phys(sb.disk, d, log) == 0
      modifies this, sb, sb.blockFreemap, sb.blockFreemap.v
      ensures sb.Valid() && sb.sb.maxFsBlocks == old(sb.sb.maxFsBlocks) && Noted(old(d), old(dirty))
      ensures old(sb.Room()) >= 1 ==> Allocated(old(V()), V(), log, phy)
      ensures old(sb.Room()) < 1 ==> phy == -ENOSPC && V() == old(V())
    {
      hide SuperBlock.Valid, Good;
      ghost var v := V();
      GoodShape(v);
      MissingDirect(v, log);
      phy := AllocBlockForInode();
      ghost var u := V();
      if phy >= 0 {
        d := d.(direct := d.direct[log := phy]);
        TakeDirect(v, u, V(), log, phy);
      }
    }

    /** The indirect block, allocated if need be. */
    method NeedIndirect() returns (ret: int, indirect: Block, isNew: bool)
      requires sb.Valid() && Good(V())
      modifies this, sb, sb.blockFreemap, sb.blockFreemap.v
      ensures sb.Valid() && sb.sb.maxFsBlocks == old(sb.sb.maxFsBlocks) && Noted(old(d), old(dirty))
      ensures old(d.indirect) != 0 ==> ret == 0 && !isNew && V() == old(V()) && sb.Room() == old(sb.Room())
      ensures old(d.indirect) == 0 && old(sb.Room()) < 1 ==> ret == -ENOSPC && V() == old(V())
      ensures old(d.indirect) == 0 && old(sb.Room()) >= 1 ==>
                ret == 0 && isNew && FreshRoot(old(V()), V(), Ind) && sb.Room() == old(sb.Room()) - 1
      ensures ret == 0 ==> DataBlock(d.indirect) && d.indirect in sb.alloc && indirect == sb.disk[d.indirect]
    {
      hide SuperBlock.Valid;
      ghost var v := V();
      if d.indirect == 0 {
        indirect := ZERO_BLOCK;
        var phy := AllocBlockForInode();
        if phy < 0 {
          return phy, indirect, false;
        }
        ghost var u := V();
        d := d.(indirect := phy);
        TakeInd(v, u, V(), phy);
        return 0, indirect, true;
      } else {
        assert At(sb.disk, d, Ind) == d.indirect;
        return 0, sb.disk[d.indirect], false;
      }
    }

    /** Allocates the data block and records it in the indirect block. */
    method HangInIndirect(k: nat, buf: Block) returns (phy: int)
      requires sb.Valid() && Good(V()) && k < NR_INDIRECT_BLOCKS && At(sb.disk, d, IndLeaf(k)) == 0
      requires DataBlock(d.indirect) && d.indirect in sb.alloc && buf == sb.disk[d.indirect]
      modifies this, sb, sb.blockFreemap, sb.blockFreemap.v
      ensures sb.Valid() && sb.sb.maxFsBlocks == old(sb.sb.maxFsBlocks) && Noted(old(d), old(dirty))
      ensures old(sb.Room()) >= 1 ==> Hung(old(V()), V(), IndLeaf(k), phy)
      ensures old(sb.Room()) < 1 ==> phy == -ENOSPC && V() == old(V()) && sb.Room() == old(sb.Room())
    {
      hide SuperBlock.Valid;
      ghost var v := V();
      phy := AllocBlockForInode();
      if phy >= 0 {
        ghost var u := V();
        var indirect := SetPtr(buf, k, phy);
        sb.WriteBlock(indirect, d.indirect);
        TakeIndLeaf(v, u, V(), k, phy);
      }
    }

    /** A logical block mapped through i_indirect, which is allocated first if need be. */
    method AllocateIndirect(k: nat) returns (phy: int)
      requires sb.Valid() && Good(V())
      requires k < NR_INDIRECT_BLOCKS && Phys(sb.disk, d, NR_DIRECT_BLOCKS + k) == 0
      modifies this, sb, sb.blockFreemap, sb.blockFreemap.v
      ensures sb.Valid() && sb.sb.maxFsBlocks == old(sb.sb.maxFsBlocks) && Noted(old(d), old(dirty))
      ensures AllOrNothing(old(V()), V(), NR_DIRECT_BLOCKS + k, phy, old(sb.Room()))
    {
      hide SuperBlock.Valid, SameContents, Missing, Grown, Good, FreshRoot, At, Allocated, Undone;
      ghost var v := V();
      NothingDone(v);
      MissingIndirect(v, k);
      var ret, indirect, isNew := NeedIndirect();
      if ret < 0 {
        return ret;
      }
      ghost var v1 := V();
      AfterIndirect(v, v1, k);
      phy := HangInIndirect(k, indirect);
      if phy >= 0 {
        IndirectDone(v, v1, V(), k, phy);
      } else if isNew {
        FreeBlockFromInode(d.indirect);
        d := d.(indirect := 0);
        RootUndone(v, v1, V(), Ind);
      }
    }

    /** The double indirect block, allocated if need be. */
    method NeedDoublyIndirect() returns (ret: int, dindirect: Block, isNew: bool)
      requires sb.Valid() && Good(V())
      modifies this, sb, sb.blockFreemap, sb.blockFreemap.v
      ensures sb.Valid() && sb.sb.maxFsBlocks == old(sb.sb.maxFsBlocks) && Noted(old(d), old(dirty))
      ensures old(d.dindirect) != 0 ==> ret == 0 && !isNew && V() == old(V()) && sb.Room() == old(sb.Room())
      ensures old(d.dindirect) == 0 && old(sb.Room()) < 1 ==> ret == -ENOSPC && V() == old(V())
      ensures old(d.dindirect) == 0 && old(sb.Room()) >= 1 ==>
                ret == 0 && isNew && FreshRoot(old(V()), V(), Dind) && sb.Room() == old(sb.Room()) - 1
      ensures ret == 0 ==> DataBlock(d.dindirect) && d.dindirect in sb.alloc && dindirect == sb.disk[d.dindirect]
    {
      hide SuperBlock.Valid;
      ghost var v := V();
      if d.dindirect == 0 {
        dindirect := ZERO_BLOCK;
        var phy := AllocBlockForInode();
        if phy < 0 {
          return phy, dindirect, false;
        }
        ghost var u := V();
        d := d.(dindirect := phy);
        TakeDind(v, u, V(), phy);
        return 0, dindirect, true;
      } else {
        assert At(sb.disk, d, Dind) == d.dindirect;
        return 0, sb.disk[d.dindirect], false;
      }
    }

    /** Third-level block `i`, allocated and recorded in the double indirect block if need be. */
    method NeedThird(i: nat, buf: Block) returns (ret: int, dindirect: Block, third: Block, isNew: bool)
      requires sb.Valid() && Good(V()) && i < NR_INDIRECT_BLOCKS
      requires DataBlock(d.dindirect) && d.dindirect in sb.alloc && buf == sb.disk[d.dindirect]
      modifies this, sb, sb.blockFreemap, sb.blockFreemap.v
      ensures sb.Valid() && sb.sb.maxFsBlocks == old(sb.sb.maxFsBlocks) && Noted(old(d), old(dirty))
      ensures Ptr(buf, i) != 0 ==> ret == 0 && !isNew && V() == old(V()) && sb.Room() == old(sb.Room())
      ensures Ptr(buf, i) == 0 && old(sb.Room()) < 1 ==> ret == -ENOSPC && V() == old(V())
      ensures Ptr(buf, i) == 0 && old(sb.Room()) >= 1 ==>
                ret == 0 && isNew && FreshThird(old(V()), V(), i) && sb.Room() == old(sb.Room()) - 1
      ensures ret == 0 ==> d.dindirect == old(d.dindirect) && dindirect == sb.disk[d.dindirect]
      ensures ret == 0 ==> d.dindirect in sb.alloc
      ensures ret == 0 ==> DataBlock(Ptr(dindirect, i)) && Ptr(dindirect, i) in sb.alloc
      ensures ret == 0 ==> third == sb.disk[Ptr(dindirect, i)]
    {
      hide SuperBlock.Valid;
      ghost var v := V();
      dindirect := buf;
      assert At(sb.disk, d, Dind) == d.dindirect && At(sb.disk, d, Third(i)) == Ptr(buf, i);
      if Ptr(dindirect, i) == 0 {
        third := ZERO_BLOCK;
        var phy := AllocBlockForInode();
        if phy < 0 {
          return phy, dindirect, third, false;
        }
        ghost var u := V();
        PtrOfSetPtr(dindirect, i, phy, i);
        dindirect := SetPtr(dindirect, i, phy);
        sb.WriteBlock(dindirect, d.dindirect);
        TakeThird(v, u, V(), i, phy);
        return 0, dindirect, third, true;
      } else {
        return 0, dindirect, sb.disk[Ptr(dindirect, i)], false;
      }
    }

    /** Allocates the data block and records it in third-level block `i`. */
    method HangInThird(i: nat, j: nat, buf: Block, dindirect: Block, thirdIsNew: bool) returns (phy: int)
      requires sb.Valid() && Good(V()) && i < NR_INDIRECT_BLOCKS && j < NR_INDIRECT_BLOCKS
      requires At(sb.disk, d, Leaf(i, j)) == 0
      requires DataBlock(d.dindirect) && d.dindirect in sb.alloc && dindirect == sb.disk[d.dindirect]
      requires var t := Ptr(dindirect, i); DataBlock(t) && t in sb.alloc && buf == sb.disk[t]
      modifies this, sb, sb.blockFreemap, sb.blockFreemap.v
      ensures sb.Valid() && sb.sb.maxFsBlocks == old(sb.sb.maxFsBlocks) && Noted(old(d), old(dirty))
      ensures old(sb.Room()) >= 1 ==> Hung(old(V()), V(), Leaf(i, j), phy)
      ensures old(sb.Room()) < 1 ==> phy == -ENOSPC && V() == old(V()) && sb.Room() == old(sb.Room())
    {
      hide SuperBlock.Valid;
      ghost var v := V();
      assert At(sb.disk, d, Dind) == d.dindirect && At(sb.disk, d, Third(i)) == Ptr(dindirect, i);
      phy := AllocBlockForInode();
      if phy >= 0 {
        ghost var u := V();
        var third := SetPtr(buf, j, phy);
        sb.WriteBlock(third, Ptr(dindirect, i));
        if thirdIsNew {
          sb.WriteBlock(dindirect, d.dindirect);
        }
        TakeLeaf(v, u, V(), i, j, phy);
      }
    }

    /** The third-level block that was just allocated is freed and its entry cleared. */
    method UndoThird(i: nat, buf: Block, ghost v1: Vol) returns (dindirect: Block)
      requires sb.Valid() && i < NR_INDIRECT_BLOCKS && Good(v1) && FreshThird(v1, V(), i)
      requires DataBlock(d.dindirect) && d.dindirect in sb.alloc && buf == sb.disk[d.dindirect]
      requires DataBlock(Ptr(buf, i)) && Ptr(buf, i) in sb.alloc
      modifies this, sb, sb.blockFreemap, sb.blockFreemap.v
      ensures sb.Valid() && sb.sb.maxFsBlocks == old(sb.sb.maxFsBlocks) && Noted(old(d), old(dirty))
      ensures Undone(v1, V())
    {
      hide SuperBlock.Valid;
      ghost var v2 := V();
      ghost var b := Ptr(buf, i);
      ThirdEntry(v1, v2, i);
      FreeBlockFromInode(Ptr(buf, i));
      ghost var u := V();
      dindirect := SetPtr(buf, i, 0);
      sb.WriteBlock(dindirect, d.dindirect);
      ThirdUndone(v1, v2, u, V(), i);
    }

    /**
     The clean-up after the data block could not be allocated. Where the double indirect block is new,
     the code releases i_indirect in its stead (line 294).
     */
    method UndoDoublyIndirect(i: nat, buf: Block, thirdIsNew: bool, isNew: bool, ghost v: Vol, ghost v1: Vol)
      requires sb.Valid() && i < NR_INDIRECT_BLOCKS && Good(v) && Good(v1)
      requires if isNew then FreshRoot(v, v1, Dind) && v.d.dindirect == 0 && thirdIsNew else v1 == v
      requires if thirdIsNew then FreshThird(v1, V(), i) else V() == v1
      requires isNew ==> dirty
      requires DataBlock(d.dindirect) && d.dindirect in sb.alloc && buf == sb.disk[d.dindirect]
      requires DataBlock(Ptr(buf, i)) && Ptr(buf, i) in sb.alloc
      modifies this, sb, sb.blockFreemap, sb.blockFreemap.v
      ensures sb.Valid() && sb.sb.maxFsBlocks == old(sb.sb.maxFsBlocks) && Noted(old(d), old(dirty))
      ensures if isNew then Leaked(v, V()) else Undone(v, V())
    {
      hide SuperBlock.Valid, Grown, Good, SameContents, FreshRoot, FreshThird;
      if thirdIsNew {
        var dindirect := UndoThird(i, buf, v1);
      } else {
        NothingDone(v);
      }
      if isNew {
        LoseRoot(v, v1);
      }
    }

    /** `testfs_free_block_from_inode(in, in->in.i_indirect); in->in.i_dindirect = 0;` */
    method LoseRoot(ghost v: Vol, ghost v1: Vol)
      requires sb.Valid() && Good(v) && Good(v1) && FreshRoot(v, v1, Dind) && v.d.dindirect == 0 && Undone(v1, V()) && dirty
      modifies this, sb, sb.blockFreemap, sb.blockFreemap.v
      ensures sb.Valid() && sb.sb.maxFsBlocks == old(sb.sb.maxFsBlocks) && Noted(old(d), old(dirty))
      ensures Leaked(v, V())
    {
      hide SuperBlock.Valid;
      ghost var v3 := V();
      assert At(v1.disk, v1.d, Ind) == v1.d.indirect;
      FreeBlockFromInode(d.indirect);
      ghost var u := V();
      d := d.(dindirect := 0);
      RootLost(v, v1, v3, u, V());
    }

    /** The steps below the double indirect block: third-level block, data block, clean-up on failure. */
    method AllocateBelow(n: nat, buf: Block, isNew: bool, ghost v: Vol, ghost room: int) returns (phy: int)
      requires sb.Valid() && Good(v) && n < NR_INDIRECT_BLOCKS * NR_INDIRECT_BLOCKS
      requires Phys(v.disk, v.d, FIRST_DOUBLE + n) == 0
      requires isNew == (v.d.dindirect == 0) && (isNew ==> dirty)
      requires if isNew then FreshRoot(v, V(), Dind) && sb.Room() == room - 1 >= 0 else V() == v && sb.Room() == room
      requires DataBlock(d.dindirect) && d.dindirect in sb.alloc && buf == sb.disk[d.dindirect]
      modifies this, sb, sb.blockFreemap, sb.blockFreemap.v
      ensures sb.Valid() && sb.sb.maxFsBlocks == old(sb.sb.maxFsBlocks) && Noted(old(d), old(dirty))
      ensures AllocationOutcome(v, V(), FIRST_DOUBLE + n, phy, room)
    {
      hide SuperBlock.Valid, Grown, Good, SameContents, FreshRoot, FreshThird, Leaked, Undone, At, Missing, Allocated,
        RootMissing;
      var j := n % NR_INDIRECT_BLOCKS;
      var i := n / NR_INDIRECT_BLOCKS;
      MissingDouble(v, n);
      NothingDone(v);
      ghost var v1 := V();
      AfterRoot(v, v1, i, j);
      var ret, dindirect, third, thirdIsNew := NeedThird(i, buf);
      if ret < 0 {
        return ret;
      }
      ghost var v2 := V();
      AfterThird(v1, v2, i, j);
      phy := HangInThird(i, j, third, dindirect, thirdIsNew);
      if phy >= 0 {
        DoubleDone(v, v1, v2, V(), n, phy);
      } else {
        UndoDoublyIndirect(i, dindirect, thirdIsNew, isNew, v, v1);
      }
    }

    /** A logical block mapped through i_dindirect; up to three blocks have to be allocated. */
    method AllocateDoublyIndirect(n: nat) returns (phy: int)
      requires sb.Valid() && Good(V())
      requires n < NR_INDIRECT_BLOCKS * NR_INDIRECT_BLOCKS && Phys(sb.disk, d, FIRST_DOUBLE + n) == 0
      modifies this, sb, sb.blockFreemap, sb.blockFreemap.v
      ensures sb.Valid() && sb.sb.maxFsBlocks == old(sb.sb.maxFsBlocks) && Noted(old(d), old(dirty))
      ensures AllocationOutcome(old(V()), V(), FIRST_DOUBLE + n, phy, old(sb.Room()))
    {
      hide SuperBlock.Valid, Good, FreshRoot, Undone, At, Missing;
      ghost var v := V();
      ghost var room := sb.Room();
      MissingDouble(v, n);
      NothingDone(v);
      var ret, dindirect, isNew := NeedDoublyIndirect();
      if ret < 0 {
        return ret;
      }
      phy := AllocateBelow(n, dindirect, isNew, v, room);
    }

    /**
     The physical block of a logical block, allocated if it does not exist; `block` is what the logical
     block contains. Fails as AllocationOutcome says.
     */
    method AllocateBlock(log: nat, buf: Block) returns (ret: int, block: Block)
      requires sb.Valid() && Good(V())
      requires log != MAX_FILE_SIZE
      modifies this, sb, sb.blockFreemap, sb.blockFreemap.v
      ensures sb.Valid() && sb.sb.maxFsBlocks == old(sb.sb.maxFsBlocks) && Noted(old(d), old(dirty))
      ensures log > MAX_FILE_SIZE ==> ret == EFBIG && block == buf && V() == old(V())
      ensures log < MAX_FILE_SIZE ==> block == Content(old(sb.disk), old(d), log)
      ensures log < MAX_FILE_SIZE && Phys(old(sb.disk), old(d), log) != 0 ==>
                ret == Phys(old(sb.disk), old(d), log) && V() == old(V())
      ensures log < MAX_FILE_SIZE && Phys(old(sb.disk), old(d), log) == 0 ==>
                AllocationOutcome(old(V()), V(), log, ret, old(sb.Room()))
    {
      hide SuperBlock.Valid, At, Leaked, FreshRoot, SameContents, Grown, Allocated, Missing, Undone;
      if log > MAX_FILE_SIZE {
        return EFBIG, buf;
      }
      ret, block := ReadBlock(log, buf);
      if ret != 0 {
        return;
      }
      if log < NR_DIRECT_BLOCKS {
        MissingDirect(V(), log);
        NothingDone(V());
        ret := AllocateDirect(log);
        return;
      }
      var n := log - NR_DIRECT_BLOCKS;
      if n >= NR_INDIRECT_BLOCKS {
        ret := AllocateDoublyIndirect(n - NR_INDIRECT_BLOCKS);
      } else {
        ret := AllocateIndirect(n);
      }
    }

    // ---- reading and writing bytes

    /**
     Reads up to `size` bytes from `start`. `overran` tells that the last copy asks for more bytes than are
     left to read (line 168); what it moves past the caller's buffer is not part of `buf`.
     */
    method ReadData(start: nat, size: nat) returns (ret: int, buf: seq<byte>, overran: bool)
      requires Sound(sb.disk, d) && start <= d.size <= MAX_BYTES && size < INT_LIMIT
      ensures start == MAX_BYTES ==> ret == EFBIG && buf == []
      ensures start < MAX_BYTES ==>
                && ret == |buf| == (if start + size > d.size then d.size - start else size)
                && Holds(V(), start, buf)
                && (overran <==> start % BLOCK_SIZE + |buf| > BLOCK_SIZE)
    {
      hide Content, Phys, At, FileByte, Holds;
      var blockNr := start / BLOCK_SIZE;
      var blockIx := start % BLOCK_SIZE;
      var remainSizeFirstBlock := BLOCK_SIZE - blockIx;
      buf, overran := [], false;
      if blockNr >= MAX_FILE_SIZE {
        return EFBIG, buf, overran;
      }
      var n := if start + size > d.size then d.size - start else size;
      var need := n;
      var block := ZERO_BLOCK;
      HoldsNothing(V(), start);
      while blockIx + need > BLOCK_SIZE
        invariant blockNr * BLOCK_SIZE + blockIx == start + |buf| && 0 <= blockIx < BLOCK_SIZE
        invariant need + |buf| == n && need >= 0 && remainSizeFirstBlock == BLOCK_SIZE - blockIx
        invariant if buf == [] then blockIx == start % BLOCK_SIZE else need > 0 && start % BLOCK_SIZE + n > BLOCK_SIZE
        invariant blockNr < MAX_FILE_SIZE && Holds(V(), start, buf)
        decreases need
      {
        ret, block := ReadBlock(blockNr, block);
        HoldsMore(V(), start, buf, blockNr, blockIx, BLOCK_SIZE);
        buf := buf + block[blockIx..BLOCK_SIZE];
        need := need - remainSizeFirstBlock;
        blockIx := 0;
        blockNr := blockNr + 1;
        remainSizeFirstBlock := BLOCK_SIZE;
      }
      ret, block := ReadBlock(blockNr, block);
      HoldsMore(V(), start, buf, blockNr, blockIx, blockIx + need);
      overran := n > need;
      buf := buf + block[blockIx..blockIx + need];
      return n, buf, overran;
    }

    /** One block of a write: allocate it if need be, copy `piece` into it, write it. */
    method WriteOneBlock(log: nat, off: nat, piece: seq<byte>) returns (ret: int)
      requires sb.Valid() && Good(V()) && log < MAX_FILE_SIZE && off + |piece| <= BLOCK_SIZE
      modifies this, sb, sb.blockFreemap, sb.blockFreemap.v
      ensures sb.Valid() && sb.sb.maxFsBlocks == old(sb.sb.maxFsBlocks) && Noted(old(d), old(dirty))
      ensures old(sb.Room()) >= |Missing(old(V()), log)| ==>
                && ret >= 0 && Grown(old(V()), V(), Missing(old(V()), log))
                && BlockSpliced(old(V()), V(), log, off, piece)
                && sb.Room() == old(sb.Room()) - |Missing(old(V()), log)| && d.size == old(d).size
      ensures old(sb.Room()) < |Missing(old(V()), log)| ==>
                ret == -ENOSPC && AllocationOutcome(old(V()), V(), log, ret, old(sb.Room())) && d.size == old(d).size
    {
      hide SuperBlock.Valid, Missing, AllocationOutcome, SameContents, Grown, Good, Phys;
      ghost var v := V();
      GoodShape(v);
      NoneMissing(v, log);
      RoomIs(sb);
      var block;
      ghost var room := sb.Room();
      ret, block := AllocateBlock(log, ZERO_BLOCK);
      if Phys(v.disk, v.d, log) == 0 {
        OutcomeSign(v, V(), log, ret, room);
      } else {
        AllocatedIsPositive(v, log);
      }
      if ret < 0 {
        OutcomeKeepsSize(v, V(), log, ret, room);
        return;
      }
      ghost var w := V();
      AllocatedBlock(v, w, log, ret, room);
      block := Splice(block, off, piece);
      sb.WriteBlock(block, ret);
      WriteLeaf(w, V(), log, block);
      SplicedAfterAllocation(v, w, V(), log, off, piece);
      RoomIs(sb);
    }

    /**
     The blocks of a write that are written in full, but for the first (the loop of lines 384-398). A write long
     enough asks for block MAX_FILE_SIZE, for which testfs_allocate_block goes outside its index block: `outside`.
     */
    method WriteFullBlocks(buf: seq<byte>, start: nat, first: nat, ghost v: Vol, ghost room: int)
      returns (ret: int, blockNr: nat, outside: bool, ghost mid: Vol)
      requires sb.Valid() && Good(v) && start < MAX_BYTES
      requires Progress(v, V(), buf, start, first, sb.Room(), room) && first > start / BLOCK_SIZE
      modifies this, sb, sb.blockFreemap, sb.blockFreemap.v
      ensures sb.Valid() && sb.sb.maxFsBlocks == old(sb.sb.maxFsBlocks) && Noted(old(d), old(dirty))
      ensures ret < 0 ==> !outside && WriteOutcome(v, V(), buf, start, ret, blockNr, mid, room)
      ensures ret >= 0 ==> Progress(v, V(), buf, start, blockNr, sb.Room(), room)
      ensures ret >= 0 && !outside ==> blockNr == LastBlock(start, |buf|)
      ensures outside ==> ret >= 0 && blockNr == MAX_FILE_SIZE < LastBlock(start, |buf|)
    {
      hide SuperBlock.Valid, Grown, BlockSpliced, AllocationOutcome, Good, Wrote, Missing, WriteOutcome;
      blockNr := first;
      var p := first * BLOCK_SIZE - start;
      var needToWrite := |buf| - p;
      mid := V();
      outside := false;
      while needToWrite > BLOCK_SIZE
        invariant start / BLOCK_SIZE < blockNr <= LastBlock(start, |buf|)
        invariant p == blockNr * BLOCK_SIZE - start == |buf| - needToWrite
        invariant sb.Valid() && sb.sb.maxFsBlocks == old(sb.sb.maxFsBlocks) && Noted(old(d), old(dirty))
        invariant Progress(v, V(), buf, start, blockNr, sb.Room(), room)
      {
        mid := V();
        ghost var left := sb.Room();
        if blockNr == MAX_FILE_SIZE {
          return 0, blockNr, true, mid;
        }
        ret := WriteOneBlock(blockNr, 0, buf[p..p + BLOCK_SIZE]);
        if ret < 0 {
          d := d.(size := MAX_BYTES);
          dirty := true;
          ProgressStops(v, mid, V(), buf, start, ret, blockNr, left, room);
          return;
        }
        ProgressStep(v, mid, V(), buf, start, blockNr, left, room);
        needToWrite := needToWrite - BLOCK_SIZE;
        blockNr := blockNr + 1;
        p := p + BLOCK_SIZE;
      }
      return 0, blockNr, false, mid;
    }

    /** The last block of a write, which may be its only one (lines 401-428). */
    method WriteLastBlock(buf: seq<byte>, start: nat, ghost v: Vol, ghost room: int) returns (ret: int, ghost mid: Vol)
      requires sb.Valid() && Good(v) && start < MAX_BYTES
      requires Progress(v, V(), buf, start, LastBlock(start, |buf|), sb.Room(), room)
      modifies this, sb, sb.blockFreemap, sb.blockFreemap.v
      ensures sb.Valid() && sb.sb.maxFsBlocks == old(sb.sb.maxFsBlocks) && Noted(old(d), old(dirty))
      ensures WriteOutcome(v, V(), buf, start, ret, LastBlock(start, |buf|), mid, room)
    {
      hide SuperBlock.Valid, Grown, BlockSpliced, AllocationOutcome, Good, Wrote, Missing, WriteOutcome;
      mid := V();
      ghost var left := sb.Room();
      var blockNr := LastBlock(start, |buf|);
      var p := BytesBefore(start, |buf|, blockNr);
      if blockNr >= MAX_FILE_SIZE {
        d := d.(size := MAX_BYTES);
        dirty := true;
        ProgressTooLong(v, mid, V(), buf, start, left, room);
        return -EFBIG, mid;
      }
      ret := WriteOneBlock(blockNr, PieceOffset(start, blockNr), buf[p..]);
      if ret < 0 {
        d := d.(size := MAX_BYTES);
        dirty := true;
        ProgressStops(v, mid, V(), buf, start, ret, blockNr, left, room);
        return;
      }
      ghost var w := V();
      if |buf| > 0 {
        d := d.(size := if d.size >= start + |buf| then d.size else start + |buf|);
      }
      dirty := true;
      ProgressEnds(v, mid, w, V(), buf, start, left, room);
      return |buf|, mid;
    }

    /**
     Writes `buf` at `start`. On failure `stop` is the block that could not be had and `mid` the state just
     before it was asked for. A write that comes to ask for block MAX_FILE_SIZE is followed up to there.
     */
    method WriteData(buf: seq<byte>, start: nat) returns (ret: int, outside: bool, ghost stop: nat, ghost mid: Vol)
      requires sb.Valid() && Good(V()) && |buf| < INT_LIMIT
      modifies this, sb, sb.blockFreemap, sb.blockFreemap.v
      ensures sb.Valid() && sb.sb.maxFsBlocks == old(sb.sb.maxFsBlocks) && Noted(old(d), old(dirty))
      ensures outside <==> start < MAX_BYTES && RunsOutside(old(V()), start, |buf|, old(sb.Room()))
      ensures start >= MAX_BYTES ==> ret == EFBIG && V() == old(V())
      ensures start < MAX_BYTES && !outside ==>
                WriteOutcome(old(V()), V(), buf, start, ret, stop, mid, old(sb.Room()))
      ensures outside ==> Wrote(old(V()), V(), start, buf[..MAX_BYTES - start], start / BLOCK_SIZE, MAX_FILE_SIZE)
    {
      hide SuperBlock.Valid, Grown, BlockSpliced, AllocationOutcome, Good, Wrote, Missing, WriteOutcome;
      ghost var v := V();
      ghost var room := sb.Room();
      var blockNr := start / BLOCK_SIZE;
      var blockIx := start % BLOCK_SIZE;
      stop, mid, outside := LastBlock(start, |buf|), v, false;
      if blockNr >= MAX_FILE_SIZE {
        return EFBIG, false, stop, mid;
      }
      ProgressStarts(v, buf, start, room);
      if blockIx + |buf| > BLOCK_SIZE {
        var firstBlockToWrite := BLOCK_SIZE - blockIx;
        ret := WriteOneBlock(blockNr, blockIx, buf[..firstBlockToWrite]);
        if ret < 0 {
          ProgressStops(v, v, V(), buf, start, ret, blockNr, room, room);
          stop := blockNr;
          EndsInside(v, V(), buf, start, ret, stop, mid, room);
          return;
        }
        ProgressStep(v, v, V(), buf, start, blockNr, room, room);
        ret, blockNr, outside, mid := WriteFullBlocks(buf, start, blockNr + 1, v, room);
        if ret < 0 {
          stop := blockNr;
          EndsInside(v, V(), buf, start, ret, stop, mid, room);
          return;
        }
        if outside {
          return;
        }
      }
      ret, mid := WriteLastBlock(buf, start, v, room);
      EndsInside(v, V(), buf, start, ret, stop, mid, room);
    }

    /** What a write that succeeds has written is what a read of the same range then delivers. */
    method WriteAndRead(buf: seq<byte>, start: nat) returns (ret: int, outside: bool, read: seq<byte>)
      requires sb.Valid() && Good(V()) && 0 < |buf| < INT_LIMIT && start < MAX_BYTES && 0 <= d.size <= MAX_BYTES
      modifies this, sb, sb.blockFreemap, sb.blockFreemap.v
      ensures ret >= 0 && !outside ==> read == buf
    {
      hide SuperBlock.Valid, Good, Written, Holds, Grown, MissingRange, AllocationOutcome;
      ghost var v := V();
      ghost var stop, mid;
      ret, outside, stop, mid := WriteData(buf, start);
      read := [];
      if ret < 0 || outside {
        return;
      }
      SuccessIsWritten(v, V(), buf, start, ret, stop, mid, old(sb.Room()));
      var n, overran;
      n, read, overran := ReadData(start, |buf|);
      ReadsWhatWasWritten(v, V(), start, buf, read);
    }

    // ---- freeing

    /** Frees the block at one position of the tree the inode had in `v`, of which `ps` are freed already. */
    method FreePosition(phy: int, ghost v: Vol, ghost ps: set<Path>, ghost p: Path)
      requires sb.Valid() && Good(v) && FreedAt(v, V(), ps) && InUse(v, p) && p !in ps
      requires phy == At(v.disk, v.d, p)
      modifies this, sb, sb.blockFreemap, sb.blockFreemap.v
      ensures sb.Valid() && sb.sb.maxFsBlocks == old(sb.sb.maxFsBlocks) && dirty
      ensures FreedAt(v, V(), ps + {p})
      ensures d == old(d).(blockCount := d.blockCount)
    {
      hide SuperBlock.Valid;
      ghost var w := V();
      NotYetFreed(v, w, ps, p);
      FreeBlockFromInode(phy);
      FreedOneMore(v, w, V(), ps, p);
    }

    /** The direct blocks of a file of `e` blocks (lines 446-452). */
    method FreeDirect(e: nat)
      requires sb.Valid() && Good(V())
      modifies this, sb, sb.blockFreemap, sb.blockFreemap.v
      ensures sb.Valid() && sb.sb.maxFsBlocks == old(sb.sb.maxFsBlocks)
      ensures FreedAt(old(V()), V(), DirectsBelow(old(V()), e))
      ensures d == old(d).(blockCount := d.blockCount, direct := d.direct) && |d.direct| == NR_DIRECT_BLOCKS
      ensures forall i | 0 <= i < NR_DIRECT_BLOCKS :: d.direct[i] == if i < e then 0 else old(d).direct[i]
    {
      hide SuperBlock.Valid, FreedAt, Good, DirectsBelow, At, InUse;
      ghost var v := V();
      NothingFreed(v);
      DirectsStep(v, 0);
      var k := 0;
      while k < e && k < NR_DIRECT_BLOCKS
        invariant k <= e && k <= NR_DIRECT_BLOCKS
        invariant sb.Valid() && sb.sb.maxFsBlocks == old(sb.sb.maxFsBlocks)
        invariant FreedAt(v, V(), DirectsBelow(v, k))
        invariant d == v.d.(blockCount := d.blockCount, direct := d.direct) && |d.direct| == NR_DIRECT_BLOCKS
        invariant forall i | 0 <= i < NR_DIRECT_BLOCKS :: d.direct[i] == if i < k then 0 else v.d.direct[i]
      {
        DirectsStep(v, k);
        if d.direct[k] != 0 {
          FreePosition(d.direct[k], v, DirectsBelow(v, k), Direct(k));
          ghost var w := V();
          d := d.(direct := d.direct[k := 0]);
          FreedAtFields(v, w, V(), DirectsBelow(v, k + 1));
        }
        k := k + 1;
      }
      if k < e {
        DirectsEnd(v, e);
      }
    }

    /** The indirect block and its entries, of a file of `e` blocks (lines 456-467). */
    method FreeIndirect(e: nat, ghost v: Vol)
      requires sb.Valid() && Good(v) && FreedAt(v, V(), DirectsBelow(v, e)) && d.indirect == v.d.indirect
      modifies this, sb, sb.blockFreemap, sb.blockFreemap.v
      ensures sb.Valid() && sb.sb.maxFsBlocks == old(sb.sb.maxFsBlocks)
      ensures FreedAt(v, V(), UpToIndirect(v, e))
      ensures d == old(d).(blockCount := d.blockCount, indirect := 0)
    {
      hide SuperBlock.Valid, FreedAt, Good, DirectsBelow, IndirectSoFar, UpToIndirect, At, InUse, EntriesFrom;
      IndirectSign(v);
      IndirectStarts(v, e);
      if d.indirect > 0 {
        EntriesRead(v, V(), DirectsBelow(v, e));
        var block := sb.disk[d.indirect];
        var k := 0;
        while k < e - NR_DIRECT_BLOCKS && k < NR_INDIRECT_BLOCKS
          invariant 0 <= k <= NR_INDIRECT_BLOCKS && (k == 0 || k <= e - NR_DIRECT_BLOCKS)
          invariant sb.Valid() && sb.sb.maxFsBlocks == old(sb.sb.maxFsBlocks)
          invariant FreedAt(v, V(), IndirectSoFar(v, e, k)) && EntriesFrom(v, block, k)
          invariant d == old(d).(blockCount := d.blockCount)
        {
          IndirectStep(v, e, k);
          FirstEntry(v, block, k);
          if Ptr(block, k) == 0 {
            FreeBlockFromInode(Ptr(block, k));
          } else {
            FreePosition(Ptr(block, k), v, IndirectSoFar(v, e, k), IndLeaf(k));
          }
          EntryCleared(v, block, k);
          block := SetPtr(block, k, 0);
          k := k + 1;
        }
        IndirectEnds(v, e, k);
        FreePosition(d.indirect, v, IndirectSoFar(v, e, k), Ind);
        ghost var w := V();
        d := d.(indirect := 0);
        FreedAtFields(v, w, V(), UpToIndirect(v, e));
      }
    }

    /** The entries of third-level block `i` (lines 482-490); the count of freed blocks goes from `before` to `total`. */
    method FreeLeaves(i: nat, blockNr: int, before: nat, limit: nat, ghost v: Vol, ghost base: set<Path>, ghost qs: set<Path>)
      returns (total: nat, ghost ps: set<Path>, ghost j: nat)
      requires sb.Valid() && Good(v) && i < NR_INDIRECT_BLOCKS && blockNr == At(v.disk, v.d, Third(i))
      requires WalkFreed(v, V(), base, qs) && InnerState(v, qs, i, 0, before, limit)
      modifies this, sb, sb.blockFreemap, sb.blockFreemap.v
      ensures sb.Valid() && sb.sb.maxFsBlocks == old(sb.sb.maxFsBlocks)
      ensures d == old(d).(blockCount := d.blockCount)
      ensures WalkFreed(v, V(), base, ps) && InnerState(v, ps, i, j, total, limit)
      ensures total >= limit || j == NR_INDIRECT_BLOCKS
    {
      hide SuperBlock.Valid, WalkFreed, FreedAt, Good, Below, InnerState, InUse, At, LeavesFrom;
      InnerReads(v, V(), base, qs, i, before, limit);
      var block := sb.disk[blockNr];
      total, ps, j := before, qs, 0;
      var k := 0;
      while total < limit && k < NR_INDIRECT_BLOCKS
        invariant j == k <= NR_INDIRECT_BLOCKS
        invariant sb.Valid() && sb.sb.maxFsBlocks == old(sb.sb.maxFsBlocks)
        invariant d == old(d).(blockCount := d.blockCount)
        invariant WalkFreed(v, V(), base, ps) && InnerState(v, ps, i, j, total, limit) && LeavesFrom(v, block, i, j)
        decreases NR_INDIRECT_BLOCKS - k
      {
        LeafEntry(v, block, i, k);
        if Ptr(block, k) != 0 {
          InnerFrees(v, ps, i, k, total, limit);
          BelowForm(v, Leaf(i, k));
          WalkFrees(v, base, ps, Leaf(i, k), V());
          FreePosition(Ptr(block, k), v, base + ps, Leaf(i, k));
          block := SetPtr(block, k, 0);
          ps := ps + {Leaf(i, k)};
          total := total + 1;
        } else {
          InnerSkips(v, ps, i, k, total, limit);
        }
        k := k + 1;
        j := k;
      }
    }

    /** The third-level blocks, their entries and the double indirect block (lines 472-498). */
    method FreeDoublyIndirect(e: nat, ghost v: Vol) returns (ghost ps: set<Path>)
      requires sb.Valid() && Good(v) && ThirdsUsed(v) && FreedAt(v, V(), UpToIndirect(v, e)) && e >= FIRST_DOUBLE
      requires d.dindirect == v.d.dindirect != 0
      modifies this, sb, sb.blockFreemap, sb.blockFreemap.v
      ensures sb.Valid() && sb.sb.maxFsBlocks == old(sb.sb.maxFsBlocks)
      ensures d == old(d).(blockCount := d.blockCount, dindirect := 0)
      ensures ps <= Below(v) && FreedAt(v, V(), UpToIndirect(v, e) + Doubly(v, e, ps))
      ensures ps == Below(v) <==> |Below(v)| <= e - FIRST_DOUBLE + 1
    {
      hide SuperBlock.Valid, WalkFreed, FreedAt, Good, Below, InnerState, InUse, At, ThirdsFrom, WalkState,
        UpToIndirect, Doubly, ThirdsUsed;
      IndirectSign(v);
      var limit := e - FIRST_DOUBLE;
      ghost var base := UpToIndirect(v, e);
      WalkFreedStarts(v, V(), e);
      ThirdsRead(v, V(), base);
      WalkStarts(v, limit);
      ps := {};
      var totalNumber: nat := 0;
      var block := sb.disk[d.dindirect];
      var i := 0;
      while totalNumber < limit && i < NR_INDIRECT_BLOCKS
        invariant i <= NR_INDIRECT_BLOCKS
        invariant sb.Valid() && sb.sb.maxFsBlocks == old(sb.sb.maxFsBlocks)
        invariant d == old(d).(blockCount := d.blockCount)
        invariant WalkFreed(v, V(), base, ps) && WalkState(v, ps, i, totalNumber, limit) && ThirdsFrom(v, block, i)
        decreases NR_INDIRECT_BLOCKS - i
      {
        ThirdEntryOf(v, block, i);
        if Ptr(block, i) != 0 {
          InnerStarts(v, ps, i, totalNumber, limit);
          ghost var j;
          totalNumber, ps, j := FreeLeaves(i, Ptr(block, i), totalNumber, limit, v, base, ps);
          InnerEnds(v, ps, i, j, totalNumber, limit);
          BelowForm(v, Third(i));
          WalkFrees(v, base, ps, Third(i), V());
          FreePosition(Ptr(block, i), v, base + ps, Third(i));
          ps := ps + {Third(i)};
          block := SetPtr(block, i, 0);
          totalNumber := totalNumber + 1;
        } else {
          WalkSkips(v, ps, i, totalNumber, limit);
        }
        i := i + 1;
      }
      WalkEnds(v, ps, i, totalNumber, limit);
      WalkStateSubset(v, ps, i, totalNumber, limit);
      DoublyEnds(v, e, ps, V());
      FreePosition(d.dindirect, v, base + ps, Dind);
      ghost var w := V();
      d := d.(dindirect := 0);
      FreedAtFields(v, w, V(), base + Doubly(v, e, ps));
    }

    /** Frees the blocks of the inode. All of them are freed exactly when the guard holds. */
    method FreeBlocks() returns (ret: int)
      requires sb.Valid() && Good(V()) && ThirdsUsed(V()) && 0 <= d.size <= MAX_BYTES
      modifies this, sb, sb.blockFreemap, sb.blockFreemap.v
      ensures sb.Valid() && sb.sb.maxFsBlocks == old(sb.sb.maxFsBlocks)
      ensures ret == 0 && dirty && d.size == 0 && d.indirect == 0
      ensures d.blockCount >= 0 && (d.blockCount == 0 <==> FreeGuard(old(V())))
      ensures FreeGuard(old(V())) ==> sb.alloc == Others(old(V())) && Good(V()) && Tree(sb.disk, d) == {}
      ensures Others(old(V())) <= sb.alloc
      ensures forall b | DataBlock(b) && b in Others(old(V())) :: sb.disk[b] == old(sb.disk)[b]
    {
      hide SuperBlock.Valid, FreedAt, Good, Below, UpToIndirect, Doubly, ThirdsUsed, Others, FreeGuard, Tree, At;
      ghost var v := V();
      IndirectSign(v);
      var e := DivRoundUp(d.size, BLOCK_SIZE);
      FreeDirect(e);
      FreeIndirect(e, v);
      ghost var ps := {};
      NothingBelow(v, e);
      if e - FIRST_DOUBLE >= 0 && d.dindirect > 0 {
        ps := FreeDoublyIndirect(e, v);
      }
      ghost var w := V();
      d := d.(size := 0);
      dirty := true;
      FreedAtFields(v, w, V(), UpToIndirect(v, e) + Doubly(v, e, ps));
      FreedOutcome(v, V(), e, ps);
      EmptyAfter(v, V(), e, UpToIndirect(v, e) + Doubly(v, e, ps));
      return 0;
    }
  }
}
