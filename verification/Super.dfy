/** The super block: counters and freemaps in memory and, written through, on the device (fs/super.c). */
module Supers {
  import opened Layout
  import opened Codec
  import opened Bitmaps

  const NR_INODE_BITS := BLOCK_SIZE * INODE_FREEMAP_SIZE * BITS_PER_WORD
  const NR_BLOCK_BITS := BLOCK_SIZE * BLOCK_FREEMAP_SIZE * BITS_PER_WORD
  const INODE_FREEMAP_START := SUPER_BLOCK_SIZE
  const BLOCK_FREEMAP_START := INODE_FREEMAP_START + INODE_FREEMAP_SIZE
  const INODE_BLOCKS_START := BLOCK_FREEMAP_START + BLOCK_FREEMAP_SIZE
  const DATA_START := INODE_BLOCKS_START + NR_INODE_BLOCKS
  const DISK_BLOCKS := DATA_START + NR_BLOCK_BITS

  /** The device: one block for every block number the freemap can name. */
  type Disk = d: seq<Block> | |d| == DISK_BLOCKS witness seq<Block>(DISK_BLOCKS, _ => ZERO_BLOCK)

  /** struct dsuper_block */
  datatype DSuper = DSuper(inodeFreemapStart: nat, blockFreemapStart: nat, inodeBlocksStart: nat,
                           dataBlocksStart: nat, usedInodeCount: nat, usedBlockCount: nat, maxFsBlocks: nat)

  ghost predicate FieldsFit(s: DSuper)
  {
    && (forall v | v in SuperInts(s) :: v < 2 * INT_LIMIT)
    && s.maxFsBlocks < Pow256(8)
  }

  function SuperInts(s: DSuper): (r: seq<nat>)
    ensures |r| == 6
  {
    [s.inodeFreemapStart, s.blockFreemapStart, s.inodeBlocksStart, s.dataBlocksStart,
     s.usedInodeCount, s.usedBlockCount]
  }

  function EncodeSuper(s: DSuper): Block
  {
    Put(PutInts(ZERO_BLOCK, 0, SuperInts(s)), 24, 8, s.maxFsBlocks)
  }

  function DecodeSuper(b: Block): DSuper
  {
    var f := GetInts(b, 0, 6);
    DSuper(f[0], f[1], f[2], f[3], f[4], f[5], Get(b, 24, 8))
  }

  lemma SuperRoundTrip(s: DSuper)
    requires FieldsFit(s)
    ensures DecodeSuper(EncodeSuper(s)) == s
  {
    var b := PutInts(ZERO_BLOCK, 0, SuperInts(s));
    GetPutInts(ZERO_BLOCK, 0, SuperInts(s));
    GetPut(b, 24, 8, s.maxFsBlocks);
    GetIntsDependsOnBytes(EncodeSuper(s), b, 0, 6);
  }

  // ---- freemap blocks

  /** Block `nr` of a freemap: `freemap + (nr * BLOCK_SIZE)`. */
  function Chunk(v: seq<bv8>, nr: nat): Block
    requires (nr + 1) * BLOCK_SIZE <= |v|
  {
    seq(BLOCK_SIZE, j requires 0 <= j < BLOCK_SIZE => v[nr * BLOCK_SIZE + j] as byte)
  }

  /** Changing one word changes only the freemap block that holds it. */
  lemma OnlyOneChunkChanges(v: seq<bv8>, w: seq<bv8>, ix: nat, nr: nat)
    requires ix < |v| == |w| && (nr + 1) * BLOCK_SIZE <= |v|
    requires forall i | 0 <= i < |v| && i != ix :: v[i] == w[i]
    requires nr != ix / BLOCK_SIZE
    ensures Chunk(v, nr) == Chunk(w, nr)
  {
  }

  /** A freemap block read back gives the words it was written from. */
  lemma ChunkRoundTrip(v: seq<bv8>, i: nat)
    requires i < |v| && (i / BLOCK_SIZE + 1) * BLOCK_SIZE <= |v|
    ensures Chunk(v, i / BLOCK_SIZE)[i % BLOCK_SIZE] as bv8 == v[i]
  {
    assert i / BLOCK_SIZE * BLOCK_SIZE + i % BLOCK_SIZE == i;
  }

  /** The blocks from `start` hold the words of a freemap. */
  ghost predicate OnDevice(d: Disk, start: nat, size: nat, v: seq<bv8>)
    requires start + size <= DISK_BLOCKS && |v| == size * BLOCK_SIZE
  {
    forall i: nat | i < size :: d[start + i] == Chunk(v, i)
  }

  /** Writing the one block that holds the changed word keeps device and memory equal. */
  lemma WriteOneChunk(d: Disk, start: nat, size: nat, v: seq<bv8>, ix: nat, x: bv8)
    requires start + size <= DISK_BLOCKS && ix < |v| == size * BLOCK_SIZE
    requires OnDevice(d, start, size, v)
    ensures var w := v[ix := x];
            var nr := ix / BLOCK_SIZE;
            nr < size && OnDevice(d[start + nr := Chunk(w, nr)], start, size, w)
  {
    var w, nr := v[ix := x], ix / BLOCK_SIZE;
    var e := d[start + nr := Chunk(w, nr)];
    forall i: nat | i < size ensures e[start + i] == Chunk(w, i) {
      if i != nr {
        OnlyOneChunkChanges(v, w, ix, i);
      }
    }
  }

  /** The words of a freemap of `size` blocks, as they are on the device from `start`. */
  function WordsOn(d: Disk, start: nat, size: nat): (v: seq<bv8>)
    requires start + size <= DISK_BLOCKS
    ensures |v| == size * BLOCK_SIZE
  {
    seq(size * BLOCK_SIZE, i requires 0 <= i < size * BLOCK_SIZE => d[start + i / BLOCK_SIZE][i % BLOCK_SIZE] as bv8)
  }

  /** A freemap read back from where it was written is the same. */
  lemma ReadBack(d: Disk, start: nat, size: nat, v: seq<bv8>)
    requires start + size <= DISK_BLOCKS && |v| == size * BLOCK_SIZE && OnDevice(d, start, size, v)
    ensures WordsOn(d, start, size) == v
  {
    forall i: nat | i < |v| ensures WordsOn(d, start, size)[i] == v[i] {
      ChunkRoundTrip(v, i);
    }
  }

  lemma ZeroMap(v: seq<bv8>, size: nat)
    requires |v| == size * BLOCK_SIZE && forall i | 0 <= i < |v| :: v[i] == 0
    ensures forall i: nat | i < size :: Chunk(v, i) == ZERO_BLOCK
  {
  }

  /** Writing the freemap blocks that are there already changes nothing. */
  lemma RewriteIsNoop(d: Disk, start: nat, size: nat, v: seq<bv8>, i: nat)
    requires start + size <= DISK_BLOCKS && |v| == size * BLOCK_SIZE && OnDevice(d, start, size, v) && i < size
    ensures d[start + i := Chunk(v, i)] == d
  {
  }

  // ---- the data region

  ghost predicate DataBlock(b: int)
  {
    DATA_START <= b < DISK_BLOCKS
  }

  ghost predicate SameData(d: Disk, e: Disk)
  {
    forall b | DataBlock(b) :: d[b] == e[b]
  }

  /** The block numbers `alloc` are those of the freemap bits, counted from the first data block. */
  ghost predicate Names(bits: set<nat>, alloc: set<int>)
  {
    forall b :: b in alloc <==> DataBlock(b) && b - DATA_START in bits
  }

  lemma NamesTaken(bits: set<nat>, alloc: set<int>, k: nat)
    requires Names(bits, alloc) && LeastFree(bits, NR_BLOCK_BITS, k)
    ensures var b := DATA_START + k;
            && DataBlock(b) && b !in alloc && Names(bits + {k}, alloc + {b})
            && |bits + {k}| == |bits| + 1 && |alloc + {b}| == |alloc| + 1
            && LeastBlock(alloc, b)
  {
  }

  lemma NamesReleased(bits: set<nat>, alloc: set<int>, b: int)
    requires Names(bits, alloc) && b in alloc
    ensures b - DATA_START in bits && DataBlock(b)
    ensures var k := b - DATA_START;
            Names(bits - {k}, alloc - {b}) && |bits - {k}| == |bits| - 1 && |alloc - {b}| == |alloc| - 1
  {
  }

  lemma NamesUnique(bits: set<nat>, alloc: set<int>, alloc2: set<int>)
    requires Names(bits, alloc) && Names(bits, alloc2)
    ensures alloc == alloc2
  {
    forall b ensures b in alloc <==> b in alloc2 {}
  }

  lemma OnDeviceBeside(d: Disk, start: nat, size: nat, v: seq<bv8>, b: nat, x: Block)
    requires start + size <= DISK_BLOCKS && |v| == size * BLOCK_SIZE && OnDevice(d, start, size, v)
    requires b < DISK_BLOCKS && !(start <= b < start + size)
    ensures OnDevice(d[b := x], start, size, v)
  {
  }

  lemma OnDeviceSame(d: Disk, e: Disk, start: nat, size: nat, v: seq<bv8>)
    requires start + size <= DISK_BLOCKS && |v| == size * BLOCK_SIZE && OnDevice(d, start, size, v)
    requires forall b | start <= b < start + size :: e[b] == d[b]
    ensures OnDevice(e, start, size, v)
  {
  }

  /** The freemap block that holds a bit. */
  lemma BlockOfBit(k: nat)
    ensures k / (BLOCK_SIZE * BITS_PER_WORD) == k / BITS_PER_WORD / BLOCK_SIZE
  {
  }

  lemma IsLeast(bits: set<nat>, nbits: nat, k: nat)
    requires LeastFree(bits, nbits, k)
    ensures k < nbits && k !in bits
  {
  }

  /** Setting or clearing one bit changes just the word that holds it. */
  lemma WordChanged(v: seq<bv8>, w: seq<bv8>, k: nat)
    requires k < BITS_PER_WORD * |v| && (w == WithBit(v, k) || w == WithoutBit(v, k))
    ensures var ix := k / BITS_PER_WORD; w == v[ix := w[ix]]
  {
  }

  ghost predicate LeastBlock(alloc: set<int>, b: int)
  {
    forall c | DATA_START <= c < b :: c in alloc
  }

  class SuperBlock {
    var disk: Disk
    var sb: DSuper
    const inodeFreemap: Bitmap
    const blockFreemap: Bitmap
    ghost var alloc: set<int>  // the block numbers in use

    ghost predicate Valid()
      reads this, inodeFreemap, inodeFreemap.v, blockFreemap, blockFreemap.v
    {
      && Geometry()
      && Counted()
      && disk[0] == EncodeSuper(sb)
      && InodeMapWritten()
      && BlockMapWritten()
      && FreeBlocksAreZero()
    }

    ghost predicate Geometry()
      reads this, inodeFreemap, inodeFreemap.v, blockFreemap, blockFreemap.v
    {
      && inodeFreemap.v != blockFreemap.v
      && inodeFreemap.Valid() && inodeFreemap.nbits == NR_INODE_BITS
      && blockFreemap.Valid() && blockFreemap.nbits == NR_BLOCK_BITS
      && sb.inodeFreemapStart == INODE_FREEMAP_START && sb.blockFreemapStart == BLOCK_FREEMAP_START
      && sb.inodeBlocksStart == INODE_BLOCKS_START && sb.dataBlocksStart == DATA_START
      && sb.maxFsBlocks < Pow256(8)
    }

    ghost predicate Counted()
      requires Geometry()
      reads this, inodeFreemap, inodeFreemap.v, blockFreemap, blockFreemap.v
    {
      && Names(blockFreemap.bits, alloc)
      && sb.usedBlockCount == |alloc| == |blockFreemap.bits|
      && sb.usedInodeCount == |inodeFreemap.bits|
    }

    ghost predicate InodeMapWritten()
      requires Geometry()
      reads this, inodeFreemap, inodeFreemap.v, blockFreemap, blockFreemap.v
    {
      OnDevice(disk, INODE_FREEMAP_START, INODE_FREEMAP_SIZE, inodeFreemap.v[..])
    }

    ghost predicate BlockMapWritten()
      requires Geometry()
      reads this, inodeFreemap, inodeFreemap.v, blockFreemap, blockFreemap.v
    {
      OnDevice(disk, BLOCK_FREEMAP_START, BLOCK_FREEMAP_SIZE, blockFreemap.v[..])
    }

    ghost predicate FreeBlocksAreZero()
      reads this
    {
      forall b | DataBlock(b) && b !in alloc :: disk[b] == ZERO_BLOCK
    }

    /** How many more blocks can be allocated. */
    ghost function Room(): nat
      reads this
    {
      var limit := if sb.maxFsBlocks < NR_BLOCK_BITS then sb.maxFsBlocks else NR_BLOCK_BITS;
      if sb.usedBlockCount < limit then limit - sb.usedBlockCount else 0
    }

    /** testfs_make_super_block and the zeroing calls, followed by mounting: an empty file system. */
    constructor Format(maxFsBlocks: nat)
      requires maxFsBlocks < Pow256(8)
      ensures Valid() && alloc == {} && inodeFreemap.bits == {} && sb.maxFsBlocks == maxFsBlocks
      ensures fresh(inodeFreemap) && fresh(inodeFreemap.v) && fresh(blockFreemap) && fresh(blockFreemap.v)
    {
      inodeFreemap := new Bitmap(NR_INODE_BITS);
      blockFreemap := new Bitmap(NR_BLOCK_BITS);
      sb := DSuper(INODE_FREEMAP_START, BLOCK_FREEMAP_START, INODE_BLOCKS_START, DATA_START, 0, 0, maxFsBlocks);
      disk := seq<Block>(DISK_BLOCKS, _ => ZERO_BLOCK);
      alloc := {};
      new;
      ZeroMap(blockFreemap.v[..], BLOCK_FREEMAP_SIZE);
      ZeroMap(inodeFreemap.v[..], INODE_FREEMAP_SIZE);
      disk := disk[0 := EncodeSuper(sb)];
    }

    /** testfs_init_super_block: everything is read from the device, the freemaps from where the super block says. */
    constructor Mount(device: Disk)
      requires var s := DecodeSuper(device[0]);
               && s.inodeFreemapStart + INODE_FREEMAP_SIZE <= DISK_BLOCKS
               && s.blockFreemapStart + BLOCK_FREEMAP_SIZE <= DISK_BLOCKS
      ensures disk == device && sb == DecodeSuper(device[0])
      ensures fresh(inodeFreemap) && fresh(inodeFreemap.v) && fresh(blockFreemap) && fresh(blockFreemap.v)
      ensures inodeFreemap.v != blockFreemap.v
      ensures inodeFreemap.Valid() && inodeFreemap.nbits == NR_INODE_BITS
      ensures inodeFreemap.v[..] == WordsOn(device, sb.inodeFreemapStart, INODE_FREEMAP_SIZE)
      ensures blockFreemap.Valid() && blockFreemap.nbits == NR_BLOCK_BITS
      ensures blockFreemap.v[..] == WordsOn(device, sb.blockFreemapStart, BLOCK_FREEMAP_SIZE)
      ensures Names(blockFreemap.bits, alloc)
    {
      hide DecodeSuper, WordsOn;
      inodeFreemap := new Bitmap(NR_INODE_BITS);
      blockFreemap := new Bitmap(NR_BLOCK_BITS);
      sb := DecodeSuper(device[0]);
      disk := device;
      alloc := {};
      new;
      inodeFreemap.Load(WordsOn(disk, sb.inodeFreemapStart, INODE_FREEMAP_SIZE));
      blockFreemap.Load(WordsOn(disk, sb.blockFreemapStart, BLOCK_FREEMAP_SIZE));
      alloc := set b | DATA_START <= b < DISK_BLOCKS && DataBlock(b) && b - DATA_START in blockFreemap.bits;
    }

    /** testfs_close_super_block: as everything is written through, writing it all once more changes nothing. */
    method Close()
      requires Valid()
      modifies this`disk
      ensures disk == old(disk)
    {
      WriteSuperBlock();
      var i := 0;
      while i < INODE_FREEMAP_SIZE
        invariant i <= INODE_FREEMAP_SIZE && disk == old(disk)
      {
        RewriteIsNoop(disk, INODE_FREEMAP_START, INODE_FREEMAP_SIZE, inodeFreemap.v[..], i);
        disk := disk[sb.inodeFreemapStart + i := Chunk(inodeFreemap.v[..], i)];
        i := i + 1;
      }
      i := 0;
      while i < BLOCK_FREEMAP_SIZE
        invariant i <= BLOCK_FREEMAP_SIZE && disk == old(disk)
      {
        RewriteIsNoop(disk, BLOCK_FREEMAP_START, BLOCK_FREEMAP_SIZE, blockFreemap.v[..], i);
        disk := disk[sb.blockFreemapStart + i := Chunk(blockFreemap.v[..], i)];
        i := i + 1;
      }
    }

    /** Closing and mounting again gives the same super block, the same freemaps and the same allocated blocks. */
    method Remount() returns (s: SuperBlock)
      requires Valid()
      modifies this`disk
      ensures fresh(s) && s.Valid() && s.disk == old(disk) && s.sb == sb && s.alloc == alloc
      ensures s.inodeFreemap.bits == inodeFreemap.bits && s.blockFreemap.bits == blockFreemap.bits
    {
      hide OnDevice, WordsOn, EncodeSuper, DecodeSuper, Names;
      Close();
      CountersFit();
      SuperRoundTrip(sb);
      s := new SuperBlock.Mount(disk);
      ReadBack(disk, INODE_FREEMAP_START, INODE_FREEMAP_SIZE, inodeFreemap.v[..]);
      ReadBack(disk, BLOCK_FREEMAP_START, BLOCK_FREEMAP_SIZE, blockFreemap.v[..]);
      NamesUnique(blockFreemap.bits, s.alloc, alloc);
    }

    lemma CountersFit()
      requires Geometry() && Counted()
      ensures FieldsFit(sb)
    {
      FullIffCount(inodeFreemap.v[..], NR_INODE_BITS);
      FullIffCount(blockFreemap.v[..], NR_BLOCK_BITS);
    }

    method WriteSuperBlock()
      modifies this`disk
      ensures disk == old(disk)[0 := EncodeSuper(sb)]
    {
      disk := disk[0 := EncodeSuper(sb)];
    }

    /** Everything is in order but for the copy of the super block on the device, which is written. */
    method UpdateSuperBlock()
      requires Geometry() && Counted() && InodeMapWritten() && BlockMapWritten() && FreeBlocksAreZero()
      modifies this`disk
      ensures Valid() && forall b | 0 < b < DISK_BLOCKS :: disk[b] == old(disk)[b]
    {
      hide OnDevice, Names, EncodeSuper;
      OnDeviceBeside(disk, INODE_FREEMAP_START, INODE_FREEMAP_SIZE, inodeFreemap.v[..], 0, EncodeSuper(sb));
      OnDeviceBeside(disk, BLOCK_FREEMAP_START, BLOCK_FREEMAP_SIZE, blockFreemap.v[..], 0, EncodeSuper(sb));
      WriteSuperBlock();
    }

    method WriteInodeFreemap(inodeNr: nat)
      requires Geometry() && inodeNr < NR_INODE_BITS
      modifies this`disk
      ensures disk == old(disk)[INODE_FREEMAP_START := Chunk(inodeFreemap.v[..], 0)]
    {
      var nr := inodeNr / (BLOCK_SIZE * BITS_PER_WORD);
      disk := disk[sb.inodeFreemapStart + nr := Chunk(inodeFreemap.v[..], nr)];
    }

    /** Takes the least free inode number; fails, changing nothing, exactly when all are in use. */
    method GetInodeFreemap() returns (ret: int)
      requires Valid()
      modifies this, inodeFreemap, inodeFreemap.v
      ensures Valid() && alloc == old(alloc) && SameData(old(disk), disk) && Room() == old(Room())
      ensures forall b | INODE_BLOCKS_START <= b < DISK_BLOCKS :: disk[b] == old(disk)[b]
      ensures |old(inodeFreemap.bits)| < NR_INODE_BITS ==>
                LeastFree(old(inodeFreemap.bits), NR_INODE_BITS, ret) &&
                inodeFreemap.bits == old(inodeFreemap.bits) + {ret}
      ensures |old(inodeFreemap.bits)| >= NR_INODE_BITS ==>
                ret == -ENOSPC && inodeFreemap.bits == old(inodeFreemap.bits) && disk == old(disk) && sb == old(sb)
    {
      hide OnDevice, Chunk, Names, EncodeSuper, LeastFree;
      ret := TakeInodeNumber();
      if ret < 0 {
        return;
      }
      sb := sb.(usedInodeCount := sb.usedInodeCount + 1);
      UpdateSuperBlock();
    }

    /** The bit of the least free inode number, in memory and on the device. */
    method TakeInodeNumber() returns (ret: int)
      requires Geometry() && InodeMapWritten() && BlockMapWritten()
      modifies this`disk, inodeFreemap, inodeFreemap.v
      ensures Geometry() && InodeMapWritten() && BlockMapWritten()
      ensures forall b | 0 <= b < DISK_BLOCKS && b != INODE_FREEMAP_START :: disk[b] == old(disk)[b]
      ensures |old(inodeFreemap.bits)| < NR_INODE_BITS ==>
                && LeastFree(old(inodeFreemap.bits), NR_INODE_BITS, ret)
                && ret >= 0 && ret !in old(inodeFreemap.bits) && inodeFreemap.bits == old(inodeFreemap.bits) + {ret}
      ensures |old(inodeFreemap.bits)| >= NR_INODE_BITS ==>
                ret == -ENOSPC && disk == old(disk) && inodeFreemap.bits == old(inodeFreemap.bits)
    {
      hide OnDevice, Chunk, LeastFree, Padded, BitSet, WithBit;
      ghost var v0, d0 := inodeFreemap.v[..], disk;
      var r, index := inodeFreemap.Alloc();
      if r < 0 {
        assert inodeFreemap.v[..] == v0;
        return r;
      }
      IsLeast(old(inodeFreemap.bits), NR_INODE_BITS, index);
      WordChanged(v0, inodeFreemap.v[..], index);
      WriteOneChunk(disk, INODE_FREEMAP_START, INODE_FREEMAP_SIZE, v0, index / BITS_PER_WORD,
                    inodeFreemap.v[..][index / BITS_PER_WORD]);
      WriteInodeFreemap(index);
      OnDeviceSame(d0, disk, BLOCK_FREEMAP_START, BLOCK_FREEMAP_SIZE, blockFreemap.v[..]);
      return index;
    }

    /** The bit of an inode number is cleared, in memory and on the device. */
    method ReleaseInodeNumber(inodeNr: nat)
      requires Geometry() && InodeMapWritten() && BlockMapWritten() && inodeNr in inodeFreemap.bits
      modifies this`disk, inodeFreemap, inodeFreemap.v
      ensures Geometry() && InodeMapWritten() && BlockMapWritten()
      ensures forall b | 0 <= b < DISK_BLOCKS && b != INODE_FREEMAP_START :: disk[b] == old(disk)[b]
      ensures inodeFreemap.bits == old(inodeFreemap.bits) - {inodeNr}
    {
      hide OnDevice, Chunk, Padded, WithoutBit;
      ghost var v0, d0 := inodeFreemap.v[..], disk;
      inodeFreemap.Unmark(inodeNr);
      WordChanged(v0, inodeFreemap.v[..], inodeNr);
      WriteOneChunk(disk, INODE_FREEMAP_START, INODE_FREEMAP_SIZE, v0, inodeNr / BITS_PER_WORD,
                    inodeFreemap.v[..][inodeNr / BITS_PER_WORD]);
      WriteInodeFreemap(inodeNr);
      OnDeviceSame(d0, disk, BLOCK_FREEMAP_START, BLOCK_FREEMAP_SIZE, blockFreemap.v[..]);
    }

    /** Releases an inode number. */
    method PutInodeFreemap(inodeNr: nat)
      requires Valid() && inodeNr in inodeFreemap.bits
      modifies this, inodeFreemap, inodeFreemap.v
      ensures Valid() && alloc == old(alloc) && SameData(old(disk), disk) && Room() == old(Room())
      ensures forall b | INODE_BLOCKS_START <= b < DISK_BLOCKS :: disk[b] == old(disk)[b]
      ensures inodeFreemap.bits == old(inodeFreemap.bits) - {inodeNr}
    {
      hide OnDevice, Chunk, Names, EncodeSuper;
      ReleaseInodeNumber(inodeNr);
      sb := sb.(usedInodeCount := sb.usedInodeCount - 1);
      UpdateSuperBlock();
    }

    method WriteBlockFreemap(blockNr: nat)
      requires Geometry() && blockNr < NR_BLOCK_BITS
      modifies this`disk
      ensures var nr := blockNr / (BLOCK_SIZE * BITS_PER_WORD);
              disk == old(disk)[BLOCK_FREEMAP_START + nr := Chunk(blockFreemap.v[..], nr)]
    {
      var nr := blockNr / (BLOCK_SIZE * BITS_PER_WORD);
      disk := disk[sb.blockFreemapStart + nr := Chunk(blockFreemap.v[..], nr)];
    }

    /** Returns a free block number, relative to the data blocks, or a negative value. */
    method GetBlockFreemap() returns (ret: int)
      requires Geometry() && BlockMapWritten()
      modifies this`disk, blockFreemap, blockFreemap.v
      ensures Geometry() && BlockMapWritten()
      ensures SameOutsideBlockMap(old(disk), disk)
      ensures |old(blockFreemap.bits)| < NR_BLOCK_BITS ==>
                ret >= 0 && LeastFree(old(blockFreemap.bits), NR_BLOCK_BITS, ret) &&
                blockFreemap.bits == old(blockFreemap.bits) + {ret}
      ensures |old(blockFreemap.bits)| >= NR_BLOCK_BITS ==>
                ret == -ENOSPC && disk == old(disk) && blockFreemap.v[..] == old(blockFreemap.v[..])
    {
      hide OnDevice, Chunk, LeastFree, Padded, BitSet, WithBit;
      ghost var v0 := blockFreemap.v[..];
      var r, index := blockFreemap.Alloc();
      if r < 0 {
        return r;
      }
      IsLeast(old(blockFreemap.bits), NR_BLOCK_BITS, index);
      WordChanged(v0, blockFreemap.v[..], index);
      WriteOneChunk(disk, BLOCK_FREEMAP_START, BLOCK_FREEMAP_SIZE, v0, index / BITS_PER_WORD,
                    blockFreemap.v[..][index / BITS_PER_WORD]);
      BlockOfBit(index);
      WriteBlockFreemap(index);
      return index;
    }

    /** Releases a block number, relative to the data blocks. */
    method PutBlockFreemap(blockNr: nat)
      requires Geometry() && BlockMapWritten() && blockNr in blockFreemap.bits
      modifies this`disk, blockFreemap, blockFreemap.v
      ensures Geometry() && BlockMapWritten()
      ensures SameOutsideBlockMap(old(disk), disk)
      ensures blockFreemap.bits == old(blockFreemap.bits) - {blockNr}
    {
      hide OnDevice, Chunk, Padded, WithoutBit;
      ghost var v0 := blockFreemap.v[..];
      blockFreemap.Unmark(blockNr);
      WordChanged(v0, blockFreemap.v[..], blockNr);
      WriteOneChunk(disk, BLOCK_FREEMAP_START, BLOCK_FREEMAP_SIZE, v0, blockNr / BITS_PER_WORD,
                    blockFreemap.v[..][blockNr / BITS_PER_WORD]);
      BlockOfBit(blockNr);
      WriteBlockFreemap(blockNr);
    }

    /** Takes the least free block; fails, changing nothing, exactly when there is no room. */
    method AllocBlock() returns (ret: int)
      requires Valid()
      modifies this, blockFreemap, blockFreemap.v
      ensures Valid()
      ensures old(Room()) > 0 ==> Took(old(disk), old(sb), old(alloc), ret)
      ensures old(Room()) <= 0 ==> ret == -ENOSPC && disk == old(disk) && sb == old(sb) && alloc == old(alloc)
      ensures inodeFreemap.bits == old(inodeFreemap.bits)
      ensures forall b | INODE_BLOCKS_START <= b < DATA_START :: disk[b] == old(disk)[b]
    {
      hide OnDevice, Chunk, Names, EncodeSuper, LeastBlock, LeastFree, Padded, BitSet;
      ghost var d0 := disk;
      if sb.usedBlockCount >= sb.maxFsBlocks {
        return -ENOSPC;
      }
      var phyBlockNr := GetBlockFreemap();
      if phyBlockNr < 0 {
        return phyBlockNr;
      }
      NamesTaken(old(blockFreemap.bits), alloc, phyBlockNr);
      sb := sb.(usedBlockCount := sb.usedBlockCount + 1);
      alloc := alloc + {DATA_START + phyBlockNr};
      OnDeviceSame(d0, disk, INODE_FREEMAP_START, INODE_FREEMAP_SIZE, inodeFreemap.v[..]);
      UpdateSuperBlock();
      return sb.dataBlocksStart + phyBlockNr;
    }

    /** After allocating `b`: it was the least free block, and only the count and the freemap changed. */
    ghost predicate Took(disk0: Disk, sb0: DSuper, alloc0: set<int>, b: int)
      reads this
    {
      && DataBlock(b) && b !in alloc0 && alloc == alloc0 + {b}
      && LeastBlock(alloc0, b)
      && SameData(disk0, disk)
      && sb == sb0.(usedBlockCount := sb0.usedBlockCount + 1)
    }

    /** Zeroes a block and releases it. */
    method FreeBlock(blockNr: int)
      requires Valid() && blockNr in alloc
      modifies this, blockFreemap, blockFreemap.v
      ensures Valid() && alloc == old(alloc) - {blockNr}
      ensures disk[blockNr] == ZERO_BLOCK
      ensures forall b | DataBlock(b) && b != blockNr :: disk[b] == old(disk[b])
      ensures sb == old(sb).(usedBlockCount := old(sb).usedBlockCount - 1)
      ensures inodeFreemap.bits == old(inodeFreemap.bits)
      ensures forall b | INODE_BLOCKS_START <= b < DATA_START :: disk[b] == old(disk)[b]
    {
      hide OnDevice, Chunk, Names, EncodeSuper, Padded, BitSet;
      ghost var d0 := disk;
      NamesReleased(blockFreemap.bits, alloc, blockNr);
      OnDeviceBeside(disk, BLOCK_FREEMAP_START, BLOCK_FREEMAP_SIZE, blockFreemap.v[..], blockNr, ZERO_BLOCK);
      disk := disk[blockNr := ZERO_BLOCK];
      PutBlockFreemap(blockNr - sb.dataBlocksStart);
      alloc := alloc - {blockNr};
      sb := sb.(usedBlockCount := sb.usedBlockCount - 1);
      OnDeviceSame(d0, disk, INODE_FREEMAP_START, INODE_FREEMAP_SIZE, inodeFreemap.v[..]);
      UpdateSuperBlock();
    }

    /** write_blocks of one block of the inode table. */
    method WriteInodeBlock(block: Block, nr: nat)
      requires Valid() && nr < NR_INODE_BLOCKS
      modifies this`disk
      ensures Valid() && disk == old(disk)[INODE_BLOCKS_START + nr := block]
    {
      disk := disk[INODE_BLOCKS_START + nr := block];
    }

    /** write_blocks of one block in use. */
    method WriteBlock(block: Block, blockNr: int)
      requires Valid() && blockNr in alloc
      modifies this`disk
      ensures Valid() && disk == old(disk)[blockNr := block]
    {
      disk := disk[blockNr := block];
    }
  }

  /** How many blocks can be had with this many in use. */
  function RoomFor(max: nat, used: nat): nat
  {
    var limit := if max < NR_BLOCK_BITS then max else NR_BLOCK_BITS;
    if used < limit then limit - used else 0
  }

  lemma RoomIs(sb: SuperBlock)
    requires sb.Valid()
    ensures sb.Room() == RoomFor(sb.sb.maxFsBlocks, |sb.alloc|)
  {
  }

  /** As many bits as there are inode numbers: every number is taken. */
  lemma FullInodeMap(sb: SuperBlock)
    requires sb.Valid() && |sb.inodeFreemap.bits| >= NR_INODE_BITS
    ensures forall nr: nat | nr < NR_INODE_BITS :: nr in sb.inodeFreemap.bits
  {
    FullIffCount(sb.inodeFreemap.v[..], NR_INODE_BITS);
  }

  ghost predicate SameOutsideBlockMap(d: Disk, e: Disk)
  {
    forall b | 0 <= b < DISK_BLOCKS && !(BLOCK_FREEMAP_START <= b < INODE_BLOCKS_START) :: d[b] == e[b]
  }
}
