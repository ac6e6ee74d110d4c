/**
 Inodes in memory: hashed by number, counted, written back when dirty (fs/inode.c, fs/list.h). Whatever is cached,
 every inode number stands for one inode, and that is what the device will hold.
 */
module InodeCaches {
  import opened Layout
  import opened Codec
  import opened Bitmaps
  import opened Supers
  import opened BlockMap
  import opened InodeTables

  const HASH_SIZE := 256

  /** hash_int of fs/list.h for 8 bits: the upper bits of a 32-bit product. */
  function Hash(nr: nat): (h: nat)
    ensures h < HASH_SIZE
  {
    nr * 0x9e370001 % 0x1_0000_0000 / 0x100_0000
  }

  /** struct inode, but for its links. */
  class Incore {
    const nr: nat
    var d: Dinode
    var dirty: bool
    var count: int

    constructor (nr: nat, d: Dinode)
      ensures this.nr == nr && this.d == d && !dirty && count == 1
    {
      this.nr, this.d, dirty, count := nr, d, false, 1;
    }
  }

  /** A chain without one of its members (hlist_del). */
  function Without<T(==)>(chain: seq<T>, x: T): seq<T>
  {
    if chain == [] then [] else (if chain[0] == x then [] else [chain[0]]) + Without(chain[1..], x)
  }

  lemma {:induction false} WithoutMembers<T>(chain: seq<T>, x: T, y: T)
    ensures y in Without(chain, x) <==> y in chain && y != x
  {
    if chain != [] {
      WithoutMembers(chain[1..], x, y);
      assert chain == [chain[0]] + chain[1..];
    }
  }

  /** No number of the inode table is left. */
  ghost predicate AllTaken(bits: set<nat>)
  {
    forall nr: nat | nr < NR_INODES :: nr in bits
  }

  lemma KindFits(kind: int)
    requires kind == I_FILE || kind == I_DIR
    ensures Fits(ZERO_DINODE.(kind := kind))
  {
    assert Pow256(8) > 0;
  }

  class InodeCache {
    const sb: SuperBlock
    var table: seq<seq<Incore>>
    ghost var nodes: map<nat, Incore>  // the cached inodes by number

    ghost predicate Chained()
      reads this, nodes.Values`count
    {
      && |table| == HASH_SIZE
      && (forall nr | nr in nodes :: nodes[nr].nr == nr < NR_INODES && nodes[nr] in table[Hash(nr)] && nodes[nr].count > 0)
      && (forall b, x {:trigger x in table[b]} | 0 <= b < HASH_SIZE && x in table[b] ::
            x.nr in nodes && nodes[x.nr] == x && Hash(x.nr) == b)
    }

    /** Every inode fits its slot, and one that is not dirty is what its slot says. */
    ghost predicate Coherent()
      reads this, nodes.Values`d, nodes.Values`dirty, sb`disk
    {
      && (forall nr | nr in nodes && nr < NR_INODES ::
            Fits(nodes[nr].d) && (!nodes[nr].dirty ==> nodes[nr].d == Decode(Slot(sb.disk, nr))))
    }

    ghost predicate Valid()
      reads this, nodes.Values, sb, sb.inodeFreemap, sb.inodeFreemap.v, sb.blockFreemap, sb.blockFreemap.v
    {
      Chained() && Coherent() && sb.Valid()
    }

    /** What inode number `nr` stands for: the inode in memory, or else what its slot says. */
    ghost function Of(nr: nat): Dinode
      requires nr < NR_INODES
      reads this, nodes.Values`d, sb`disk
    {
      if nr in nodes then nodes[nr].d else Decode(Slot(sb.disk, nr))
    }

    /** How many uses of an inode number have not been put back. */
    ghost function Count(nr: nat): int
      reads this, nodes.Values`count
    {
      if nr in nodes then nodes[nr].count else 0
    }

    /** inode_hash_init */
    constructor (sb: SuperBlock)
      requires sb.Valid()
      ensures this.sb == sb && Valid() && nodes == map[]
      ensures (forall b | INODE_BLOCKS_START <= b < DATA_START :: sb.disk[b] == ZERO_BLOCK) ==> FreeIsZero()
    {
      this.sb := sb;
      table := seq(HASH_SIZE, _ => []);
      nodes := map[];
      new;
      ZeroTable(sb.disk);
    }

    /** Walks one chain. */
    method Find(nr: nat) returns (r: Incore?)
      requires Chained() && nr < NR_INODES
      ensures if nr in nodes then r == nodes[nr] else r == null
    {
      var chain := table[Hash(nr)];
      var i := 0;
      while i < |chain|
        invariant i <= |chain| && forall j | 0 <= j < i :: chain[j].nr != nr
      {
        assert chain[i] in table[Hash(nr)];
        if chain[i].nr == nr {
          return chain[i];
        }
        i := i + 1;
      }
      return null;
    }

    /** testfs_get_inode: one inode in memory for every number, read from its slot if it was not there. */
    method Get(nr: nat) returns (x: Incore)
      requires Valid() && nr < NR_INODES
      modifies this`table, this`nodes, nodes.Values
      ensures Valid() && nr in nodes && x == nodes[nr] && x.nr == nr
      ensures if nr in old(nodes) then x == old(nodes[nr]) else fresh(x)
      ensures nodes == old(nodes)[nr := x] && forall m: nat | m < NR_INODES :: Of(m) == old(Of(m))
      ensures x.d == old(Of(nr)) && x.dirty == (nr in old(nodes) && old(nodes[nr].dirty))
      ensures forall m | m in nodes :: Count(m) == old(Count(m)) + if m == nr then 1 else 0
      ensures forall m: nat | m in old(nodes) && m != nr :: nodes[m].dirty == old(nodes[m].dirty)
    {
      hide SuperBlock.Valid, Decode, Slot, Fits, Hash;
      var r := Find(nr);
      if r != null {
        x := r;
        x.count := x.count + 1;
        return;
      }
      x := Load(nr);
    }

    method Load(nr: nat) returns (x: Incore)
      requires Valid() && nr < NR_INODES && nr !in nodes
      modifies this`table, this`nodes
      ensures Valid() && nr in nodes && x == nodes[nr] && fresh(x)
      ensures nodes == old(nodes)[nr := x] && forall m: nat | m < NR_INODES :: Of(m) == old(Of(m))
      ensures x.d == old(Of(nr)) && !x.dirty && x.count == 1
    {
      hide SuperBlock.Valid, Decode, Slot, Fits, Hash, OffsetOf;
      var block := sb.disk[INODE_BLOCKS_START + BlockOf(nr)];
      var bytes := block[OffsetOf(nr)..OffsetOf(nr) + DINODE_SIZE];
      SlotIs(sb.disk, nr);
      DecodeFits(bytes);
      x := new Incore(nr, Decode(bytes));
      table := table[Hash(nr) := [x] + table[Hash(nr)]];
      nodes := nodes[nr := x];
    }

    /** `x` is the inode in memory of its number. */
    ghost predicate Cached(x: Incore)
      reads this
    {
      x.nr in nodes && nodes[x.nr] == x && x.nr < NR_INODES
    }

    lemma NumbersApart(x: Incore)
      requires Chained() && Cached(x)
      ensures forall nr | nr in nodes && nr != x.nr :: nodes[nr] != x
    {
    }

    /** testfs_sync_inode: the slot of the inode, and nothing else on the device, becomes what is in memory. */
    method Sync(x: Incore)
      requires Valid() && Cached(x)
      modifies x`dirty, sb`disk
      ensures Valid() && !x.dirty && Decode(Slot(sb.disk, x.nr)) == x.d
      ensures forall m: nat | m < NR_INODES :: Of(m) == old(Of(m))
      ensures forall m: nat | m < NR_INODES && m != x.nr :: Slot(sb.disk, m) == old(Slot(sb.disk, m))
      ensures forall b | 0 <= b < DISK_BLOCKS && b != INODE_BLOCKS_START + BlockOf(x.nr) :: sb.disk[b] == old(sb.disk)[b]
    {
      hide SuperBlock.Valid, Decode, Slot, Fits, Hash, OffsetOf, Encode, Chained;
      if !x.dirty {
        return;
      }
      RoundTrip(x.d);
      NumbersApart(x);
      WriteSlot(x.nr, Encode(x.d));
      x.dirty := false;
    }

    /** The block of an inode is read, the inode copied into it, and the block written. */
    method WriteSlot(nr: nat, data: seq<byte>)
      requires sb.Valid() && nr < NR_INODES && |data| == DINODE_SIZE
      modifies sb`disk
      ensures sb.Valid()
      ensures forall m: nat | m < NR_INODES :: Slot(sb.disk, m) == if m == nr then data else old(Slot(sb.disk, m))
      ensures forall b | 0 <= b < DISK_BLOCKS && b != INODE_BLOCKS_START + BlockOf(nr) :: sb.disk[b] == old(sb.disk)[b]
    {
      hide SuperBlock.Valid, Slot;
      SlotWritten(sb.disk, nr, data);
      var block := sb.disk[INODE_BLOCKS_START + BlockOf(nr)];
      block := Splice(block, OffsetOf(nr), data);
      sb.WriteInodeBlock(block, BlockOf(nr));
    }

    /** testfs_put_inode: one use less; the inode leaves memory exactly with its last use. */
    method Put(x: Incore)
      requires Valid() && Cached(x) && !x.dirty
      modifies this`table, this`nodes, x`count
      ensures Valid() && nodes == if old(x.count) > 1 then old(nodes) else old(nodes) - {x.nr}
      ensures forall m: nat | m < NR_INODES :: Of(m) == old(Of(m)) && Count(m) == old(Count(m)) - if m == x.nr then 1 else 0
    {
      hide SuperBlock.Valid, Decode, Slot, Fits, Hash;
      x.count := x.count - 1;
      if x.count == 0 {
        Unhash(x);
      }
    }

    method Unhash(x: Incore)
      requires sb.Valid() && Cached(x) && Coherent() && !x.dirty && x.count == 0 && |table| == HASH_SIZE
      requires forall nr | nr in nodes :: nodes[nr].nr == nr < NR_INODES && nodes[nr] in table[Hash(nr)]
      requires forall nr | nr in nodes && nr != x.nr :: nodes[nr].count > 0
      requires forall b, y {:trigger y in table[b]} | 0 <= b < HASH_SIZE && y in table[b] ::
                 y.nr in nodes && nodes[y.nr] == y && Hash(y.nr) == b
      modifies this`table, this`nodes
      ensures Valid() && nodes == old(nodes) - {x.nr}
      ensures forall m: nat | m < NR_INODES :: Of(m) == old(Of(m))
    {
      hide SuperBlock.Valid, Decode, Slot, Fits, Hash;
      var h := Hash(x.nr);
      ghost var chain := table[h];
      table := table[h := Without(table[h], x)];
      nodes := nodes - {x.nr};
      forall y | y in chain {
        WithoutMembers(chain, x, y);
      }
      forall y | y in table[h] ensures y in chain && y != x {
        WithoutMembers(chain, x, y);
      }
    }

    /** A user of the inode changes it, and marks it. */
    method Update(x: Incore, d: Dinode)
      requires Valid() && Cached(x) && Fits(d)
      modifies x`d, x`dirty
      ensures Valid() && x.dirty
      ensures forall m: nat | m < NR_INODES :: Of(m) == if m == x.nr then d else old(Of(m))
    {
      hide SuperBlock.Valid, Decode, Slot, Fits, Hash, Chained;
      NumbersApart(x);
      x.d := d;
      x.dirty := true;
    }

    /** Free inode numbers stand for zeroed inodes. */
    ghost predicate FreeIsZero()
      reads this, nodes.Values, sb, sb.inodeFreemap
    {
      forall nr: nat | nr < NR_INODES && nr !in sb.inodeFreemap.bits :: Of(nr) == ZERO_DINODE
    }

    /** testfs_get_inode_freemap; numbers beyond the table are given back. */
    method TakeNumber() returns (ret: int)
      requires Valid()
      modifies sb, sb.inodeFreemap, sb.inodeFreemap.v
      ensures Valid() && forall m: nat | m < NR_INODES :: Of(m) == old(Of(m))
      ensures ret < 0 <==> AllTaken(old(sb.inodeFreemap.bits))
      ensures ret < 0 ==> ret == -ENOSPC && sb.inodeFreemap.bits == old(sb.inodeFreemap.bits)
      ensures ret >= 0 ==> LeastFree(old(sb.inodeFreemap.bits), NR_INODES, ret) &&
                           sb.inodeFreemap.bits == old(sb.inodeFreemap.bits) + {ret}
      ensures sb.alloc == old(sb.alloc) && SameData(old(sb.disk), sb.disk)
      ensures forall b | INODE_BLOCKS_START <= b < DISK_BLOCKS :: sb.disk[b] == old(sb.disk)[b]
    {
      hide SuperBlock.Valid, Decode, Slot, Fits, Hash, Chained;
      ghost var disk := sb.disk;
      if |sb.inodeFreemap.bits| >= NR_INODE_BITS {
        FullInodeMap(sb);
      }
      ret := sb.GetInodeFreemap();
      SameSlots(disk, sb.disk);
      if ret >= 0 && ret / INODES_PER_BLOCK >= NR_INODE_BLOCKS {
        sb.PutInodeFreemap(ret);
        SameSlots(disk, sb.disk);
        ret := -ENOSPC;
      }
    }

    /** testfs_create_inode: the least free number, an inode that is empty but for its type. */
    method Create(kind: int) returns (ret: int, x: Incore?)
      requires Valid() && FreeIsZero() && (kind == I_FILE || kind == I_DIR)
      modifies this`table, this`nodes, nodes.Values, sb, sb.inodeFreemap, sb.inodeFreemap.v
      ensures Valid() && FreeIsZero()
      ensures ret < 0 <==> AllTaken(old(sb.inodeFreemap.bits))
      ensures ret <= 0
      ensures ret < 0 ==>
                && ret == -ENOSPC && nodes == old(nodes) && sb.inodeFreemap.bits == old(sb.inodeFreemap.bits)
                && forall m: nat | m < NR_INODES :: Of(m) == old(Of(m)) && Count(m) == old(Count(m))
      ensures ret == 0 ==>
                && x != null && x.nr in nodes && nodes == old(nodes)[x.nr := x]
                && (if x.nr in old(nodes) then x == old(nodes)[x.nr] else fresh(x))
                && (forall m: nat | m < NR_INODES :: Count(m) == old(Count(m)) + if m == x.nr then 1 else 0)
                && (forall m: nat | m in old(nodes) && m != x.nr :: nodes[m].dirty == old(nodes[m].dirty))
      ensures sb.alloc == old(sb.alloc) && SameData(old(sb.disk), sb.disk)
      ensures forall b | INODE_BLOCKS_START <= b < DISK_BLOCKS :: sb.disk[b] == old(sb.disk)[b]
      ensures ret == 0 ==>
                && x != null && Cached(x) && LeastFree(old(sb.inodeFreemap.bits), NR_INODES, x.nr)
                && sb.inodeFreemap.bits == old(sb.inodeFreemap.bits) + {x.nr} && x.dirty
                && forall m: nat | m < NR_INODES :: Of(m) == if m == x.nr then ZERO_DINODE.(kind := kind) else old(Of(m))
    {
      hide SuperBlock.Valid, Decode, Slot, Fits, Hash, Chained, Coherent;
      x := null;
      ret := TakeNumber();
      if ret < 0 {
        return;
      }
      x := Get(ret);
      NumbersApart(x);
      KindFits(kind);
      Update(x, x.d.(kind := kind));
      ret := 0;
    }

    /** A new inode that is written to the device and put back, as testfs_create_file_or_dir does, stays in memory no longer. */
    method CreateAndPut(kind: int) returns (ret: int, ghost nr: nat)
      requires Valid() && FreeIsZero() && (kind == I_FILE || kind == I_DIR)
      modifies this`table, this`nodes, nodes.Values, sb, sb.inodeFreemap, sb.inodeFreemap.v
      ensures Valid()
      ensures ret == 0 && nr !in old(nodes) ==> nodes == old(nodes)
      ensures ret == 0 ==>
                && LeastFree(old(sb.inodeFreemap.bits), NR_INODES, nr)
                && Decode(Slot(sb.disk, nr)) == ZERO_DINODE.(kind := kind)
                && forall m: nat | m < NR_INODES ::
                     && Count(m) == old(Count(m))
                     && Of(m) == if m == nr then ZERO_DINODE.(kind := kind) else old(Of(m))
    {
      hide SuperBlock.Valid, Decode, Slot, Fits, Hash, Chained, Coherent, FreeIsZero;
      var x;
      nr := 0;
      ret, x := Create(kind);
      if ret < 0 {
        return;
      }
      nr := x.nr;
      assert Count(nr) == old(Count(nr)) + 1 && Of(nr) == x.d == ZERO_DINODE.(kind := kind);
      Sync(x);
      assert Decode(Slot(sb.disk, nr)) == ZERO_DINODE.(kind := kind);
      Put(x);
    }

    /** testfs_remove_inode, after its blocks are freed: the inode and its slot are zero and its number is free. */
    method Remove(x: Incore)
      requires Valid() && FreeIsZero() && Cached(x) && x.nr in sb.inodeFreemap.bits && x.d.blockCount == 0
      modifies this`table, this`nodes, x, sb, sb.inodeFreemap, sb.inodeFreemap.v
      ensures Valid() && FreeIsZero() && sb.inodeFreemap.bits == old(sb.inodeFreemap.bits) - {x.nr}
      ensures nodes == if old(x.count) > 1 then old(nodes) else old(nodes) - {x.nr}
      ensures Decode(Slot(sb.disk, x.nr)) == ZERO_DINODE
      ensures forall m: nat | m < NR_INODES ::
                && Of(m) == (if m == x.nr then ZERO_DINODE else old(Of(m)))
                && Count(m) == old(Count(m)) - if m == x.nr then 1 else 0
      ensures forall m: nat | m < NR_INODES && m != x.nr :: Slot(sb.disk, m) == old(Slot(sb.disk, m))
      ensures sb.alloc == old(sb.alloc) && SameData(old(sb.disk), sb.disk)
    {
      hide SuperBlock.Valid, Decode, Slot, Fits, Hash, Chained, Coherent;
      ZeroSlot();
      Update(x, ZERO_DINODE);
      Release(x.nr);
      Sync(x);
      Put(x);
    }

    /** testfs_put_inode_freemap, as far as the inodes are concerned. */
    method Release(nr: nat)
      requires Valid() && nr < NR_INODES && nr in sb.inodeFreemap.bits
      modifies sb, sb.inodeFreemap, sb.inodeFreemap.v
      ensures Valid() && sb.inodeFreemap.bits == old(sb.inodeFreemap.bits) - {nr}
      ensures forall m: nat | m < NR_INODES :: Of(m) == old(Of(m)) && Slot(sb.disk, m) == old(Slot(sb.disk, m))
      ensures sb.alloc == old(sb.alloc) && SameData(old(sb.disk), sb.disk)
    {
      hide SuperBlock.Valid, Decode, Slot, Fits, Hash, Chained;
      ghost var disk := sb.disk;
      sb.PutInodeFreemap(nr);
      SameSlots(disk, sb.disk);
    }

    /** The assertion of inode_hash_destroy holds exactly when every inode has been put back. */
    lemma EmptyIff()
      requires Chained()
      ensures (forall b | 0 <= b < HASH_SIZE :: table[b] == []) <==> nodes == map[]
    {
      hide Hash;
      if b :| 0 <= b < HASH_SIZE && table[b] != [] {
        var x := table[b][0];
        assert x in table[b] && x.nr in nodes;
      }
      if nr :| nr in nodes {
        assert nodes[nr] in table[Hash(nr)];
      }
    }
  }
}
