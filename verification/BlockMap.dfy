/**
 The three-level block map of an inode, as values: which block every position of the tree names,
 which blocks the inode owns, and what each logical block contains (fs/read_write.c, fs/inode.h).
 */
module BlockMap {
  import opened Layout
  import opened Codec
  import opened Supers

  const NR_DIRECT_BLOCKS := 10
  const NR_INDIRECT_BLOCKS := ADDRS_PER_BLOCK
  const MAX_FILE_SIZE := NR_DIRECT_BLOCKS + NR_INDIRECT_BLOCKS + NR_INDIRECT_BLOCKS * NR_INDIRECT_BLOCKS

  /** struct dinode */
  datatype Dinode = Dinode(kind: int, direct: seq<int>, indirect: int, dindirect: int, blockCount: int, size: int)

  /** A free inode. */
  const ZERO_DINODE: Dinode := Dinode(I_NONE, [0, 0, 0, 0, 0, 0, 0, 0, 0, 0], 0, 0, 0, 0)

  /** A position in the tree of blocks of an inode. */
  datatype Path = Direct(i: nat) | Ind | IndLeaf(k: nat) | Dind | Third(i: nat) | Leaf(i: nat, j: nat)

  predicate ValidPath(p: Path)
  {
    match p
    case Direct(i) => i < NR_DIRECT_BLOCKS
    case Ind => true
    case IndLeaf(k) => k < NR_INDIRECT_BLOCKS
    case Dind => true
    case Third(i) => i < NR_INDIRECT_BLOCKS
    case Leaf(i, j) => i < NR_INDIRECT_BLOCKS && j < NR_INDIRECT_BLOCKS
  }

  /** Positions that hold file data, and the logical blocks they stand for. */
  predicate IsData(p: Path)
  {
    p.Direct? || p.IndLeaf? || p.Leaf?
  }

  function PathOf(log: nat): (p: Path)
    requires log < MAX_FILE_SIZE
    ensures ValidPath(p) && IsData(p)
  {
    if log < NR_DIRECT_BLOCKS then Direct(log)
    else if log < NR_DIRECT_BLOCKS + NR_INDIRECT_BLOCKS then IndLeaf(log - NR_DIRECT_BLOCKS)
    else var n := log - NR_DIRECT_BLOCKS - NR_INDIRECT_BLOCKS; Leaf(n / NR_INDIRECT_BLOCKS, n % NR_INDIRECT_BLOCKS)
  }

  function LogOf(p: Path): (log: nat)
    requires ValidPath(p) && IsData(p)
    ensures log < MAX_FILE_SIZE
  {
    match p
    case Direct(i) => i
    case IndLeaf(k) => NR_DIRECT_BLOCKS + k
    case Leaf(i, j) => NR_DIRECT_BLOCKS + NR_INDIRECT_BLOCKS + NR_INDIRECT_BLOCKS * i + j
  }

  /** Logical blocks and data positions correspond one to one. */
  lemma PathsAreLogicalBlocks(log: nat, p: Path)
    requires log < MAX_FILE_SIZE && ValidPath(p) && IsData(p)
    ensures LogOf(PathOf(log)) == log && PathOf(LogOf(p)) == p
  {
  }

  // ---- reading the tree

  ghost function BlockAt(disk: Disk, b: int): Block
  {
    if DataBlock(b) then disk[b] else ZERO_BLOCK
  }

  /** Entry `k` of the pointer block `t`, where a null pointer block has only null entries. */
  ghost function Entry(disk: Disk, t: int, k: nat): int
    requires k < NR_INDIRECT_BLOCKS
  {
    if t == 0 then 0 else Ptr(BlockAt(disk, t), k)
  }

  /** The block number at a position of the tree; 0 where nothing is allocated. */
  ghost function At(disk: Disk, d: Dinode, p: Path): int
    requires ValidPath(p) && |d.direct| == NR_DIRECT_BLOCKS
  {
    match p
    case Direct(i) => d.direct[i]
    case Ind => d.indirect
    case IndLeaf(k) => Entry(disk, d.indirect, k)
    case Dind => d.dindirect
    case Third(i) => Entry(disk, d.dindirect, i)
    case Leaf(i, j) => Entry(disk, Entry(disk, d.dindirect, i), j)
  }

  ghost function Phys(disk: Disk, d: Dinode, log: nat): int
    requires log < MAX_FILE_SIZE && |d.direct| == NR_DIRECT_BLOCKS
  {
    At(disk, d, PathOf(log))
  }

  /** What a logical block reads as; a hole reads as zeros. */
  ghost function Content(disk: Disk, d: Dinode, log: nat): Block
    requires log < MAX_FILE_SIZE && |d.direct| == NR_DIRECT_BLOCKS
  {
    var b := Phys(disk, d, log);
    if b == 0 then ZERO_BLOCK else BlockAt(disk, b)
  }

  // ---- ownership

  /** Every block named by the tree is a data block and is named at one position only. */
  ghost predicate Sound(disk: Disk, d: Dinode)
  {
    && |d.direct| == NR_DIRECT_BLOCKS
    && (forall p | ValidPath(p) :: At(disk, d, p) == 0 || DataBlock(At(disk, d, p)))
    && (forall p, q | ValidPath(p) && ValidPath(q) && At(disk, d, p) == At(disk, d, q) != 0 :: p == q)
  }

  ghost predicate Named(disk: Disk, d: Dinode, b: int)
    requires |d.direct| == NR_DIRECT_BLOCKS
  {
    exists p :: ValidPath(p) && At(disk, d, p) == b
  }

  /** The blocks of the inode: data, indirect, double indirect and third-level blocks. */
  ghost function Tree(disk: Disk, d: Dinode): set<int>
    requires |d.direct| == NR_DIRECT_BLOCKS
  {
    set b: int | DATA_START <= b < DISK_BLOCKS && Named(disk, d, b)
  }

  /** The inode's tree is sound and block_count is its size. */
  ghost predicate Owns(disk: Disk, d: Dinode)
  {
    Sound(disk, d) && d.blockCount == |Tree(disk, d)|
  }

  /** An inode that owns no block has no position in use. */
  lemma EmptyTree(disk: Disk, d: Dinode)
    requires Sound(disk, d) && Tree(disk, d) == {}
    ensures forall p | ValidPath(p) :: At(disk, d, p) == 0
  {
    forall p | ValidPath(p) ensures At(disk, d, p) == 0 {
      var b := At(disk, d, p);
      assert Named(disk, d, b);
      assert b !in Tree(disk, d);
    }
  }

  lemma NullTree(disk: Disk, d: Dinode)
    requires |d.direct| == NR_DIRECT_BLOCKS && d.indirect == 0 && d.dindirect == 0
    requires forall i | 0 <= i < NR_DIRECT_BLOCKS :: d.direct[i] == 0
    ensures Sound(disk, d) && Tree(disk, d) == {}
  {
    assert forall p | ValidPath(p) :: At(disk, d, p) == 0;
  }

  // ---- one position changes

  /** The two trees agree except at `p0`, which changes to `b`. */
  ghost predicate Differ(disk: Disk, d: Dinode, disk2: Disk, d2: Dinode, p0: Path, b: int)
  {
    && |d.direct| == |d2.direct| == NR_DIRECT_BLOCKS
    && ValidPath(p0) && At(disk2, d2, p0) == b
    && forall p | ValidPath(p) && p != p0 :: At(disk2, d2, p) == At(disk, d, p)
  }

  /** Hanging a new block into an empty position keeps the tree sound and adds just that block. */
  lemma Grow(disk: Disk, d: Dinode, disk2: Disk, d2: Dinode, p0: Path, b: int)
    requires Sound(disk, d) && Differ(disk, d, disk2, d2, p0, b) && At(disk, d, p0) == 0
    requires DataBlock(b) && b !in Tree(disk, d)
    ensures Sound(disk2, d2)
    ensures Tree(disk2, d2) == Tree(disk, d) + {b}
    ensures |Tree(disk2, d2)| == |Tree(disk, d)| + 1
  {
    hide At, Sound;
    GrowSound(disk, d, disk2, d2, p0, b);
    forall x | DataBlock(x) ensures Named(disk2, d2, x) <==> Named(disk, d, x) || x == b {
      NamedAfter(disk, d, disk2, d2, p0, b, x);
    }
  }

  lemma GrowSound(disk: Disk, d: Dinode, disk2: Disk, d2: Dinode, p0: Path, b: int)
    requires Sound(disk, d) && Differ(disk, d, disk2, d2, p0, b) && At(disk, d, p0) == 0
    requires DataBlock(b) && b !in Tree(disk, d)
    ensures Sound(disk2, d2) && |d.direct| == |d2.direct| == NR_DIRECT_BLOCKS
  {
    hide At;
    assert !Named(disk, d, b);
  }

  lemma NamedAfter(disk: Disk, d: Dinode, disk2: Disk, d2: Dinode, p0: Path, b: int, x: int)
    requires Differ(disk, d, disk2, d2, p0, b) && |d.direct| == |d2.direct| == NR_DIRECT_BLOCKS
    requires At(disk, d, p0) == 0 && x != 0
    ensures Named(disk2, d2, x) <==> Named(disk, d, x) || x == b
  {
    hide At;
    if p :| ValidPath(p) && At(disk, d, p) == x {
      assert At(disk2, d2, p) == x;
    }
    if p :| ValidPath(p) && At(disk2, d2, p) == x {
      assert p != p0 ==> At(disk, d, p) == x;
    }
    assert At(disk2, d2, p0) == b;
  }

  // ---- where a tree reads from

  /** The blocks an inode reads its tree through. */
  ghost predicate IsIndex(p: Path)
  {
    p.Ind? || p.Dind? || p.Third?
  }

  /** The tree depends only on the inode's fields and on the blocks of the tree. */
  lemma AtDependsOnTree(disk: Disk, d: Dinode, disk2: Disk, p: Path)
    requires Sound(disk, d) && ValidPath(p)
    requires forall b | b in Tree(disk, d) :: disk2[b] == disk[b]
    ensures At(disk2, d, p) == At(disk, d, p)
  {
    match p
    case Direct(i) =>
    case Ind =>
    case IndLeaf(k) => IndexBlockSame(disk, d, disk2, Ind);
    case Dind =>
    case Third(i) => IndexBlockSame(disk, d, disk2, Dind);
    case Leaf(i, j) =>
      IndexBlockSame(disk, d, disk2, Dind);
      IndexBlockSame(disk, d, disk2, Third(i));
  }

  lemma IndexBlockSame(disk: Disk, d: Dinode, disk2: Disk, p: Path)
    requires Sound(disk, d) && ValidPath(p)
    requires forall b | b in Tree(disk, d) :: disk2[b] == disk[b]
    ensures BlockAt(disk2, At(disk, d, p)) == BlockAt(disk, At(disk, d, p))
  {
    var b := At(disk, d, p);
    if DataBlock(b) {
      assert b in Tree(disk, d);
    }
  }

  /** An inode none of whose blocks changed keeps its tree and everything it contains. */
  lemma Untouched(disk: Disk, d: Dinode, disk2: Disk)
    requires Sound(disk, d)
    requires forall b | b in Tree(disk, d) :: disk2[b] == disk[b]
    ensures Sound(disk2, d) && Tree(disk2, d) == Tree(disk, d)
    ensures forall p | ValidPath(p) :: At(disk2, d, p) == At(disk, d, p)
    ensures forall log: nat | log < MAX_FILE_SIZE :: Content(disk2, d, log) == Content(disk, d, log)
  {
    forall p | ValidPath(p) ensures At(disk2, d, p) == At(disk, d, p) {
      AtDependsOnTree(disk, d, disk2, p);
    }
    forall b ensures Named(disk2, d, b) == Named(disk, d, b) {
      if p :| ValidPath(p) && At(disk, d, p) == b { assert At(disk2, d, p) == b; }
    }
    forall log: nat | log < MAX_FILE_SIZE ensures Content(disk2, d, log) == Content(disk, d, log) {
      IndexBlockSame(disk, d, disk2, PathOf(log));
    }
  }

  // ---- the four ways a position is filled

  /** A data block that is all zeros, hung into an empty position, changes no contents. */
  lemma GrowKeepsContent(disk: Disk, d: Dinode, disk2: Disk, d2: Dinode, p0: Path, b: int)
    requires Sound(disk, d) && Differ(disk, d, disk2, d2, p0, b) && At(disk, d, p0) == 0
    requires DataBlock(b) && disk2[b] == ZERO_BLOCK
    requires forall p | ValidPath(p) && IsData(p) && At(disk, d, p) != 0 ::
               BlockAt(disk2, At(disk, d, p)) == BlockAt(disk, At(disk, d, p))
    ensures forall log: nat | log < MAX_FILE_SIZE :: Content(disk2, d2, log) == Content(disk, d, log)
  {
  }

  /** in->in.i_block_nr[i] = b */
  lemma FillDirect(disk: Disk, d: Dinode, i: nat, b: int)
    requires Sound(disk, d) && i < NR_DIRECT_BLOCKS
    ensures Differ(disk, d, disk, d.(direct := d.direct[i := b]), Direct(i), b)
  {
  }

  /** in->in.i_indirect = b, for a block of zeros */
  lemma FillInd(disk: Disk, d: Dinode, b: int)
    requires Sound(disk, d) && d.indirect == 0 && DataBlock(b) && disk[b] == ZERO_BLOCK
    ensures Differ(disk, d, disk, d.(indirect := b), Ind, b)
  {
    forall k: nat | k < NR_INDIRECT_BLOCKS ensures Entry(disk, b, k) == 0 { PtrZero(k); }
  }

  lemma FillDind(disk: Disk, d: Dinode, b: int)
    requires Sound(disk, d) && d.dindirect == 0 && DataBlock(b) && disk[b] == ZERO_BLOCK
    ensures Differ(disk, d, disk, d.(dindirect := b), Dind, b)
  {
    forall k: nat | k < NR_INDIRECT_BLOCKS ensures Entry(disk, b, k) == 0 { PtrZero(k); }
  }

  /** ((int *) indirect)[k] = b; write_blocks(indirect, i_indirect) */
  lemma FillIndLeaf(disk: Disk, d: Dinode, k: nat, b: nat)
    requires Sound(disk, d) && d.indirect != 0 && k < NR_INDIRECT_BLOCKS && b < INT_LIMIT
    ensures var t := d.indirect;
            DataBlock(t) && Differ(disk, d, disk[t := SetPtr(disk[t], k, b)], d, IndLeaf(k), b)
  {
    var t := d.indirect;
    assert t == At(disk, d, Ind);
    var disk2 := disk[t := SetPtr(disk[t], k, b)];
    forall p | ValidPath(p) && p != IndLeaf(k) ensures At(disk2, d, p) == At(disk, d, p) {
      if p.IndLeaf? {
        PtrOfSetPtr(disk[t], k, b, p.k);
      } else {
        OtherIndexBlocks(disk, d, disk2, Ind, p);
      }
    }
    PtrOfSetPtr(disk[t], k, b, k);
  }

  /** Rewriting one pointer block does not affect the positions read through the others. */
  lemma OtherIndexBlocks(disk: Disk, d: Dinode, disk2: Disk, q: Path, p: Path)
    requires Sound(disk, d) && ValidPath(q) && IsIndex(q) && ValidPath(p)
    requires At(disk, d, q) != 0 && disk2 == disk[At(disk, d, q) := disk2[At(disk, d, q)]]
    requires match p
             case IndLeaf(k) => q != Ind
             case Third(i) => q != Dind
             case Leaf(i, j) => q != Dind && q != Third(i)
             case _ => true
    ensures At(disk2, d, p) == At(disk, d, p)
  {
    match p
    case Direct(i) =>
    case Ind =>
    case IndLeaf(k) => assert At(disk, d, Ind) == d.indirect;
    case Dind =>
    case Third(i) => assert At(disk, d, Dind) == d.dindirect;
    case Leaf(i, j) =>
      assert At(disk, d, Dind) == d.dindirect;
      assert At(disk, d, Third(i)) == Entry(disk, d.dindirect, i);
  }

  /** ((int *) dindirect)[i] = b; write_blocks(dindirect, i_dindirect), for a block of zeros */
  lemma FillThird(disk: Disk, d: Dinode, i: nat, b: nat)
    requires Sound(disk, d) && d.dindirect != 0 && i < NR_INDIRECT_BLOCKS && b < INT_LIMIT
    requires At(disk, d, Third(i)) == 0 && DataBlock(b) && b != d.dindirect && disk[b] == ZERO_BLOCK
    ensures var t := d.dindirect;
            DataBlock(t) && Differ(disk, d, disk[t := SetPtr(disk[t], i, b)], d, Third(i), b)
  {
    var t := d.dindirect;
    assert t == At(disk, d, Dind);
    var disk2 := disk[t := SetPtr(disk[t], i, b)];
    PtrOfSetPtr(disk[t], i, b, i);
    forall p | ValidPath(p) && p != Third(i) ensures At(disk2, d, p) == At(disk, d, p) {
      match p
      case Third(i2) => PtrOfSetPtr(disk[t], i, b, i2);
      case Leaf(i2, j) =>
        PtrOfSetPtr(disk[t], i, b, i2);
        if i2 == i {
          PtrZero(j);
        } else {
          assert At(disk, d, Third(i2)) == Entry(disk, t, i2);
        }
      case _ => OtherIndexBlocks(disk, d, disk2, Dind, p);
    }
  }

  /** ((int *) layer_three_indirect)[j] = b; write_blocks(layer_three_indirect, ...) */
  lemma FillLeaf(disk: Disk, d: Dinode, i: nat, j: nat, b: nat)
    requires Sound(disk, d) && i < NR_INDIRECT_BLOCKS && j < NR_INDIRECT_BLOCKS && b < INT_LIMIT
    requires At(disk, d, Third(i)) != 0
    ensures var t := At(disk, d, Third(i));
            Differ(disk, d, disk[t := SetPtr(disk[t], j, b)], d, Leaf(i, j), b)
  {
    var t := At(disk, d, Third(i));
    assert At(disk, d, Dind) == d.dindirect;
    var disk2 := disk[t := SetPtr(disk[t], j, b)];
    PtrOfSetPtr(disk[t], j, b, j);
    forall p | ValidPath(p) && p != Leaf(i, j) ensures At(disk2, d, p) == At(disk, d, p) {
      if p.Leaf? && p.i == i {
        PtrOfSetPtr(disk[t], j, b, p.j);
      } else {
        OtherIndexBlocks(disk, d, disk2, Third(i), p);
      }
    }
  }
}
