/**
 An inode together with the device and the set of allocated blocks, as one value: what it means for the
 inode to be in order, and how allocation, writing and freeing may change it (fs/read_write.c, fs/inode.c).
 */
module Volumes {
  import opened Codec
  import opened Supers
  import opened BlockMap

  datatype Vol = Vol(disk: Disk, alloc: set<int>, d: Dinode)

  /** The inode owns its tree, the tree is allocated, and free blocks are zero. */
  ghost predicate Good(v: Vol)
  {
    && Owns(v.disk, v.d)
    && Tree(v.disk, v.d) <= v.alloc
    && FreeIsZero(v)
  }

  ghost predicate FreeIsZero(v: Vol)
  {
    forall b | DataBlock(b) && b !in v.alloc :: v.disk[b] == ZERO_BLOCK
  }

  /** The allocated blocks that are not the inode's. */
  ghost function Others(v: Vol): set<int>
    requires |v.d.direct| == NR_DIRECT_BLOCKS
  {
    v.alloc - Tree(v.disk, v.d)
  }

  /** Blocks outside the inode stay allocated, stay outside it and keep their bytes. */
  ghost predicate OthersKept(v: Vol, w: Vol)
    requires |v.d.direct| == |w.d.direct| == NR_DIRECT_BLOCKS
  {
    Others(w) == Others(v) && forall b | b in Others(v) && DataBlock(b) :: w.disk[b] == v.disk[b]
  }

  ghost predicate SameContents(v: Vol, w: Vol)
    requires |v.d.direct| == |w.d.direct| == NR_DIRECT_BLOCKS
  {
    forall log: nat | log < MAX_FILE_SIZE :: Content(w.disk, w.d, log) == Content(v.disk, v.d, log)
  }

  /** The positions from the inode down to a logical block. */
  function Way(log: nat): (ps: set<Path>)
    requires log < MAX_FILE_SIZE
    ensures forall p | p in ps :: ValidPath(p)
  {
    match PathOf(log)
    case Direct(i) => {Direct(i)}
    case IndLeaf(k) => {Ind, IndLeaf(k)}
    case Leaf(i, j) => {Dind, Third(i), Leaf(i, j)}
  }

  /** The positions on the way to a logical block that are empty, and have to be filled to hold it. */
  ghost function Missing(v: Vol, log: nat): set<Path>
    requires log < MAX_FILE_SIZE && |v.d.direct| == NR_DIRECT_BLOCKS
  {
    set p | p in Way(log) && At(v.disk, v.d, p) == 0
  }

  /** Exactly the positions `ps`, empty before, are filled with newly allocated blocks. */
  ghost predicate Grown(v: Vol, w: Vol, ps: set<Path>)
  {
    && |v.d.direct| == NR_DIRECT_BLOCKS
    && Good(w)
    && (forall p | ValidPath(p) && p !in ps :: At(w.disk, w.d, p) == At(v.disk, v.d, p))
    && (forall p | p in ps :: ValidPath(p) && At(v.disk, v.d, p) == 0 && At(w.disk, w.d, p) != 0)
    && v.alloc <= w.alloc && |w.alloc| == |v.alloc| + |ps|
    && OthersKept(v, w)
    && w.d.size == v.d.size && w.d.kind == v.d.kind
  }

  lemma GrownBeside(v: Vol, w: Vol, ps: set<Path>, p: Path)
    requires Grown(v, w, ps) && ValidPath(p) && p !in ps
    ensures |v.d.direct| == |w.d.direct| == NR_DIRECT_BLOCKS && At(w.disk, w.d, p) == At(v.disk, v.d, p)
  {
  }

  lemma GrownTrans(u: Vol, v: Vol, w: Vol, ps: set<Path>, qs: set<Path>)
    requires Grown(u, v, ps) && Grown(v, w, qs)
    ensures Grown(u, w, ps + qs) && ps !! qs
  {
    assert ps !! qs;
    assert |ps + qs| == |ps| + |qs|;
  }

  /** One block more: `b` was free and is hung into the empty position `p0`. */
  lemma GrowByOne(v: Vol, w: Vol, p0: Path, b: int)
    requires Good(v) && Differ(v.disk, v.d, w.disk, w.d, p0, b) && At(v.disk, v.d, p0) == 0
    requires DataBlock(b) && b !in v.alloc && w.alloc == v.alloc + {b}
    requires w.d.blockCount == v.d.blockCount + 1 && w.d.size == v.d.size && w.d.kind == v.d.kind
    requires OnlyIndexChanged(v, w)
    ensures Grown(v, w, {p0}) && SameContents(v, w)
  {
    Grow(v.disk, v.d, w.disk, w.d, p0, b);
    assert Others(w) == Others(v);
    assert w.disk[b] == ZERO_BLOCK;
    GrowKeepsContent(v.disk, v.d, w.disk, w.d, p0, b);
  }

  /** Of the data blocks, at most index blocks of the inode were rewritten. */
  ghost predicate OnlyIndexChanged(v: Vol, w: Vol)
    requires |v.d.direct| == NR_DIRECT_BLOCKS
  {
    forall b | DataBlock(b) && w.disk[b] != v.disk[b] ::
      exists q :: ValidPath(q) && IsIndex(q) && At(v.disk, v.d, q) == b
  }

  // ---- the allocation steps; the device differs from `v.disk` in its counters and freemaps only

  /** What the tree is read from: the three pointer fields and the data blocks. */
  lemma SameDataSameTree(disk: Disk, d: Dinode, disk2: Disk, d2: Dinode)
    requires |d.direct| == NR_DIRECT_BLOCKS && SameData(disk, disk2)
    requires d2.direct == d.direct && d2.indirect == d.indirect && d2.dindirect == d.dindirect
    ensures forall p | ValidPath(p) :: At(disk2, d2, p) == At(disk, d, p)
  {
  }

  ghost predicate Charged(v: Vol, w: Vol, b: int)
  {
    && Good(v) && DataBlock(b) && b !in v.alloc
    && w.alloc == v.alloc + {b} && SameData(v.disk, w.disk)
    && w.d == v.d.(blockCount := v.d.blockCount + 1)
  }

  lemma TakeDirect(v: Vol, u: Vol, w: Vol, i: nat, b: int)
    requires Charged(v, u, b) && i < NR_DIRECT_BLOCKS && v.d.direct[i] == 0
    requires w == u.(d := u.d.(direct := u.d.direct[i := b]))
    ensures Grown(v, w, {Direct(i)}) && SameContents(v, w)
    ensures At(w.disk, w.d, Direct(i)) == b
  {
    FillDirect(v.disk, v.d, i, b);
    SameDataSameTree(v.disk, v.d.(direct := v.d.direct[i := b]), w.disk, w.d);
    GrowByOne(v, w, Direct(i), b);
  }

  lemma TakeInd(v: Vol, u: Vol, w: Vol, b: int)
    requires Charged(v, u, b) && v.d.indirect == 0
    requires w == u.(d := u.d.(indirect := b))
    ensures Grown(v, w, {Ind}) && SameContents(v, w)
    ensures w.disk[b] == ZERO_BLOCK
  {
    FillInd(v.disk, v.d, b);
    SameDataSameTree(v.disk, v.d.(indirect := b), w.disk, w.d);
    GrowByOne(v, w, Ind, b);
  }

  lemma TakeDind(v: Vol, u: Vol, w: Vol, b: int)
    requires Charged(v, u, b) && v.d.dindirect == 0
    requires w == u.(d := u.d.(dindirect := b))
    ensures Grown(v, w, {Dind}) && SameContents(v, w)
    ensures w.disk[b] == ZERO_BLOCK
  {
    FillDind(v.disk, v.d, b);
    SameDataSameTree(v.disk, v.d.(dindirect := b), w.disk, w.d);
    GrowByOne(v, w, Dind, b);
  }

  lemma TakeIndLeaf(v: Vol, u: Vol, w: Vol, k: nat, b: int)
    requires Charged(v, u, b) && v.d.indirect != 0 && k < NR_INDIRECT_BLOCKS
    requires At(v.disk, v.d, IndLeaf(k)) == 0
    requires DataBlock(v.d.indirect)
    requires w == u.(disk := u.disk[v.d.indirect := SetPtr(u.disk[v.d.indirect], k, b)])
    ensures Grown(v, w, {IndLeaf(k)}) && SameContents(v, w)
    ensures At(w.disk, w.d, IndLeaf(k)) == b
  {
    var t := v.d.indirect;
    assert t == At(v.disk, v.d, Ind);
    FillIndLeaf(v.disk, v.d, k, b);
    SameDataSameTree(v.disk[t := SetPtr(v.disk[t], k, b)], v.d, w.disk, w.d);
    GrowByOne(v, w, IndLeaf(k), b);
  }

  lemma TakeThird(v: Vol, u: Vol, w: Vol, i: nat, b: int)
    requires Charged(v, u, b) && v.d.dindirect != 0 && i < NR_INDIRECT_BLOCKS
    requires At(v.disk, v.d, Third(i)) == 0
    requires DataBlock(v.d.dindirect)
    requires w == u.(disk := u.disk[v.d.dindirect := SetPtr(u.disk[v.d.dindirect], i, b)])
    ensures Grown(v, w, {Third(i)}) && SameContents(v, w)
    ensures At(w.disk, w.d, Third(i)) == b && w.disk[b] == ZERO_BLOCK
  {
    var t := v.d.dindirect;
    assert t == At(v.disk, v.d, Dind);
    FillThird(v.disk, v.d, i, b);
    SameDataSameTree(v.disk[t := SetPtr(v.disk[t], i, b)], v.d, w.disk, w.d);
    GrowByOne(v, w, Third(i), b);
  }

  lemma TakeLeaf(v: Vol, u: Vol, w: Vol, i: nat, j: nat, b: int)
    requires Charged(v, u, b) && i < NR_INDIRECT_BLOCKS && j < NR_INDIRECT_BLOCKS
    requires At(v.disk, v.d, Third(i)) != 0 && At(v.disk, v.d, Leaf(i, j)) == 0
    requires DataBlock(At(v.disk, v.d, Third(i)))
    requires var t := At(v.disk, v.d, Third(i)); w == u.(disk := u.disk[t := SetPtr(u.disk[t], j, b)])
    ensures Grown(v, w, {Leaf(i, j)}) && SameContents(v, w)
    ensures At(w.disk, w.d, Leaf(i, j)) == b
  {
    var t := At(v.disk, v.d, Third(i));
    FillLeaf(v.disk, v.d, i, j, b);
    SameDataSameTree(v.disk[t := SetPtr(v.disk[t], j, b)], v.d, w.disk, w.d);
    GrowByOne(v, w, Leaf(i, j), b);
  }
}
