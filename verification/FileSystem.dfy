/**
 All inodes of a file system at once: no block belongs to two of them, every allocated block belongs to one,
 and what one of them does leaves the contents of the others alone.
 */
module FileSystems {
  import opened Layout
  import opened Codec
  import opened Supers
  import opened BlockMap
  import opened Volumes
  import opened Allocations
  import opened FlatFiles
  import opened Freeing
  import opened FileStates
  import opened Inodes

  /** The device, the allocated blocks and the inodes. */
  datatype Fs = Fs(disk: Disk, alloc: set<int>, inodes: seq<Dinode>)

  ghost function Nth(f: Fs, k: nat): Vol
    requires k < |f.inodes|
  {
    Vol(f.disk, f.alloc, f.inodes[k])
  }

  ghost function TreeOf(f: Fs, k: nat): set<int>
    requires k < |f.inodes| && |f.inodes[k].direct| == NR_DIRECT_BLOCKS
  {
    Tree(f.disk, f.inodes[k])
  }

  ghost predicate FilesOk(f: Fs)
  {
    forall k: nat | k < |f.inodes| :: FileOk(Nth(f, k)) && |f.inodes[k].direct| == NR_DIRECT_BLOCKS
  }

  /** The trees of the inodes are pairwise disjoint, and together they are the allocated blocks. */
  ghost predicate Partitioned(f: Fs)
    requires FilesOk(f)
  {
    && (forall k: nat, l: nat, b | k < |f.inodes| && l < |f.inodes| && k != l && b in TreeOf(f, k) :: b !in TreeOf(f, l))
    && (forall b | b in f.alloc :: exists k: nat :: k < |f.inodes| && b in TreeOf(f, k))
  }

  ghost predicate FsOk(f: Fs)
  {
    FilesOk(f) && Partitioned(f)
  }

  /** One inode changes, is in order afterwards, and has kept its hands off the blocks of the others. */
  ghost predicate LocalStep(v: Vol, w: Vol)
  {
    && |v.d.direct| == |w.d.direct| == NR_DIRECT_BLOCKS
    && FileOk(w) && OthersKept(v, w)
  }

  ghost predicate FsStep(f: Fs, g: Fs, k: nat)
  {
    && k < |f.inodes| == |g.inodes|
    && (forall l: nat | l < |f.inodes| && l != k :: g.inodes[l] == f.inodes[l])
    && LocalStep(Nth(f, k), Nth(g, k))
  }

  /** Contents of all other files stay, and so do their trees. */
  lemma OtherFilesUntouched(f: Fs, g: Fs, k: nat, l: nat)
    requires FsOk(f) && FsStep(f, g, k) && l < |f.inodes| && l != k
    ensures FileOk(Nth(g, l)) && |g.inodes[l].direct| == NR_DIRECT_BLOCKS && TreeOf(g, l) == TreeOf(f, l)
    ensures SameContents(Nth(f, l), Nth(g, l))
    ensures forall p | ValidPath(p) :: At(g.disk, g.inodes[l], p) == At(f.disk, f.inodes[l], p)
  {
    hide FileOk, Good, SameContents, Tree;
    NotMine(f, k, l);
    FreeStaysZero(f, g, k);
    StaysAllocated(f, g, k);
    Beside(Nth(f, l), Nth(g, l));
  }

  lemma StaysAllocated(f: Fs, g: Fs, k: nat)
    requires FsStep(f, g, k)
    ensures forall b | b in Others(Nth(f, k)) && DataBlock(b) :: b in g.alloc && g.disk[b] == f.disk[b]
  {
    assert forall b | b in Others(Nth(f, k)) :: b in Others(Nth(g, k));
  }

  lemma NotMine(f: Fs, k: nat, l: nat)
    requires FsOk(f) && k < |f.inodes| && l < |f.inodes| && l != k
    ensures forall b | b in TreeOf(f, l) :: b in Others(Nth(f, k)) && DataBlock(b)
  {
    hide FileOk, Tree;
    TreeAllocated(Nth(f, l));
    forall b | b in TreeOf(f, l) ensures b in Others(Nth(f, k)) && DataBlock(b) {
      assert b !in TreeOf(f, k);
    }
  }

  lemma TreeAllocated(v: Vol)
    requires FileOk(v)
    ensures |v.d.direct| == NR_DIRECT_BLOCKS && forall b | b in Tree(v.disk, v.d) :: b in v.alloc && DataBlock(b)
  {
  }

  lemma FreeStaysZero(f: Fs, g: Fs, k: nat)
    requires FsStep(f, g, k)
    ensures forall b | DataBlock(b) && b !in g.alloc :: g.disk[b] == ZERO_BLOCK
  {
    assert FileOk(Nth(g, k));
  }

  /** A step of one inode keeps the file system in order, and the contents of every other file. */
  lemma StepKeepsOrder(f: Fs, g: Fs, k: nat)
    requires FsOk(f) && FsStep(f, g, k)
    ensures FsOk(g)
    ensures forall l: nat | l < |f.inodes| && l != k :: SameContents(Nth(f, l), Nth(g, l))
  {
    hide FileOk, SameContents, Tree, OthersKept;
    forall l: nat | l < |f.inodes| && l != k
      ensures FileOk(Nth(g, l)) && |g.inodes[l].direct| == NR_DIRECT_BLOCKS && TreeOf(g, l) == TreeOf(f, l)
      ensures SameContents(Nth(f, l), Nth(g, l))
    {
      OtherFilesUntouched(f, g, k, l);
    }
    StepKeepsDisjoint(f, g, k);
    StepKeepsUnion(f, g, k);
  }

  lemma StepKeepsDisjoint(f: Fs, g: Fs, k: nat)
    requires FsOk(f) && FsStep(f, g, k) && FilesOk(g)
    requires forall l: nat | l < |f.inodes| && l != k :: TreeOf(g, l) == TreeOf(f, l)
    ensures forall i: nat, l: nat, b | i < |g.inodes| && l < |g.inodes| && i != l && b in TreeOf(g, i) :: b !in TreeOf(g, l)
  {
    hide FileOk, Tree;
    forall l: nat, b | l < |g.inodes| && l != k && b in TreeOf(g, l) ensures b !in TreeOf(g, k) {
      NotMine(f, k, l);
      assert b in Others(Nth(g, k));
    }
  }

  lemma StepKeepsUnion(f: Fs, g: Fs, k: nat)
    requires FsOk(f) && FsStep(f, g, k) && FilesOk(g)
    requires forall l: nat | l < |f.inodes| && l != k :: TreeOf(g, l) == TreeOf(f, l)
    ensures forall b | b in g.alloc :: exists i: nat :: i < |g.inodes| && b in TreeOf(g, i)
  {
    hide FileOk, Tree;
    forall b | b in g.alloc ensures exists i: nat :: i < |g.inodes| && b in TreeOf(g, i) {
      if b !in TreeOf(g, k) {
        assert b in Others(Nth(g, k));
        assert b in f.alloc && b !in TreeOf(f, k);
        var i: nat :| i < |f.inodes| && b in TreeOf(f, i);
        assert b in TreeOf(g, i);
      }
    }
  }

  // ---- conservation

  ghost function SumOfCounts(inodes: seq<Dinode>): int
  {
    if inodes == [] then 0 else inodes[|inodes| - 1].blockCount + SumOfCounts(inodes[..|inodes| - 1])
  }

  /** The blocks of the first `n` inodes. */
  ghost function Union(f: Fs, n: nat): set<int>
    requires FilesOk(f) && n <= |f.inodes|
  {
    if n == 0 then {} else Union(f, n - 1) + TreeOf(f, n - 1)
  }

  lemma {:induction false} UnionMembers(f: Fs, n: nat, b: int)
    requires FilesOk(f) && n <= |f.inodes|
    ensures b in Union(f, n) <==> exists k: nat :: k < n && b in TreeOf(f, k)
    decreases n
  {
    hide FileOk, Tree;
    if n > 0 {
      var m := n - 1;
      UnionMembers(f, m, b);
      if b in Union(f, n) && b !in Union(f, m) {
        assert b in TreeOf(f, m);
      }
    }
  }

  lemma {:induction false} UnionSize(f: Fs, n: nat)
    requires FsOk(f) && n <= |f.inodes|
    ensures |Union(f, n)| == SumOfCounts(f.inodes[..n])
    decreases n
  {
    hide FileOk, Tree;
    if n > 0 {
      var m := n - 1;
      UnionSize(f, m);
      forall b | b in TreeOf(f, m) ensures b !in Union(f, m) {
        UnionMembers(f, m, b);
      }
      assert f.inodes[..n][..m] == f.inodes[..m];
      CountIsTree(Nth(f, m));
    }
  }

  lemma CountIsTree(v: Vol)
    requires FileOk(v)
    ensures |v.d.direct| == NR_DIRECT_BLOCKS && v.d.blockCount == |Tree(v.disk, v.d)|
  {
  }

  /** The number of allocated blocks, used_block_count, is the sum of the block counts of the inodes. */
  lemma BlocksAreConserved(f: Fs)
    requires FsOk(f)
    ensures |f.alloc| == SumOfCounts(f.inodes)
  {
    hide FileOk, Tree;
    var n := |f.inodes|;
    UnionSize(f, n);
    assert f.inodes[..n] == f.inodes;
    forall b ensures b in f.alloc <==> b in Union(f, n) {
      UnionMembers(f, n, b);
      forall k: nat | k < n {
        TreeAllocated(Nth(f, k));
      }
    }
    assert f.alloc == Union(f, n);
  }

  // ---- runs

  /** A run: in step `i` inode `who[i]` does something that is in order. */
  ghost predicate Run(fs: seq<Fs>, who: seq<nat>)
  {
    |fs| == |who| + 1 && forall i: nat | i < |who| :: FsStep(fs[i], fs[i + 1], who[i])
  }

  lemma {:induction false} RunsStayInOrder(fs: seq<Fs>, who: seq<nat>, n: nat)
    requires Run(fs, who) && n < |fs| && FsOk(fs[0])
    ensures FsOk(fs[n]) && |fs[n].alloc| == SumOfCounts(fs[n].inodes)
    decreases n
  {
    hide FsOk, FsStep;
    if n > 0 {
      var m := n - 1;
      RunsStayInOrder(fs, who, m);
      StepKeepsOrder(fs[m], fs[m + 1], who[m]);
    }
    BlocksAreConserved(fs[n]);
  }

  // ---- what the operations amount to

  lemma SizeAsideOthers(v: Vol, w: Vol, m: Vol)
    requires |v.d.direct| == |w.d.direct| == NR_DIRECT_BLOCKS && m == Sized(w, m.d.size)
    ensures OthersKept(v, w) <==> OthersKept(v, m)
  {
    SameDataSameTree(w.disk, w.d, m.disk, m.d);
    assert forall b :: Named(w.disk, w.d, b) <==> Named(m.disk, m.d, b);
    assert Tree(w.disk, w.d) == Tree(m.disk, m.d);
  }

  lemma OthersKeptTrans(u: Vol, v: Vol, w: Vol)
    requires |u.d.direct| == |v.d.direct| == |w.d.direct| == NR_DIRECT_BLOCKS
    requires OthersKept(u, v) && OthersKept(v, w)
    ensures OthersKept(u, w)
  {
  }

  lemma FailedKeepsOthers(m: Vol, x: Vol, log: nat, ret: int, left: int)
    requires Good(m) && log < MAX_FILE_SIZE && 0 <= left < |Missing(m, log)| && AllocationOutcome(m, x, log, ret, left)
    requires !Leaks(m, log, left)
    ensures |x.d.direct| == NR_DIRECT_BLOCKS && OthersKept(m, x)
  {
    if !Strands(m, log, left) {
      Untouched(m.disk, m.d, x.disk);
    }
  }

  /** A write that is not harmful is a local step, whether it succeeds or not. */
  lemma WriteIsLocal(v: Vol, w: Vol, buf: seq<byte>, start: nat, ret: int, stop: nat, mid: Vol, room: int)
    requires FileOk(v) && start < MAX_BYTES && |v.d.direct| == NR_DIRECT_BLOCKS
    requires WriteOutcome(v, w, buf, start, ret, stop, mid, room) && !Harmful(v, start, |buf|, room)
    ensures LocalStep(v, w)
  {
    hide FileOk, Harmful, MissingRange, Missing, AllocationOutcome, Written, OthersKept, Good, LastBlock, Leaks;
    WriteKeepsIff(v, w, buf, start, ret, stop, mid, room);
    OkIsGood(v);
    OkIsGood(w);
    var x := Sized(w, v.d.size);
    SizeAsideOthers(v, w, x);
    if ret == -ENOSPC {
      var left := room - |MissingRange(v, start / BLOCK_SIZE, stop)|;
      StopIsOkIff(v, w, buf, start, ret, stop, mid, room);
      MissingNext(v, mid, start / BLOCK_SIZE, stop);
      FailedKeepsOthers(mid, x, stop, ret, left);
      OthersKeptTrans(v, mid, x);
    }
  }

  /** An inode without blocks and of size 0 is in order. */
  lemma EmptyIsOk(w: Vol)
    requires Good(w) && Tree(w.disk, w.d) == {} && w.d.size == 0
    ensures FileOk(w)
  {
    EmptyTree(w.disk, w.d);
    assert At(w.disk, w.d, Dind) == w.d.dindirect;
  }

  /** Freeing everything is a local step. */
  lemma FreeIsLocal(v: Vol, w: Vol)
    requires FileOk(v) && Good(w) && w.alloc == Others(v) && Tree(w.disk, w.d) == {} && w.d.size == 0
    requires forall b | DataBlock(b) && b in Others(v) :: w.disk[b] == v.disk[b]
    ensures LocalStep(v, w)
  {
    EmptyIsOk(w);
    assert Others(w) == Others(v);
  }

  lemma ZeroIsOk(v: Vol)
    requires v.d.(kind := I_NONE) == ZERO_DINODE && FreeIsZero(v)
    ensures FileOk(v) && Tree(v.disk, v.d) == {}
  {
    assert forall p | ValidPath(p) :: At(v.disk, v.d, p) == 0;
    assert Tree(v.disk, v.d) == {};
  }

  lemma EmptyFsOk(f: Fs)
    requires f.alloc == {} && forall b | DataBlock(b) :: f.disk[b] == ZERO_BLOCK
    requires forall k | 0 <= k < |f.inodes| :: f.inodes[k] == ZERO_DINODE
    ensures FsOk(f)
  {
    hide FileOk;
    forall k: nat | k < |f.inodes| ensures FileOk(Nth(f, k)) && Tree(f.disk, f.inodes[k]) == {} {
      ZeroIsOk(Nth(f, k));
    }
  }

  lemma EmptyDevice(s: SuperBlock)
    requires s.Valid() && s.alloc == {}
    ensures s.sb.usedBlockCount == 0 && forall b | DataBlock(b) :: s.disk[b] == ZERO_BLOCK
  {
  }

  /** The inodes in memory, sharing one super block. */
  class FileSystem {
    const sb: SuperBlock
    const inodes: seq<Inode>

    ghost function View(): Fs
      reads this, sb, inodes
    {
      Fs(sb.disk, sb.alloc, seq(|inodes|, k requires 0 <= k < |inodes| reads inodes => inodes[k].d))
    }

    ghost predicate Valid()
      reads this, inodes, sb, sb.inodeFreemap, sb.inodeFreemap.v, sb.blockFreemap, sb.blockFreemap.v
    {
      && (forall k | 0 <= k < |inodes| :: inodes[k].sb == sb)
      && (forall k, l | 0 <= k < l < |inodes| :: inodes[k] != inodes[l])
      && sb.Valid() && FsOk(View())
    }

    /** A new file system with `n` free inodes. */
    constructor (maxFsBlocks: nat, n: nat)
      requires maxFsBlocks < Pow256(8)
      ensures Valid() && |inodes| == n && sb.alloc == {} && sb.inodeFreemap.bits == {} && fresh(sb) && fresh(inodes)
      ensures sb.sb.maxFsBlocks == maxFsBlocks && sb.sb.usedBlockCount == 0
      ensures forall k | 0 <= k < n :: inodes[k].nr == k && inodes[k].d == ZERO_DINODE && !inodes[k].dirty
      ensures fresh(sb.inodeFreemap) && fresh(sb.inodeFreemap.v) && fresh(sb.blockFreemap) && fresh(sb.blockFreemap.v)
    {
      hide SuperBlock.Valid;
      var s := new SuperBlock.Format(maxFsBlocks);
      var ins: seq<Inode> := [];
      while |ins| < n
        invariant |ins| <= n && s.Valid() && s.alloc == {} && s.inodeFreemap.bits == {} && s.sb.maxFsBlocks == maxFsBlocks
        invariant fresh(s) && fresh(s.inodeFreemap) && fresh(s.inodeFreemap.v) && fresh(s.blockFreemap) && fresh(s.blockFreemap.v)
        invariant forall k | 0 <= k < |ins| ::
                    fresh(ins[k]) && ins[k].sb == s && ins[k].nr == k && ins[k].d == ZERO_DINODE && !ins[k].dirty
        invariant forall k, l | 0 <= k < l < |ins| :: ins[k] != ins[l]
      {
        var i := new Inode(s, |ins|, ZERO_DINODE);
        ins := ins + [i];
      }
      EmptyDevice(s);
      sb, inodes := s, ins;
      new;
      EmptyFsOk(View());
    }

    /** Writes to inode `k`. The file system is in order afterwards exactly if the write is not a harmful one. */
    method Write(k: nat, buf: seq<byte>, start: nat) returns (ret: int, outside: bool, ghost stop: nat, ghost mid: Vol)
      requires Valid() && k < |inodes| && |buf| < INT_LIMIT
      modifies inodes[k], sb, sb.blockFreemap, sb.blockFreemap.v
      ensures sb.Valid() && sb.sb.maxFsBlocks == old(sb.sb.maxFsBlocks)
      ensures start >= MAX_BYTES ==> Valid() && ret == EFBIG && View() == old(View())
      ensures outside <==> start < MAX_BYTES && old(RunsOutside(Nth(View(), k), start, |buf|, sb.Room()))
      ensures start < MAX_BYTES && !outside ==>
                && WriteOutcome(old(Nth(View(), k)), Nth(View(), k), buf, start, ret, stop, mid, old(sb.Room()))
                && (Valid() <==> !old(Harmful(Nth(View(), k), start, |buf|, sb.Room())))
      ensures start < MAX_BYTES && !outside && Valid() ==>
                forall l: nat | l < |inodes| && l != k :: SameContents(old(Nth(View(), l)), Nth(View(), l))
    {
      hide SuperBlock.Valid, FsOk, FileOk, Harmful, WriteOutcome, SameContents, OthersKept, Wrote, RunsOutside;
      ghost var f := View();
      FileIsOk(f, k);
      ghost var room := sb.Room();
      ret, outside, stop, mid := inodes[k].WriteData(buf, start);
      ghost var g := View();
      if start >= MAX_BYTES {
        assert g == f;
      } else if !outside {
        WriteKeepsFsIff(f, g, k, buf, start, ret, stop, mid, room);
      }
    }

    /** Frees the blocks of inode `k`. */
    method Truncate(k: nat) returns (ret: int)
      requires Valid() && k < |inodes| && FreeGuard(Nth(View(), k))
      modifies inodes[k], sb, sb.blockFreemap, sb.blockFreemap.v
      ensures Valid() && ret == 0 && inodes[k].d.blockCount == 0 && inodes[k].d.size == 0
      ensures sb.alloc == old(Others(Nth(View(), k)))
      ensures forall l: nat | l < |inodes| && l != k :: SameContents(old(Nth(View(), l)), Nth(View(), l))
    {
      hide SuperBlock.Valid, FsOk, FileOk, FreeGuard, SameContents, OthersKept, Others, Tree;
      ghost var f := View();
      FileIsOk(f, k);
      ret := inodes[k].FreeBlocks();
      ghost var g := View();
      FreeIsLocal(Nth(f, k), Nth(g, k));
      StepKeepsOrder(f, g, k);
    }
  }

  lemma WriteKeepsFsIff(f: Fs, g: Fs, k: nat, buf: seq<byte>, start: nat, ret: int, stop: nat, mid: Vol, room: int)
    requires FsOk(f) && k < |f.inodes| == |g.inodes| && |f.inodes[k].direct| == NR_DIRECT_BLOCKS && start < MAX_BYTES
    requires f.inodes[k].size >= 0 && forall l: nat | l < |f.inodes| && l != k :: g.inodes[l] == f.inodes[l]
    requires WriteOutcome(Nth(f, k), Nth(g, k), buf, start, ret, stop, mid, room)
    ensures FsOk(g) <==> !Harmful(Nth(f, k), start, |buf|, room)
    ensures FsOk(g) ==> forall l: nat | l < |f.inodes| && l != k :: SameContents(Nth(f, l), Nth(g, l))
  {
    hide FsOk, FileOk, Harmful, WriteOutcome, SameContents, OthersKept;
    FileIsOk(f, k);
    WriteKeepsIff(Nth(f, k), Nth(g, k), buf, start, ret, stop, mid, room);
    if !Harmful(Nth(f, k), start, |buf|, room) {
      WriteIsLocal(Nth(f, k), Nth(g, k), buf, start, ret, stop, mid, room);
      StepKeepsOrder(f, g, k);
    } else if FsOk(g) {
      FileIsOk(g, k);
    }
  }

  lemma FileIsOk(f: Fs, k: nat)
    requires FsOk(f) && k < |f.inodes|
    ensures FileOk(Nth(f, k)) && Good(Nth(f, k)) && ThirdsUsed(Nth(f, k))
    ensures 0 <= f.inodes[k].size <= MAX_BYTES && |f.inodes[k].direct| == NR_DIRECT_BLOCKS
  {
    assert FileOk(Nth(f, k));
  }
}
