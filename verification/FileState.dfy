/**
 What every write and every removal needs of a file and keeps: nothing is mapped beyond its end, no
 third-level block is empty; and exactly which calls do not keep it (fs/read_write.c, fs/inode.c).
 */
module FileStates {
  import opened Layout
  import opened Codec
  import opened BlockMap
  import opened Volumes
  import opened Allocations
  import opened FlatFiles
  import opened Freeing

  /** The number of logical blocks the size accounts for. */
  function SizeBlocks(d: Dinode): nat
    requires d.size >= 0
  {
    DivRoundUp(d.size, BLOCK_SIZE)
  }

  /** Every data block lies below the end of the file. */
  ghost predicate Covered(v: Vol)
    requires |v.d.direct| == NR_DIRECT_BLOCKS && v.d.size >= 0
  {
    forall p | InUse(v, p) && IsData(p) :: LogOf(p) < SizeBlocks(v.d)
  }

  /** The state of a file between calls. */
  ghost predicate FileOk(v: Vol)
  {
    && Good(v) && 0 <= v.d.size <= MAX_BYTES
    && ThirdsUsed(v) && Covered(v)
    && (v.d.dindirect != 0 ==> SizeBlocks(v.d) >= FIRST_DOUBLE)
  }

  // ---- allocation fills third-level blocks

  ghost predicate FillsThirds(ps: set<Path>)
  {
    forall i: nat | Third(i) in ps :: exists j: nat :: Leaf(i, j) in ps
  }

  lemma {:induction false} RangeFillsThirds(v: Vol, lo: nat, hi: nat)
    requires hi <= MAX_FILE_SIZE && Good(v)
    ensures FillsThirds(MissingRange(v, lo, hi))
    decreases hi
  {
    hide Good, Missing;
    GoodShape(v);
    if lo < hi {
      RangeFillsThirds(v, lo, hi - 1);
      var ps := MissingRange(v, lo, hi - 1);
      forall i: nat | Third(i) in MissingRange(v, lo, hi)
        ensures exists j: nat :: Leaf(i, j) in MissingRange(v, lo, hi)
      {
        if Third(i) in ps {
          var j: nat :| Leaf(i, j) in ps;
          assert Leaf(i, j) in MissingRange(v, lo, hi);
        } else {
          ThirdMissingMeansLeaf(v, hi - 1, i);
        }
      }
    }
  }

  lemma ThirdMissingMeansLeaf(v: Vol, log: nat, i: nat)
    requires log < MAX_FILE_SIZE && Good(v) && Third(i) in Missing(v, log)
    ensures exists j: nat :: Leaf(i, j) in Missing(v, log)
  {
    var p := PathOf(log);
    assert p.Leaf? && p.i == i;
    assert At(v.disk, v.d, p) == 0;
    assert Leaf(i, p.j) in Missing(v, log);
  }

  /** The positions in use are the old ones and those that were filled. */
  lemma GrownUses(v: Vol, w: Vol, ps: set<Path>)
    requires Grown(v, w, ps)
    ensures |v.d.direct| == |w.d.direct| == NR_DIRECT_BLOCKS
    ensures forall p :: InUse(w, p) <==> InUse(v, p) || p in ps
    ensures forall p | p in ps :: ValidPath(p)
  {
    hide At;
  }

  lemma GrownKeepsThirds(v: Vol, w: Vol, ps: set<Path>)
    requires Good(v) && ThirdsUsed(v) && Grown(v, w, ps) && FillsThirds(ps)
    ensures |w.d.direct| == NR_DIRECT_BLOCKS && ThirdsUsed(w)
  {
    hide Good, Grown, InUse;
    GrownUses(v, w, ps);
    forall i: nat | i < NR_INDIRECT_BLOCKS && InUse(w, Third(i))
      ensures exists j: nat :: j < NR_INDIRECT_BLOCKS && InUse(w, Leaf(i, j))
    {
      if Third(i) in ps {
        var j: nat :| Leaf(i, j) in ps;
        assert InUse(w, Leaf(i, j));
      } else {
        assert InUse(v, Third(i));
        var j: nat :| j < NR_INDIRECT_BLOCKS && InUse(v, Leaf(i, j));
        assert InUse(w, Leaf(i, j));
      }
    }
  }

  /** After a run of blocks is written, the data positions in use are the old ones and those of the run. */
  lemma GrownData(v: Vol, w: Vol, lo: nat, hi: nat, p: Path)
    requires Good(v) && hi <= MAX_FILE_SIZE && Grown(v, w, MissingRange(v, lo, hi))
    requires InUse(w, p) && IsData(p)
    ensures InUse(v, p) || lo <= LogOf(p) < hi
  {
    if p in MissingRange(v, lo, hi) {
      PathsAreLogicalBlocks(LogOf(p), p);
      MissingRangeData(v, lo, hi, LogOf(p));
    }
  }

  // ---- where a write meets a missing double indirect block

  /** The first block of the write that is mapped through the double indirect block. */
  function FirstDoubly(start: nat): nat
  {
    if start / BLOCK_SIZE >= FIRST_DOUBLE then start / BLOCK_SIZE else FIRST_DOUBLE
  }

  /** The write comes to a missing double indirect block with exactly `k` blocks left. */
  ghost predicate MeetsRoot(v: Vol, start: nat, n: nat, room: int, k: nat)
    requires |v.d.direct| == NR_DIRECT_BLOCKS
  {
    var f := FirstDoubly(start);
    && v.d.dindirect == 0 && LastBlock(start, n) >= f && f < MAX_FILE_SIZE
    && room == |MissingRange(v, start / BLOCK_SIZE, f)| + k
  }

  lemma {:induction false} NoRootBefore(v: Vol, lo: nat, hi: nat, p: Path)
    requires Good(v) && (hi <= FIRST_DOUBLE || hi <= lo) && hi <= MAX_FILE_SIZE && p in MissingRange(v, lo, hi)
    ensures p.Direct? || p.Ind? || p.IndLeaf?
    decreases hi
  {
    hide Good, At;
    GoodShape(v);
    if lo < hi && p !in Missing(v, hi - 1) {
      NoRootBefore(v, lo, hi - 1, p);
    }
  }

  /** The first doubly indirect block of the write needs three blocks of its own. */
  lemma RootNeedsThree(v: Vol, start: nat)
    requires Good(v) && v.d.dindirect == 0 && FirstDoubly(start) < MAX_FILE_SIZE
    ensures var lo, f := start / BLOCK_SIZE, FirstDoubly(start);
            |MissingRange(v, lo, f + 1)| == |MissingRange(v, lo, f)| + 3 && Dind in MissingRange(v, lo, f + 1)
  {
    hide Good, Way, PathOf, At;
    GoodShape(v);
    var lo, f := start / BLOCK_SIZE, FirstDoubly(start);
    var n := f - FIRST_DOUBLE;
    var ps, i, j := MissingRange(v, lo, f), n / NR_INDIRECT_BLOCKS, n % NR_INDIRECT_BLOCKS;
    WayDouble(v, n);
    NullsBelow(v, i, j);
    var three := {Dind, Third(i), Leaf(i, j)};
    assert Missing(v, f) == three;
    forall q | q in ps ensures q !in three {
      NoRootBefore(v, lo, f, q);
    }
    assert |ps + three| == |ps| + |three|;
  }

  lemma MeetsRootStops(v: Vol, w: Vol, buf: seq<byte>, start: nat, ret: int, stop: nat, mid: Vol, room: int, k: nat)
    requires Good(v) && start < MAX_BYTES && WriteOutcome(v, w, buf, start, ret, stop, mid, room) && k < 3
    requires |v.d.direct| == NR_DIRECT_BLOCKS && MeetsRoot(v, start, |buf|, room, k)
    ensures ret == -ENOSPC && stop == FirstDoubly(start)
  {
    hide MissingRange, AllocationOutcome, Wrote, Missing, Grown, Good;
    var lo, f := start / BLOCK_SIZE, FirstDoubly(start);
    RootNeedsThree(v, start);
    if ret >= 0 {
      RangeSizeMonotone(v, lo, f + 1, LastBlock(start, |buf|) + 1);
    } else if ret == -EFBIG {
      RangeSizeMonotone(v, lo, f + 1, MAX_FILE_SIZE);
    } else if stop < f {
      RangeSizeMonotone(v, lo, stop + 1, f);
    } else if stop > f {
      RangeSizeMonotone(v, lo, f + 1, stop);
    }
  }

  /** Stopping at a missing double indirect block with `k` blocks left is decided before the write starts. */
  lemma MeetsRootIff(v: Vol, w: Vol, buf: seq<byte>, start: nat, ret: int, stop: nat, mid: Vol, room: int, k: nat)
    requires Good(v) && start < MAX_BYTES && WriteOutcome(v, w, buf, start, ret, stop, mid, room) && k < 3
    ensures MeetsRoot(v, start, |buf|, room, k) <==>
            && ret == -ENOSPC && stop >= FIRST_DOUBLE && mid.d.dindirect == 0
            && room - |MissingRange(v, start / BLOCK_SIZE, stop)| == k
  {
    hide MissingRange, AllocationOutcome, Good;
    if MeetsRoot(v, start, |buf|, room, k) {
      MeetsRootStops(v, w, buf, start, ret, stop, mid, room, k);
      RootStillMissing(v, mid, start);
    } else if ret == -ENOSPC && stop >= FIRST_DOUBLE && mid.d.dindirect == 0 {
      RootMissingMeans(v, mid, start, stop);
    }
  }

  lemma RootStillMissing(v: Vol, mid: Vol, start: nat)
    requires Good(v) && v.d.dindirect == 0 && FirstDoubly(start) < MAX_FILE_SIZE
    requires Grown(v, mid, MissingRange(v, start / BLOCK_SIZE, FirstDoubly(start)))
    ensures mid.d.dindirect == 0
  {
    var lo, f := start / BLOCK_SIZE, FirstDoubly(start);
    if Dind in MissingRange(v, lo, f) {
      NoRootBefore(v, lo, f, Dind);
    }
    assert At(mid.disk, mid.d, Dind) == At(v.disk, v.d, Dind);
  }

  lemma RootMissingMeans(v: Vol, mid: Vol, start: nat, stop: nat)
    requires Good(v) && start / BLOCK_SIZE <= stop && FIRST_DOUBLE <= stop < MAX_FILE_SIZE && mid.d.dindirect == 0
    requires Grown(v, mid, MissingRange(v, start / BLOCK_SIZE, stop))
    ensures v.d.dindirect == 0 && stop == FirstDoubly(start)
  {
    hide MissingRange;
    RootInRange(v, start / BLOCK_SIZE, stop);
    assert At(mid.disk, mid.d, Dind) == 0;
    assert At(v.disk, v.d, Dind) == 0;
  }

  /** A run with a doubly indirect block in it needs the double indirect block. */
  lemma RootInRange(v: Vol, lo: nat, hi: nat)
    requires Good(v) && hi <= MAX_FILE_SIZE && |v.d.direct| == NR_DIRECT_BLOCKS
    ensures v.d.dindirect == 0 && lo < hi && FIRST_DOUBLE < hi ==> Dind in MissingRange(v, lo, hi)
  {
    hide Good;
    if v.d.dindirect == 0 && lo < hi && FIRST_DOUBLE < hi {
      assert Dind in Way(hi - 1) && At(v.disk, v.d, Dind) == 0;
    }
  }

  // ---- what every write keeps

  /** The size does not matter for the tree. */
  lemma SizeAside(w: Vol, m: Vol)
    requires m == Sized(w, m.d.size)
    ensures Good(w) <==> Good(m)
    ensures |w.d.direct| == NR_DIRECT_BLOCKS ==> forall p :: InUse(w, p) <==> InUse(m, p)
    ensures |w.d.direct| == NR_DIRECT_BLOCKS ==> (ThirdsUsed(w) <==> ThirdsUsed(m))
  {
    if |w.d.direct| == NR_DIRECT_BLOCKS {
      SameDataSameTree(w.disk, w.d, m.disk, m.d);
      assert forall b :: Named(w.disk, w.d, b) <==> Named(m.disk, m.d, b);
      assert Tree(w.disk, w.d) == Tree(m.disk, m.d);
      assert forall p :: InUse(w, p) <==> InUse(m, p);
    }
  }

  /** A file as long as a file can be covers whatever is mapped. */
  lemma LongestIsOk(w: Vol)
    requires Good(w) && ThirdsUsed(w) && w.d.size == MAX_BYTES
    ensures FileOk(w)
  {
  }

  /** A run of blocks was written and the size reaches beyond it. */
  lemma RunIsOk(v: Vol, m: Vol, w: Vol, lo: nat, hi: nat)
    requires FileOk(v) && lo < hi <= MAX_FILE_SIZE && Grown(v, m, MissingRange(v, lo, hi))
    requires m == Sized(w, m.d.size) && v.d.size <= w.d.size <= MAX_BYTES && hi <= SizeBlocks(w.d)
    ensures FileOk(w)
  {
    SizeAside(w, m);
    RangeFillsThirds(v, lo, hi);
    GrownKeepsThirds(v, m, MissingRange(v, lo, hi));
    forall p | InUse(w, p) && IsData(p) ensures LogOf(p) < SizeBlocks(w.d) {
      GrownData(v, m, lo, hi, p);
    }
    if w.d.dindirect != 0 {
      assert At(m.disk, m.d, Dind) != 0;
      if v.d.dindirect == 0 {
        assert At(v.disk, v.d, Dind) == 0;
        if hi <= FIRST_DOUBLE {
          NoRootBefore(v, lo, hi, Dind);
        }
      }
    }
  }

  /** Nothing was filled, or just an empty double indirect block below the size. */
  lemma StoppedIsOk(v: Vol, w: Vol, root: bool)
    requires FileOk(v) && Good(w) && w.d.size == v.d.size && |v.d.direct| == |w.d.direct| == NR_DIRECT_BLOCKS
    requires forall p | ValidPath(p) && !(root && p == Dind) :: At(w.disk, w.d, p) == At(v.disk, v.d, p)
    ensures FileOk(w) <==> (w.d.dindirect != 0 ==> SizeBlocks(w.d) >= FIRST_DOUBLE)
  {
    hide Good, At;
    forall i: nat | i < NR_INDIRECT_BLOCKS && InUse(w, Third(i))
      ensures exists j: nat :: j < NR_INDIRECT_BLOCKS && InUse(w, Leaf(i, j))
    {
      assert InUse(v, Third(i));
      var j: nat :| j < NR_INDIRECT_BLOCKS && InUse(v, Leaf(i, j));
      assert InUse(w, Leaf(i, j));
    }
    forall p | InUse(w, p) && IsData(p) ensures LogOf(p) < SizeBlocks(w.d) {
      assert InUse(v, p);
    }
  }

  /**
   The writes after which the file is not in order: two blocks are left where three are needed for the first
   doubly indirect block (line 294); one is left there, and the write gives up without noting the size
   (lines 260-261, 374-375); or an empty write allocates a block beyond the end (lines 409, 424).
   */
  ghost predicate Harmful(v: Vol, start: nat, n: nat, room: int)
    requires start < MAX_BYTES && |v.d.direct| == NR_DIRECT_BLOCKS && v.d.size >= 0
  {
    || MeetsRoot(v, start, n, room, 2)
    || (MeetsRoot(v, start, n, room, 1) &&
        FIRST_DOUBLE <= start / BLOCK_SIZE < LastBlock(start, n) && SizeBlocks(v.d) < FIRST_DOUBLE)
    || (n == 0 && start / BLOCK_SIZE >= SizeBlocks(v.d) && Phys(v.disk, v.d, start / BLOCK_SIZE) == 0 &&
        room >= |Missing(v, start / BLOCK_SIZE)|)
  }

  lemma LastBlockBound(start: nat, n: nat)
    ensures start / BLOCK_SIZE <= LastBlock(start, n)
    ensures n > 0 ==> LastBlock(start, n) == (start + n - 1) / BLOCK_SIZE < DivRoundUp(start + n, BLOCK_SIZE)
    ensures n == 0 ==> LastBlock(start, n) == start / BLOCK_SIZE
    ensures n > 0 && LastBlock(start, n) < MAX_FILE_SIZE ==> start + n <= MAX_BYTES
  {
  }

  lemma SizeBlocksMonotone(a: nat, b: nat)
    requires a <= b
    ensures DivRoundUp(a, BLOCK_SIZE) <= DivRoundUp(b, BLOCK_SIZE)
  {
  }

  /** A write that ends well. */
  lemma SuccessIsOk(v: Vol, w: Vol, buf: seq<byte>, start: nat, ret: int, stop: nat, mid: Vol, room: int)
    requires FileOk(v) && start < MAX_BYTES && |buf| > 0
    requires WriteOutcome(v, w, buf, start, ret, stop, mid, room) && ret >= 0
    ensures FileOk(w)
  {
    hide MissingRange, Grown, Missing, Written, AllocationOutcome, LastBlock, ThirdsUsed, Covered, Good;
    LastBlockBound(start, |buf|);
    SizeBlocksMonotone(start + |buf|, w.d.size);
    RunIsOk(v, Sized(w, v.d.size), w, start / BLOCK_SIZE, LastBlock(start, |buf|) + 1);
  }

  /** A write of no bytes still allocates its block. */
  lemma EmptyIsOkIff(v: Vol, w: Vol, start: nat, ret: int, stop: nat, mid: Vol, room: int)
    requires FileOk(v) && start < MAX_BYTES
    requires WriteOutcome(v, w, [], start, ret, stop, mid, room) && ret >= 0
    ensures FileOk(w) <==> !(start / BLOCK_SIZE >= SizeBlocks(v.d) && Phys(v.disk, v.d, start / BLOCK_SIZE) == 0)
  {
    var lo := start / BLOCK_SIZE;
    LastBlockBound(start, 0);
    assert MissingRange(v, lo, lo) == {};
    assert MissingRange(v, lo, lo + 1) == Missing(v, lo);
    EmptyRun(v, w, lo);
  }

  lemma EmptyRun(v: Vol, w: Vol, lo: nat)
    requires FileOk(v) && lo < MAX_FILE_SIZE && Grown(v, Sized(w, v.d.size), Missing(v, lo)) && w.d.size == v.d.size
    requires MissingRange(v, lo, lo + 1) == Missing(v, lo)
    ensures FileOk(w) <==> !(lo >= SizeBlocks(v.d) && Phys(v.disk, v.d, lo) == 0)
  {
    hide FileOk, Good, At, Grown, Missing, ThirdsUsed;
    OkIsGood(v);
    GrownIsGood(v, w, Missing(v, lo));
    assert Sized(w, v.d.size) == w;
    if Phys(v.disk, v.d, lo) != 0 {
      SameIsOk(v, w, lo);
    } else if lo < SizeBlocks(v.d) {
      OkSize(v);
      RunIsOk(v, w, w, lo, lo + 1);
    } else {
      NewIsBeyond(v, w, lo);
    }
  }

  lemma OkSize(v: Vol)
    requires FileOk(v)
    ensures 0 <= v.d.size <= MAX_BYTES
  {
  }

  lemma SameIsOk(v: Vol, w: Vol, lo: nat)
    requires FileOk(v) && lo < MAX_FILE_SIZE && Grown(v, w, Missing(v, lo)) && Phys(v.disk, v.d, lo) != 0
    ensures FileOk(w)
  {
    hide Good, ThirdsUsed, Covered, Missing;
    OkIsGood(v);
    GrownIsGood(v, w, Missing(v, lo));
    NoneMissing(v, lo);
    StoppedIsOk(v, w, false);
    assert At(w.disk, w.d, Dind) == At(v.disk, v.d, Dind);
    assert At(v.disk, v.d, Dind) == v.d.dindirect && At(w.disk, w.d, Dind) == w.d.dindirect;
  }

  lemma NewIsBeyond(v: Vol, w: Vol, lo: nat)
    requires |v.d.direct| == NR_DIRECT_BLOCKS && v.d.size >= 0 && lo < MAX_FILE_SIZE && w.d.size == v.d.size
    requires Grown(v, w, Missing(v, lo)) && Phys(v.disk, v.d, lo) == 0 && lo >= SizeBlocks(v.d)
    ensures !FileOk(w)
  {
    hide Good, ThirdsUsed;
    PathsAreLogicalBlocks(lo, PathOf(lo));
    assert PathOf(lo) in Missing(v, lo);
    GrownIsGood(v, w, Missing(v, lo));
    assert InUse(w, PathOf(lo)) && LogOf(PathOf(lo)) == lo;
    assert !Covered(w);
  }

  /** A write that asked for more than the largest file. */
  lemma TooLongIsOk(v: Vol, w: Vol, buf: seq<byte>, start: nat, stop: nat, mid: Vol, room: int)
    requires FileOk(v) && start < MAX_BYTES
    requires WriteOutcome(v, w, buf, start, -EFBIG, stop, mid, room)
    ensures FileOk(w)
  {
    hide MissingRange, Missing, Written, AllocationOutcome, LastBlock, Covered;
    var lo := start / BLOCK_SIZE;
    var m := Sized(w, v.d.size);
    RangeFillsThirds(v, lo, MAX_FILE_SIZE);
    GrownKeepsThirds(v, m, MissingRange(v, lo, MAX_FILE_SIZE));
    SizeAside(w, m);
    LongestIsOk(w);
  }

  /** A failed allocation that is not the leaking one leaves all positions as they were, but perhaps a new root. */
  lemma FailedAllocation(m: Vol, x: Vol, log: nat, ret: int, left: int)
    requires Good(m) && log < MAX_FILE_SIZE && left < |Missing(m, log)| && left >= 0
    requires AllocationOutcome(m, x, log, ret, left)
    ensures Good(x) <==> !Leaks(m, log, left)
    ensures !Leaks(m, log, left) ==>
              forall p | ValidPath(p) && !(Strands(m, log, left) && p == Dind) :: At(x.disk, x.d, p) == At(m.disk, m.d, p)
    ensures Strands(m, log, left) ==> x.d.dindirect != 0
  {
    NoneMissing(m, log);
    GoodIff(m, x, log, ret, left);
    if Strands(m, log, left) {
      assert At(x.disk, x.d, Dind) == x.d.dindirect;
    } else if !Leaks(m, log, left) {
      SameDataSameTree(m.disk, m.d, x.disk, x.d);
    }
  }

  lemma ThirdsFollow(m: Vol, x: Vol)
    requires |m.d.direct| == |x.d.direct| == NR_DIRECT_BLOCKS && ThirdsUsed(m)
    requires forall p | ValidPath(p) && p != Dind :: At(x.disk, x.d, p) == At(m.disk, m.d, p)
    ensures ThirdsUsed(x)
  {
    forall i: nat | i < NR_INDIRECT_BLOCKS && InUse(x, Third(i))
      ensures exists j: nat :: j < NR_INDIRECT_BLOCKS && InUse(x, Leaf(i, j))
    {
      assert InUse(m, Third(i));
      var j: nat :| j < NR_INDIRECT_BLOCKS && InUse(m, Leaf(i, j));
      assert InUse(x, Leaf(i, j));
    }
  }

  /** A write that stops for lack of room, and notes the largest size. */
  lemma StopNotedIsOkIff(v: Vol, mid: Vol, w: Vol, lo: nat, stop: nat, ret: int, left: int)
    requires FileOk(v) && lo <= stop < MAX_FILE_SIZE && Grown(v, mid, MissingRange(v, lo, stop))
    requires 0 <= left < |Missing(mid, stop)| && AllocationOutcome(mid, Sized(w, v.d.size), stop, ret, left)
    requires w.d.size == MAX_BYTES
    ensures FileOk(w) <==> !Leaks(mid, stop, left)
  {
    var x := Sized(w, v.d.size);
    SizeAside(w, x);
    FailedAllocation(mid, x, stop, ret, left);
    if !Leaks(mid, stop, left) {
      RangeFillsThirds(v, lo, stop);
      GrownKeepsThirds(v, mid, MissingRange(v, lo, stop));
      ThirdsFollow(mid, x);
      LongestIsOk(w);
    }
  }

  /** A write that stops at its first block, with more blocks to come: the size is not noted. */
  lemma StopAtOnceIsOkIff(v: Vol, mid: Vol, w: Vol, lo: nat, ret: int, left: int)
    requires FileOk(v) && lo < MAX_FILE_SIZE && Grown(v, mid, {})
    requires 0 <= left < |Missing(mid, lo)| && AllocationOutcome(mid, w, lo, ret, left)
    requires w.d.size == v.d.size
    ensures FileOk(w) <==> !Leaks(mid, lo, left) && !(Strands(mid, lo, left) && SizeBlocks(v.d) < FIRST_DOUBLE)
  {
    FailedAllocation(mid, w, lo, ret, left);
    if !Leaks(mid, lo, left) {
      StoppedIsOk(v, w, Strands(mid, lo, left));
      if !Strands(mid, lo, left) {
        assert At(w.disk, w.d, Dind) == At(v.disk, v.d, Dind);
      }
    }
  }

  lemma StopIsOkIff(v: Vol, w: Vol, buf: seq<byte>, start: nat, ret: int, stop: nat, mid: Vol, room: int)
    requires FileOk(v) && start < MAX_BYTES
    requires WriteOutcome(v, w, buf, start, ret, stop, mid, room) && ret == -ENOSPC
    ensures var lo, left := start / BLOCK_SIZE, room - |MissingRange(v, start / BLOCK_SIZE, stop)|;
            FileOk(w) <==>
            !Leaks(mid, stop, left) &&
            !(Strands(mid, stop, left) && stop == lo < LastBlock(start, |buf|) && SizeBlocks(v.d) < FIRST_DOUBLE)
  {
    hide AllocationOutcome, LastBlock, ThirdsUsed, Covered, MissingRange, Missing, Grown, FileOk;
    var lo, left := start / BLOCK_SIZE, room - |MissingRange(v, start / BLOCK_SIZE, stop)|;
    OkIsGood(v);
    MissingNext(v, mid, lo, stop);
    if stop == lo < LastBlock(start, |buf|) {
      NothingMissing(v, lo);
      assert Sized(w, v.d.size) == w;
      StopAtOnceIsOkIff(v, mid, w, lo, ret, left);
    } else {
      StopNotedIsOkIff(v, mid, w, lo, stop, ret, left);
    }
  }

  lemma OkIsGood(v: Vol)
    requires FileOk(v)
    ensures Good(v) && |v.d.direct| == NR_DIRECT_BLOCKS && 0 <= v.d.size <= MAX_BYTES
  {
  }

  lemma NothingMissing(v: Vol, lo: nat)
    requires lo <= MAX_FILE_SIZE && |v.d.direct| == NR_DIRECT_BLOCKS
    ensures MissingRange(v, lo, lo) == {}
  {
  }

  /** A write keeps the file in order exactly when it is not one of the harmful ones. */
  lemma WriteKeepsIff(v: Vol, w: Vol, buf: seq<byte>, start: nat, ret: int, stop: nat, mid: Vol, room: int)
    requires FileOk(v) && start < MAX_BYTES
    requires WriteOutcome(v, w, buf, start, ret, stop, mid, room)
    ensures FileOk(w) <==> !Harmful(v, start, |buf|, room)
  {
    hide AllocationOutcome, LastBlock, ThirdsUsed, Covered, MissingRange, Missing, Grown, FileOk, MeetsRoot, Wrote;
    OkIsGood(v);
    LastBlockBound(start, |buf|);
    MeetsRootIff(v, w, buf, start, ret, stop, mid, room, 1);
    MeetsRootIff(v, w, buf, start, ret, stop, mid, room, 2);
    if ret >= 0 {
      if |buf| > 0 {
        SuccessIsOk(v, w, buf, start, ret, stop, mid, room);
      } else {
        assert buf == [];
        EmptyIsOkIff(v, w, start, ret, stop, mid, room);
        EmptyFits(v, start, room);
      }
    } else if ret == -EFBIG {
      TooLongIsOk(v, w, buf, start, stop, mid, room);
    } else {
      StopIsOkIff(v, w, buf, start, ret, stop, mid, room);
      EmptyFits(v, start, room);
      if MeetsRoot(v, start, |buf|, room, 1) {
        MeetsRootStops(v, w, buf, start, ret, stop, mid, room, 1);
      }
    }
  }

  /** An empty write succeeds when its one block can be had. */
  lemma EmptyFits(v: Vol, start: nat, room: int)
    requires Good(v) && start < MAX_BYTES
    ensures |MissingRange(v, start / BLOCK_SIZE, start / BLOCK_SIZE + 1)| == |Missing(v, start / BLOCK_SIZE)|
  {
    assert MissingRange(v, start / BLOCK_SIZE, start / BLOCK_SIZE) == {};
    assert MissingRange(v, start / BLOCK_SIZE, start / BLOCK_SIZE + 1) == Missing(v, start / BLOCK_SIZE);
  }

  // ---- which files can be removed

  /** Of a file that is in order, all blocks are freed unless the counted walk below the double indirect block falls short. */
  lemma RemovableIff(v: Vol)
    requires FileOk(v)
    ensures FreeGuard(v) <==> v.d.dindirect == 0 || |Below(v)| <= SizeBlocks(v.d) - FIRST_DOUBLE + 1
  {
    assert forall p | InUse(v, p) && (p.Direct? || p.IndLeaf?) :: IsData(p);
  }

  /** The first `n` data positions below the double indirect block. */
  ghost function DoublyPaths(n: nat): (ps: set<Path>)
    requires n <= NR_INDIRECT_BLOCKS * NR_INDIRECT_BLOCKS
    ensures |ps| == n
    ensures forall p | p in ps :: p.Leaf? && ValidPath(p) && LogOf(p) < FIRST_DOUBLE + n
    ensures forall p: Path | p.Leaf? && ValidPath(p) && LogOf(p) < FIRST_DOUBLE + n :: p in ps
  {
    if n == 0 then {} else
      var log := FIRST_DOUBLE + n - 1;
      assert LogOf(PathOf(log)) == log;
      assert forall p: Path | p.Leaf? && ValidPath(p) && LogOf(p) == log :: p == PathOf(log);
      DoublyPaths(n - 1) + {PathOf(log)}
  }

  lemma EarlyBelow(v: Vol, p: Path)
    requires FileOk(v) && FIRST_DOUBLE <= SizeBlocks(v.d) <= FIRST_DOUBLE + NR_INDIRECT_BLOCKS && p in Below(v)
    ensures p == Third(0) || (p.Leaf? && ValidPath(p) && LogOf(p) < SizeBlocks(v.d))
  {
    BelowForm(v, p);
    if p.Third? {
      var j: nat :| j < NR_INDIRECT_BLOCKS && InUse(v, Leaf(p.i, j));
      assert IsData(Leaf(p.i, j)) && LogOf(Leaf(p.i, j)) < SizeBlocks(v.d);
    } else {
      assert IsData(p);
    }
  }

  /** Files of up to 2048 doubly indirect blocks can always be removed. */
  lemma ShortIsRemovable(v: Vol)
    requires FileOk(v) && SizeBlocks(v.d) <= FIRST_DOUBLE + NR_INDIRECT_BLOCKS
    ensures FreeGuard(v)
  {
    hide Below, DoublyPaths, FreeGuard, Covered, ThirdsUsed, Good;
    OkIsGood(v);
    RemovableIff(v);
    if v.d.dindirect != 0 {
      var n := SizeBlocks(v.d) - FIRST_DOUBLE;
      var most := DoublyPaths(n) + {Third(0)};
      forall p | p in Below(v) ensures p in most {
        EarlyBelow(v, p);
      }
      assert most == Below(v) + (most - Below(v));
      assert |most| <= n + 1;
    }
  }

  lemma BelowNeedsRoot(v: Vol, p: Path)
    requires Good(v) && InUse(v, p) && p.Leaf?
    ensures v.d.dindirect != 0
  {
  }

  /** A file without holes of more than 2048 doubly indirect blocks cannot: its last blocks stay allocated. */
  lemma DenseIsNotRemovable(v: Vol)
    requires FileOk(v) && SizeBlocks(v.d) > FIRST_DOUBLE + NR_INDIRECT_BLOCKS
    requires forall p: Path | p.Leaf? && ValidPath(p) && LogOf(p) < SizeBlocks(v.d) :: InUse(v, p)
    ensures !FreeGuard(v)
  {
    hide Below, DoublyPaths, FreeGuard, FileOk, At, InUse;
    OkIsGood(v);
    var n := SizeBlocks(v.d) - FIRST_DOUBLE;
    var some := DoublyPaths(n) + {Third(0), Third(1)};
    LeafNeedsThird(v, 0, 0);
    LeafNeedsThird(v, 1, 0);
    BelowNeedsRoot(v, Leaf(0, 0));
    forall p | p in some ensures p in Below(v) {
      BelowForm(v, p);
    }
    assert |some| == n + 2;
    var others := Below(v) - some;
    assert Below(v) == some + others;
    RemovableIff(v);
  }

  // ---- a file that something happens beside

  /** A file whose blocks stay allocated and unchanged stays in order, with the same tree and contents. */
  lemma Beside(v: Vol, w: Vol)
    requires FileOk(v) && w.d == v.d && |v.d.direct| == NR_DIRECT_BLOCKS && FreeIsZero(w)
    requires forall b | b in Tree(v.disk, v.d) :: b in w.alloc && w.disk[b] == v.disk[b]
    ensures FileOk(w) && Tree(w.disk, w.d) == Tree(v.disk, v.d) && SameContents(v, w)
    ensures forall p | ValidPath(p) :: At(w.disk, w.d, p) == At(v.disk, v.d, p)
  {
    Untouched(v.disk, v.d, w.disk);
    assert Good(w);
    assert forall p :: InUse(w, p) == InUse(v, p);
    ThirdsFollow(v, w);
  }
}
