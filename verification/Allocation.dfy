/**
 Allocating a logical block, as values: which blocks are missing, what each step leaves behind, and the
 outcome for every amount of room (testfs_allocate_block in fs/read_write.c).
 */
module Allocations {
  import opened Layout
  import opened Codec
  import opened Supers
  import opened BlockMap
  import opened Volumes

  const FIRST_DOUBLE := NR_DIRECT_BLOCKS + NR_INDIRECT_BLOCKS  // the first logical block mapped through i_dindirect

  lemma MissingDirect(v: Vol, log: nat)
    requires log < NR_DIRECT_BLOCKS && |v.d.direct| == NR_DIRECT_BLOCKS && Phys(v.disk, v.d, log) == 0
    ensures Missing(v, log) == {Direct(log)} && |Missing(v, log)| == 1
  {
  }

  lemma MissingIndirect(v: Vol, k: nat)
    requires Good(v) && k < NR_INDIRECT_BLOCKS && Phys(v.disk, v.d, NR_DIRECT_BLOCKS + k) == 0
    ensures At(v.disk, v.d, IndLeaf(k)) == 0
    ensures Missing(v, NR_DIRECT_BLOCKS + k) == {IndLeaf(k)} + if v.d.indirect == 0 then {Ind} else {}
    ensures |Missing(v, NR_DIRECT_BLOCKS + k)| == 1 + if v.d.indirect == 0 then 1 else 0
  {
  }

  /** An empty position got block `phy`, and no contents changed. */
  ghost predicate Hung(v: Vol, w: Vol, p: Path, phy: int)
  {
    && ValidPath(p) && Grown(v, w, {p}) && SameContents(v, w)
    && phy == At(w.disk, w.d, p) && phy > 0
  }

  /** What the second step starts from. */
  lemma AfterIndirect(v: Vol, v1: Vol, k: nat)
    requires Good(v) && k < NR_INDIRECT_BLOCKS && At(v.disk, v.d, IndLeaf(k)) == 0
    requires if v.d.indirect == 0 then FreshRoot(v, v1, Ind) else v1 == v
    ensures Good(v1) && At(v1.disk, v1.d, IndLeaf(k)) == 0
    ensures At(v1.disk, v1.d, Ind) == v1.d.indirect && At(v.disk, v.d, Ind) == v.d.indirect
    ensures v.d.indirect == 0 ==> DataBlock(v1.d.indirect) && v1.d.dindirect == v.d.dindirect && v1.d.direct == v.d.direct
  {
  }

  lemma IndirectDone(v: Vol, v1: Vol, w: Vol, k: nat, phy: int)
    requires Good(v) && k < NR_INDIRECT_BLOCKS && Phys(v.disk, v.d, NR_DIRECT_BLOCKS + k) == 0
    requires if v.d.indirect == 0 then FreshRoot(v, v1, Ind) else v1 == v
    requires Hung(v1, w, IndLeaf(k), phy)
    ensures Allocated(v, w, NR_DIRECT_BLOCKS + k, phy)
  {
    MissingIndirect(v, k);
    if v.d.indirect == 0 {
      GrownTrans(v, v1, w, {Ind}, {IndLeaf(k)});
    }
  }

  /** Freeing the fresh root and clearing its field undoes the allocation. */
  lemma RootUndone(v: Vol, v1: Vol, w: Vol, root: Path)
    requires Good(v) && FreshRoot(v, v1, root) && At(v.disk, v.d, root) == 0
    requires var b := At(v1.disk, v1.d, root);
             var u := w.(d := if root == Ind then w.d.(indirect := b) else w.d.(dindirect := b));
             Released(v1, u, b)
    requires (if root == Ind then w.d.indirect else w.d.dindirect) == 0
    ensures Undone(v, w)
  {
  }

  /** A third-level position of an existing double indirect block got a block of zeros. */
  ghost predicate FreshThird(v: Vol, w: Vol, i: nat)
    requires i < NR_INDIRECT_BLOCKS
  {
    && |v.d.direct| == |w.d.direct| == NR_DIRECT_BLOCKS && DataBlock(v.d.dindirect)
    && Grown(v, w, {Third(i)}) && SameContents(v, w)
    && var b := At(w.disk, w.d, Third(i));
       && DataBlock(b) && b !in v.alloc && w.disk[b] == ZERO_BLOCK
       && w.alloc == v.alloc + {b}
       && w.d == v.d.(blockCount := v.d.blockCount + 1)
       && Ptr(v.disk[v.d.dindirect], i) == 0
       && SameData(v.disk[v.d.dindirect := SetPtr(v.disk[v.d.dindirect], i, b)], w.disk)
  }

  lemma ThirdEntry(v: Vol, w: Vol, i: nat)
    requires i < NR_INDIRECT_BLOCKS && Good(v) && FreshThird(v, w, i)
    ensures w.d.dindirect == v.d.dindirect && v.d.dindirect in v.alloc && DataBlock(v.d.dindirect)
    ensures At(w.disk, w.d, Third(i)) == Ptr(w.disk[w.d.dindirect], i) != w.d.dindirect
    ensures w.disk[w.d.dindirect] == SetPtr(v.disk[v.d.dindirect], i, At(w.disk, w.d, Third(i)))
  {
    assert At(v.disk, v.d, Dind) == v.d.dindirect;
  }

  lemma ThirdUndone(v: Vol, v2: Vol, u: Vol, w: Vol, i: nat)
    requires i < NR_INDIRECT_BLOCKS && Good(v) && FreshThird(v, v2, i)
    requires Released(v2, u, At(v2.disk, v2.d, Third(i)))
    requires DataBlock(v.d.dindirect)
    requires w == u.(disk := u.disk[v.d.dindirect := SetPtr(v2.disk[v.d.dindirect], i, 0)])
    ensures Undone(v, w)
  {
    ThirdEntry(v, v2, i);
    SetPtrUndone(v.disk[v.d.dindirect], i, At(v2.disk, v2.d, Third(i)));
  }

  ghost function RootMissing(v: Vol): set<Path>
  {
    if v.d.dindirect == 0 then {Dind} else {}
  }

  ghost function ThirdMissing(v: Vol, i: nat): set<Path>
    requires |v.d.direct| == NR_DIRECT_BLOCKS && i < NR_INDIRECT_BLOCKS
  {
    if At(v.disk, v.d, Third(i)) == 0 then {Third(i)} else {}
  }

  lemma MissingDouble(v: Vol, n: nat)
    requires Good(v) && n < NR_INDIRECT_BLOCKS * NR_INDIRECT_BLOCKS && Phys(v.disk, v.d, FIRST_DOUBLE + n) == 0
    ensures var i, j := n / NR_INDIRECT_BLOCKS, n % NR_INDIRECT_BLOCKS;
            var missing := Missing(v, FIRST_DOUBLE + n);
            var dind, third := v.d.dindirect == 0, At(v.disk, v.d, Third(i)) == 0;
            && |v.d.direct| == NR_DIRECT_BLOCKS && At(v.disk, v.d, Leaf(i, j)) == 0 && (dind ==> third)
            && missing == RootMissing(v) + ThirdMissing(v, i) + {Leaf(i, j)}
            && |missing| == 1 + (if dind then 1 else 0) + (if third then 1 else 0)
  {
    hide Good, Way, PathOf;
    var i, j := n / NR_INDIRECT_BLOCKS, n % NR_INDIRECT_BLOCKS;
    WayDouble(v, n);
    NullsBelow(v, i, j);
    assert Missing(v, FIRST_DOUBLE + n) == {Leaf(i, j)} + (RootMissing(v) + ThirdMissing(v, i));
  }

  lemma WayDouble(v: Vol, n: nat)
    requires Good(v) && n < NR_INDIRECT_BLOCKS * NR_INDIRECT_BLOCKS
    ensures var p := Leaf(n / NR_INDIRECT_BLOCKS, n % NR_INDIRECT_BLOCKS);
            PathOf(FIRST_DOUBLE + n) == p && ValidPath(p) && Way(FIRST_DOUBLE + n) == {Dind, Third(p.i), p}
    ensures |v.d.direct| == NR_DIRECT_BLOCKS
  {
  }

  /** Nothing is below an index block that is not there. */
  lemma NullsBelow(v: Vol, i: nat, j: nat)
    requires i < NR_INDIRECT_BLOCKS && j < NR_INDIRECT_BLOCKS && |v.d.direct| == NR_DIRECT_BLOCKS
    ensures At(v.disk, v.d, Dind) == v.d.dindirect
    ensures v.d.dindirect == 0 ==> At(v.disk, v.d, Third(i)) == 0
    ensures At(v.disk, v.d, Third(i)) == 0 ==> At(v.disk, v.d, Leaf(i, j)) == 0
  {
  }

  lemma DoubleDone(v: Vol, v1: Vol, v2: Vol, w: Vol, n: nat, phy: int)
    requires Good(v) && n < NR_INDIRECT_BLOCKS * NR_INDIRECT_BLOCKS && Phys(v.disk, v.d, FIRST_DOUBLE + n) == 0
    requires Grown(v, v1, RootMissing(v)) && SameContents(v, v1)
    requires |v1.d.direct| == NR_DIRECT_BLOCKS
    requires Grown(v1, v2, ThirdMissing(v, n / NR_INDIRECT_BLOCKS)) && SameContents(v1, v2)
    requires Hung(v2, w, Leaf(n / NR_INDIRECT_BLOCKS, n % NR_INDIRECT_BLOCKS), phy)
    ensures Allocated(v, w, FIRST_DOUBLE + n, phy)
  {
    hide Grown, At;
    var i, j := n / NR_INDIRECT_BLOCKS, n % NR_INDIRECT_BLOCKS;
    MissingDouble(v, n);
    GrownTrans(v, v1, v2, RootMissing(v), ThirdMissing(v, i));
    GrownTrans(v, v2, w, RootMissing(v) + ThirdMissing(v, i), {Leaf(i, j)});
  }

  /** What the second step of the allocation starts from. */
  lemma AfterRoot(v: Vol, v1: Vol, i: nat, j: nat)
    requires Good(v) && i < NR_INDIRECT_BLOCKS && j < NR_INDIRECT_BLOCKS
    requires if v.d.dindirect == 0 then FreshRoot(v, v1, Dind) else v1 == v
    ensures Good(v1) && DataBlock(v1.d.dindirect) && v1.d.indirect == v.d.indirect
    ensures |v1.d.direct| == NR_DIRECT_BLOCKS && Grown(v, v1, RootMissing(v)) && SameContents(v, v1)
    ensures At(v1.disk, v1.d, Third(i)) == At(v.disk, v.d, Third(i)) == Ptr(v1.disk[v1.d.dindirect], i)
    ensures At(v1.disk, v1.d, Leaf(i, j)) == At(v.disk, v.d, Leaf(i, j))
  {
    assert At(v.disk, v.d, Dind) == v.d.dindirect;
    assert At(v1.disk, v1.d, Dind) == v1.d.dindirect;
  }

  /** What the third step starts from. */
  lemma AfterThird(v1: Vol, v2: Vol, i: nat, j: nat)
    requires Good(v1) && i < NR_INDIRECT_BLOCKS && j < NR_INDIRECT_BLOCKS && At(v1.disk, v1.d, Leaf(i, j)) == 0
    requires if At(v1.disk, v1.d, Third(i)) == 0 then FreshThird(v1, v2, i) else v2 == v1
    ensures Good(v2) && |v2.d.direct| == NR_DIRECT_BLOCKS && At(v2.disk, v2.d, Leaf(i, j)) == 0
    ensures Grown(v1, v2, ThirdMissing(v1, i)) && SameContents(v1, v2)
  {
    hide Grown, SameContents, Good, At;
    GoodShape(v1);
    GrownByNothing(v1);
    if At(v1.disk, v1.d, Third(i)) == 0 {
      GrownIsGood(v1, v2, {Third(i)});
      GrownBeside(v1, v2, {Third(i)}, Leaf(i, j));
    }
  }

  lemma GrownByNothing(v: Vol)
    requires Good(v)
    ensures Grown(v, v, {}) && SameContents(v, v)
  {
  }

  lemma NothingDone(v: Vol)
    ensures Undone(v, v)
  {
  }

  /** The outcome of allocating a logical block that is a hole, for every amount of room. */
  ghost predicate AllocationOutcome(v: Vol, w: Vol, log: nat, phy: int, room: int)
    requires log < MAX_FILE_SIZE && |v.d.direct| == NR_DIRECT_BLOCKS
  {
    if room >= |Missing(v, log)| then Allocated(v, w, log, phy)
    else
      && phy == -ENOSPC
      && if Strands(v, log, room) then FreshRoot(v, w, Dind)
         else if Leaks(v, log, room) then Leaked(v, w)
         else Undone(v, w)
  }

  /** Only the double indirect block can be had: it stays, empty (lines 260-261). */
  ghost predicate Strands(v: Vol, log: nat, room: int)
  {
    log >= FIRST_DOUBLE && v.d.dindirect == 0 && room == 1
  }

  /** The data block is the one that cannot be had, and the double indirect block is new (line 294). */
  ghost predicate Leaks(v: Vol, log: nat, room: int)
  {
    log >= FIRST_DOUBLE && v.d.dindirect == 0 && room == 2
  }

  /** A block is allocated that no inode names, and the indirect block, if any, is zeroed and free but still named. */
  ghost predicate Leaked(v: Vol, w: Vol)
  {
    exists b | DataBlock(b) && b !in v.alloc :: LeakedBlock(v, w, b)
  }

  ghost predicate LeakedBlock(v: Vol, w: Vol, b: int)
  {
    var ind := v.d.indirect;
    && w.alloc == (if ind == 0 then v.alloc + {b} else v.alloc + {b} - {ind})
    && w.d == (if ind == 0 then v.d.(blockCount := v.d.blockCount + 1) else v.d)
    && forall c | DataBlock(c) :: w.disk[c] == if c == ind then ZERO_BLOCK else v.disk[c]
  }

  lemma RootLost(v: Vol, v1: Vol, v3: Vol, u: Vol, w: Vol)
    requires Good(v) && v.d.dindirect == 0 && FreshRoot(v, v1, Dind) && Undone(v1, v3)
    requires if v3.d.indirect == 0 then u == v3 else Released(v3, u, v3.d.indirect)
    requires w == u.(d := u.d.(dindirect := 0))
    ensures Leaked(v, w)
  {
    var b := v1.d.dindirect;
    assert b == At(v1.disk, v1.d, Dind);
    assert LeakedBlock(v, w, b);
  }

  /** An index position right below the inode got a block of zeros. */
  ghost predicate FreshRoot(v: Vol, w: Vol, root: Path)
  {
    && (root == Ind || root == Dind)
    && |v.d.direct| == NR_DIRECT_BLOCKS
    && Grown(v, w, {root}) && SameContents(v, w) && SameData(v.disk, w.disk)
    && var b := At(w.disk, w.d, root);
       && DataBlock(b) && b !in v.alloc && w.disk[b] == ZERO_BLOCK
       && w.alloc == v.alloc + {b}
       && w.d == (if root == Ind then v.d.(indirect := b) else v.d.(dindirect := b)).(blockCount := v.d.blockCount + 1)
  }

  /** Block `b` is zeroed and free; nothing else but the count changes. */
  ghost predicate Released(v: Vol, w: Vol, b: int)
  {
    && w.alloc == v.alloc - {b}
    && w.d == v.d.(blockCount := v.d.blockCount - 1)
    && (forall c | DataBlock(c) :: w.disk[c] == if c == b then ZERO_BLOCK else v.disk[c])
  }

  /** A logical block got a block of its own, and so did the empty positions above it; no contents changed. */
  ghost predicate Allocated(v: Vol, w: Vol, log: nat, phy: int)
    requires log < MAX_FILE_SIZE && |v.d.direct| == NR_DIRECT_BLOCKS
  {
    && Grown(v, w, Missing(v, log)) && SameContents(v, w)
    && phy == Phys(w.disk, w.d, log) != 0
  }

  /** With room for all the missing blocks they are all allocated; with less nothing changes. */
  ghost predicate AllOrNothing(v: Vol, w: Vol, log: nat, phy: int, room: int)
    requires log < MAX_FILE_SIZE && |v.d.direct| == NR_DIRECT_BLOCKS
  {
    if room >= |Missing(v, log)| then Allocated(v, w, log, phy) else phy == -ENOSPC && Undone(v, w)
  }

  /** Everything is as before: inode, allocated blocks and the data on the device. */
  ghost predicate Undone(v: Vol, w: Vol)
  {
    w.d == v.d && w.alloc == v.alloc && SameData(v.disk, w.disk)
  }

  // ---- exactly when a failed allocation is harmless

  /** All-or-nothing holds of an allocation exactly outside the two branches that skip part of the undoing. */
  lemma AllOrNothingIff(v: Vol, w: Vol, log: nat, phy: int, room: int)
    requires Good(v) && log < MAX_FILE_SIZE && Phys(v.disk, v.d, log) == 0
    requires AllocationOutcome(v, w, log, phy, room)
    ensures AllOrNothing(v, w, log, phy, room) <==> !Strands(v, log, room) && !Leaks(v, log, room)
  {
    hide Grown, At, Missing, Good, SameContents;
    if Strands(v, log, room) {
      MissingDouble(v, log - FIRST_DOUBLE);
      StrandedTakes(v, w);
    } else if Leaks(v, log, room) {
      MissingDouble(v, log - FIRST_DOUBLE);
      LeakedTakes(v, w);
    }
  }

  /** The inode stays in order exactly outside the branch that frees the wrong block. */
  lemma GoodIff(v: Vol, w: Vol, log: nat, phy: int, room: int)
    requires Good(v) && log < MAX_FILE_SIZE && Phys(v.disk, v.d, log) == 0
    requires AllocationOutcome(v, w, log, phy, room)
    ensures Good(w) <==> !Leaks(v, log, room)
  {
    hide Good, At, Missing, Grown, SameContents, Leaked, Undone;
    GoodShape(v);
    if Strands(v, log, room) || Leaks(v, log, room) {
      MissingDouble(v, log - FIRST_DOUBLE);
    }
    if Leaks(v, log, room) {
      LeakedIsBad(v, w);
    } else if room < |Missing(v, log)| && !Strands(v, log, room) {
      UndoneIsGood(v, w);
    } else if Strands(v, log, room) {
      GrownIsGood(v, w, {Dind});
    } else {
      GrownIsGood(v, w, Missing(v, log));
    }
  }

  lemma GoodShape(v: Vol)
    requires Good(v)
    ensures |v.d.direct| == NR_DIRECT_BLOCKS
  {
  }

  lemma GrownIsGood(v: Vol, w: Vol, ps: set<Path>)
    requires Grown(v, w, ps)
    ensures Good(w) && |w.d.direct| == NR_DIRECT_BLOCKS
  {
  }

  lemma UndoneIsGood(v: Vol, w: Vol)
    requires Good(v) && Undone(v, w)
    ensures Good(w)
  {
    Untouched(v.disk, v.d, w.disk);
  }

  lemma StrandedTakes(v: Vol, w: Vol)
    requires FreshRoot(v, w, Dind)
    ensures w.alloc != v.alloc
  {
    assert At(w.disk, w.d, Dind) in w.alloc;
  }

  lemma LeakedTakes(v: Vol, w: Vol)
    requires Good(v) && Leaked(v, w)
    ensures w.alloc != v.alloc
  {
    var b :| DataBlock(b) && b !in v.alloc && LeakedBlock(v, w, b);
    assert v.d.indirect == At(v.disk, v.d, Ind);
    assert b in w.alloc;
  }

  lemma LeakedIsBad(v: Vol, w: Vol)
    requires Good(v) && Leaked(v, w)
    ensures !Good(w)
  {
    var b :| DataBlock(b) && b !in v.alloc && LeakedBlock(v, w, b);
    if v.d.indirect == 0 {
      SameDataSameTree(v.disk, v.d, w.disk, w.d);
      assert forall c :: Named(w.disk, w.d, c) == Named(v.disk, v.d, c);
      assert Tree(w.disk, w.d) == Tree(v.disk, v.d);
    } else {
      assert At(v.disk, v.d, Ind) == v.d.indirect;
      assert At(w.disk, w.d, Ind) == v.d.indirect;
      assert v.d.indirect in Tree(w.disk, w.d);
    }
  }

  /** An inode without blocks, on a device full but for two: allocating behind the single indirect range breaks it. */
  lemma LeakHappens(v: Vol, w: Vol, phy: int)
    requires v.d == Dinode(1, seq(NR_DIRECT_BLOCKS, _ => 0), 0, 0, 0, 0) && FreeIsZero(v)
    requires AllocationOutcome(v, w, FIRST_DOUBLE, phy, 2)
    ensures Good(v) && phy == -ENOSPC && !Good(w)
  {
    assert forall p | ValidPath(p) :: At(v.disk, v.d, p) == 0;
    assert Tree(v.disk, v.d) == {};
    MissingDouble(v, 0);
    LeakedIsBad(v, w);
  }
}
