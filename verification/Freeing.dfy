/**
 Freeing the blocks of an inode, as values: which positions the walk of testfs_free_blocks has freed, and
 exactly when that is all of them (fs/read_write.c).
 */
module Freeing {
  import opened Layout
  import opened Codec
  import opened Supers
  import opened BlockMap
  import opened Volumes
  import opened Allocations

  ghost function Image(v: Vol, ps: set<Path>): set<int>
    requires |v.d.direct| == NR_DIRECT_BLOCKS && forall p | p in ps :: ValidPath(p)
  {
    set p | p in ps :: At(v.disk, v.d, p)
  }

  ghost predicate InUse(v: Vol, p: Path)
    requires |v.d.direct| == NR_DIRECT_BLOCKS
  {
    ValidPath(p) && At(v.disk, v.d, p) != 0
  }

  /** From `v` on, exactly the blocks at the positions `ps` have been zeroed and released. */
  ghost predicate FreedAt(v: Vol, w: Vol, ps: set<Path>)
  {
    && |v.d.direct| == NR_DIRECT_BLOCKS
    && (forall p | p in ps :: InUse(v, p))
    && w.alloc == v.alloc - Image(v, ps)
    && w.d.blockCount == v.d.blockCount - |ps|
    && forall b | DataBlock(b) :: w.disk[b] == if b in Image(v, ps) then ZERO_BLOCK else v.disk[b]
  }

  /** Which fields name blocks does not matter for what has been freed. */
  lemma FreedAtFields(v: Vol, w: Vol, x: Vol, ps: set<Path>)
    requires FreedAt(v, w, ps) && x.disk == w.disk && x.alloc == w.alloc && x.d.blockCount == w.d.blockCount
    ensures FreedAt(v, x, ps)
  {
  }

  lemma NothingFreed(v: Vol)
    requires Good(v)
    ensures FreedAt(v, v, {})
  {
  }

  /** A block not freed yet is still allocated, and still holds what it held. */
  lemma NotYetFreed(v: Vol, w: Vol, ps: set<Path>, p: Path)
    requires Good(v) && FreedAt(v, w, ps) && InUse(v, p) && p !in ps
    ensures var b := At(v.disk, v.d, p); DataBlock(b) && b in w.alloc && w.disk[b] == v.disk[b]
  {
    var b := At(v.disk, v.d, p);
    assert b in Tree(v.disk, v.d);
  }

  lemma FreedOneMore(v: Vol, w: Vol, x: Vol, ps: set<Path>, p: Path)
    requires Good(v) && FreedAt(v, w, ps) && InUse(v, p) && p !in ps
    requires Released(w, x, At(v.disk, v.d, p))
    ensures FreedAt(v, x, ps + {p})
  {
    assert Image(v, ps + {p}) == Image(v, ps) + {At(v.disk, v.d, p)};
  }

  // ---- all positions in use

  /** Positions below the double indirect block that are in use. */
  ghost function Below(v: Vol): set<Path>
    requires |v.d.direct| == NR_DIRECT_BLOCKS
  {
    (set i: nat | i < NR_INDIRECT_BLOCKS && InUse(v, Third(i)) :: Third(i)) +
    (set i: nat, j: nat | i < NR_INDIRECT_BLOCKS && j < NR_INDIRECT_BLOCKS && InUse(v, Leaf(i, j)) :: Leaf(i, j))
  }

  lemma BelowForm(v: Vol, p: Path)
    requires |v.d.direct| == NR_DIRECT_BLOCKS
    ensures p in Below(v) <==> (p.Third? || p.Leaf?) && InUse(v, p)
  {
  }

  ghost function AllInUse(v: Vol): (ps: set<Path>)
    requires |v.d.direct| == NR_DIRECT_BLOCKS
    ensures forall p :: p in ps <==> InUse(v, p)
  {
    (set i: nat | i < NR_DIRECT_BLOCKS && InUse(v, Direct(i)) :: Direct(i)) +
    (set k: nat | k < NR_INDIRECT_BLOCKS && InUse(v, IndLeaf(k)) :: IndLeaf(k)) +
    (if v.d.indirect != 0 then {Ind} else {}) + (if v.d.dindirect != 0 then {Dind} else {}) +
    Below(v)
  }

  lemma {:induction false} ImageSize(v: Vol, ps: set<Path>)
    requires Sound(v.disk, v.d) && forall p | p in ps :: ValidPath(p) && InUse(v, p)
    ensures |Image(v, ps)| == |ps|
    decreases |ps|
  {
    if ps != {} {
      var p :| p in ps;
      ImageSize(v, ps - {p});
      assert ps == (ps - {p}) + {p};
      assert Image(v, ps) == Image(v, ps - {p}) + {At(v.disk, v.d, p)};
      assert At(v.disk, v.d, p) !in Image(v, ps - {p});
    }
  }

  /** block_count is the number of positions in use. */
  lemma CountIsPositions(v: Vol)
    requires Good(v)
    ensures v.d.blockCount == |AllInUse(v)| && Image(v, AllInUse(v)) == Tree(v.disk, v.d)
  {
    hide AllInUse;
    ImageSize(v, AllInUse(v));
    var ps := AllInUse(v);
    forall b | b in Tree(v.disk, v.d) ensures b in Image(v, ps) {
      var p :| ValidPath(p) && At(v.disk, v.d, p) == b;
      assert p in ps;
    }
    assert Image(v, ps) == Tree(v.disk, v.d);
  }

  /** block_count is 0 in the end exactly when every position in use was freed. */
  lemma AllFreedIff(v: Vol, w: Vol, ps: set<Path>)
    requires Good(v) && FreedAt(v, w, ps)
    ensures w.d.blockCount >= 0
    ensures w.d.blockCount == 0 <==> ps == AllInUse(v)
    ensures ps == AllInUse(v) ==> w.alloc == Others(v)
  {
    hide AllInUse;
    CountIsPositions(v);
    var all := AllInUse(v);
    assert ps <= all;
    assert all == ps + (all - ps);
  }

  // ---- the counted walk below the double indirect block

  /** Every third-level block has a data block below it. */
  ghost predicate ThirdsUsed(v: Vol)
    requires |v.d.direct| == NR_DIRECT_BLOCKS
  {
    forall i: nat | i < NR_INDIRECT_BLOCKS && InUse(v, Third(i)) ::
      exists j: nat :: j < NR_INDIRECT_BLOCKS && InUse(v, Leaf(i, j))
  }

  /** The third-level blocks before `i`, and everything below them. */
  ghost predicate Walked(v: Vol, ps: set<Path>, i: nat)
    requires |v.d.direct| == NR_DIRECT_BLOCKS
  {
    && (forall k: nat | k < i && k < NR_INDIRECT_BLOCKS && InUse(v, Third(k)) :: Third(k) in ps)
    && (forall k: nat, j: nat | k < i && k < NR_INDIRECT_BLOCKS && j < NR_INDIRECT_BLOCKS && InUse(v, Leaf(k, j)) ::
          Leaf(k, j) in ps)
  }

  /** The entries before `j` of third-level block `i`. */
  ghost predicate LeavesWalked(v: Vol, ps: set<Path>, i: nat, j: nat)
    requires |v.d.direct| == NR_DIRECT_BLOCKS && i < NR_INDIRECT_BLOCKS
  {
    forall k: nat | k < j && k < NR_INDIRECT_BLOCKS && InUse(v, Leaf(i, k)) :: Leaf(i, k) in ps
  }

  /** A null third-level entry has nothing below it. */
  lemma LeafNeedsThird(v: Vol, i: nat, j: nat)
    requires Good(v) && i < NR_INDIRECT_BLOCKS && j < NR_INDIRECT_BLOCKS && InUse(v, Leaf(i, j))
    ensures InUse(v, Third(i)) && Third(i) in Below(v) && Leaf(i, j) in Below(v)
  {
  }

  lemma ValidInUse(v: Vol, p: Path)
    requires |v.d.direct| == NR_DIRECT_BLOCKS && InUse(v, p)
    ensures ValidPath(p)
  {
  }

  lemma WalkedAll(v: Vol, ps: set<Path>)
    requires |v.d.direct| == NR_DIRECT_BLOCKS && ps <= Below(v) && Walked(v, ps, NR_INDIRECT_BLOCKS)
    ensures ps == Below(v)
  {
  }

  /** Freed positions and bound: the walk stops as soon as `limit` blocks are freed, third-level blocks included. */
  ghost predicate WalkState(v: Vol, ps: set<Path>, i: nat, total: nat, limit: nat)
    requires |v.d.direct| == NR_DIRECT_BLOCKS
  {
    && ps <= Below(v) && total == |ps| <= limit + 1
    && (forall k: nat | i <= k < NR_INDIRECT_BLOCKS :: Third(k) !in ps)
    && (forall k: nat, j: nat | i <= k < NR_INDIRECT_BLOCKS && j < NR_INDIRECT_BLOCKS :: Leaf(k, j) !in ps)
    && (Walked(v, ps, i) || (total == limit + 1 && |Below(v)| > limit + 1))
  }

  /** What is left includes a third-level block and one of its entries. */
  lemma TwoLeft(v: Vol, ps: set<Path>, i: nat, total: nat, limit: nat, p: Path)
    requires Good(v) && ThirdsUsed(v) && WalkState(v, ps, i, total, limit) && Walked(v, ps, i)
    requires p in Below(v) - ps
    ensures |Below(v)| >= total + 2
  {
    hide Below, Good, InUse;
    GoodShape(v);
    BelowForm(v, p);
    ValidInUse(v, p);
    var k := p.i;
    assert k >= i;
    var j: nat;
    if p.Third? {
      j :| j < NR_INDIRECT_BLOCKS && InUse(v, Leaf(k, j));
    } else {
      j := p.j;
    }
    LeafNeedsThird(v, k, j);
    TwoMore(Below(v), ps, Third(k), Leaf(k, j));
  }

  lemma TwoMore(all: set<Path>, some: set<Path>, p: Path, q: Path)
    requires some <= all && p in all - some && q in all - some && p != q
    ensures |all| >= |some| + 2
  {
    var others := all - some - {p} - {q};
    assert all == some + {p} + {q} + others;
  }

  /** When the walk stops, it has freed everything exactly when there was not too much to free. */
  lemma WalkEnds(v: Vol, ps: set<Path>, i: nat, total: nat, limit: nat)
    requires Good(v) && ThirdsUsed(v) && WalkState(v, ps, i, total, limit)
    requires total >= limit || i >= NR_INDIRECT_BLOCKS
    ensures ps == Below(v) <==> |Below(v)| <= limit + 1
  {
    hide Below;
    var rest := Below(v) - ps;
    assert Below(v) == ps + rest;
    if Walked(v, ps, i) && rest != {} {
      var p :| p in rest;
      if total >= limit {
        TwoLeft(v, ps, i, total, limit, p);
      } else {
        WalkedAll(v, ps);
      }
    }
  }

  /** Inside third-level block `i`, before its entry `j`. */
  ghost predicate InnerState(v: Vol, ps: set<Path>, i: nat, j: nat, total: nat, limit: nat)
    requires |v.d.direct| == NR_DIRECT_BLOCKS
  {
    && i < NR_INDIRECT_BLOCKS && j <= NR_INDIRECT_BLOCKS && InUse(v, Third(i))
    && ps <= Below(v) && total == |ps| <= limit
    && Walked(v, ps, i) && LeavesWalked(v, ps, i, j)
    && (forall k: nat | i <= k < NR_INDIRECT_BLOCKS :: Third(k) !in ps)
    && (forall k: nat, l: nat | i < k < NR_INDIRECT_BLOCKS && l < NR_INDIRECT_BLOCKS :: Leaf(k, l) !in ps)
    && (forall l: nat | j <= l < NR_INDIRECT_BLOCKS :: Leaf(i, l) !in ps)
  }

  lemma WalkStarts(v: Vol, limit: nat)
    requires |v.d.direct| == NR_DIRECT_BLOCKS
    ensures WalkState(v, {}, 0, 0, limit)
  {
  }

  lemma InnerStarts(v: Vol, ps: set<Path>, i: nat, total: nat, limit: nat)
    requires |v.d.direct| == NR_DIRECT_BLOCKS && i < NR_INDIRECT_BLOCKS && InUse(v, Third(i))
    requires WalkState(v, ps, i, total, limit) && total < limit
    ensures InnerState(v, ps, i, 0, total, limit)
  {
  }

  lemma InnerFrees(v: Vol, ps: set<Path>, i: nat, j: nat, total: nat, limit: nat)
    requires |v.d.direct| == NR_DIRECT_BLOCKS && InnerState(v, ps, i, j, total, limit) && total < limit
    requires j < NR_INDIRECT_BLOCKS && InUse(v, Leaf(i, j))
    ensures Leaf(i, j) !in ps && InnerState(v, ps + {Leaf(i, j)}, i, j + 1, total + 1, limit)
  {
    hide Below;
    BelowForm(v, Leaf(i, j));
  }

  lemma InnerSkips(v: Vol, ps: set<Path>, i: nat, j: nat, total: nat, limit: nat)
    requires |v.d.direct| == NR_DIRECT_BLOCKS && InnerState(v, ps, i, j, total, limit)
    requires j < NR_INDIRECT_BLOCKS && !InUse(v, Leaf(i, j))
    ensures InnerState(v, ps, i, j + 1, total, limit)
  {
    hide Below;
  }

  lemma InnerEnds(v: Vol, ps: set<Path>, i: nat, j: nat, total: nat, limit: nat)
    requires |v.d.direct| == NR_DIRECT_BLOCKS && InnerState(v, ps, i, j, total, limit)
    requires total >= limit || j == NR_INDIRECT_BLOCKS
    ensures Third(i) !in ps && WalkState(v, ps + {Third(i)}, i + 1, total + 1, limit)
  {
    hide Below;
    BelowForm(v, Third(i));
    var qs := ps + {Third(i)};
    if !Walked(v, qs, i + 1) {
      var l: nat :| l < NR_INDIRECT_BLOCKS && InUse(v, Leaf(i, l)) && Leaf(i, l) !in qs;
      BelowForm(v, Leaf(i, l));
      var others := Below(v) - qs - {Leaf(i, l)};
      assert Below(v) == qs + ({Leaf(i, l)} + others);
    }
  }

  lemma WalkSkips(v: Vol, ps: set<Path>, i: nat, total: nat, limit: nat)
    requires Good(v) && i < NR_INDIRECT_BLOCKS && !InUse(v, Third(i)) && WalkState(v, ps, i, total, limit)
    ensures WalkState(v, ps, i + 1, total, limit)
  {
    hide Below;
    forall j: nat | j < NR_INDIRECT_BLOCKS ensures !InUse(v, Leaf(i, j)) {
      if InUse(v, Leaf(i, j)) { LeafNeedsThird(v, i, j); }
    }
  }

  // ---- the whole of it

  ghost function DirectsBelow(v: Vol, k: nat): set<Path>
    requires |v.d.direct| == NR_DIRECT_BLOCKS
  {
    set i: nat | i < k && i < NR_DIRECT_BLOCKS && InUse(v, Direct(i)) :: Direct(i)
  }

  ghost function IndLeavesBelow(v: Vol, k: nat): set<Path>
    requires |v.d.direct| == NR_DIRECT_BLOCKS
  {
    set i: nat | i < k && i < NR_INDIRECT_BLOCKS && InUse(v, IndLeaf(i)) :: IndLeaf(i)
  }

  /** What the direct and the indirect part free of a file of `e` blocks. */
  ghost function UpToIndirect(v: Vol, e: nat): set<Path>
    requires |v.d.direct| == NR_DIRECT_BLOCKS
  {
    DirectsBelow(v, e) +
    if v.d.indirect == 0 then {} else
    IndLeavesBelow(v, if e < NR_DIRECT_BLOCKS then 0 else e - NR_DIRECT_BLOCKS) + {Ind}
  }

  /**
   The condition under which everything is freed: nothing is mapped directly or singly indirectly beyond the
   end of the file; and if there is a double indirect block, the size reaches behind the indirect range and
   third-level and data blocks together are at most one more than the logical blocks counted there.
   */
  ghost predicate FreeGuard(v: Vol)
    requires |v.d.direct| == NR_DIRECT_BLOCKS && v.d.size >= 0
  {
    var e := DivRoundUp(v.d.size, BLOCK_SIZE);
    && (forall p | InUse(v, p) && (p.Direct? || p.IndLeaf?) :: LogOf(p) < e)
    && (v.d.dindirect != 0 ==> e >= FIRST_DOUBLE && |Below(v)| <= e - FIRST_DOUBLE + 1)
  }

  /** Positions the first two loops reach in a file of `e` blocks. */
  predicate Early(p: Path, e: nat)
    requires ValidPath(p)
  {
    p.Ind? || ((p.Direct? || p.IndLeaf?) && LogOf(p) < e)
  }

  lemma UpToIndirectForm(v: Vol, e: nat, p: Path)
    requires Good(v)
    ensures p in UpToIndirect(v, e) <==> InUse(v, p) && Early(p, e)
  {
    assert At(v.disk, v.d, Ind) == v.d.indirect;
    if p.IndLeaf? && InUse(v, p) {
      assert v.d.indirect != 0;
    }
  }

  /** What the part below the double indirect block frees, when its walk freed `ps`. */
  ghost function Doubly(v: Vol, e: nat, ps: set<Path>): set<Path>
  {
    if v.d.dindirect == 0 || e < FIRST_DOUBLE then {} else ps + {Dind}
  }

  /** Which positions that makes in all. */
  lemma FreedForm(v: Vol, e: nat, ps: set<Path>, p: Path)
    requires Good(v) && ps <= Below(v)
    requires v.d.dindirect != 0 && e >= FIRST_DOUBLE ==> (ps == Below(v) <==> |Below(v)| <= e - FIRST_DOUBLE + 1)
    requires v.d.dindirect != 0 ==> e >= FIRST_DOUBLE && |Below(v)| <= e - FIRST_DOUBLE + 1
    ensures p in UpToIndirect(v, e) + Doubly(v, e, ps) <==>
            InUse(v, p) && ((p.Direct? || p.IndLeaf?) ==> LogOf(p) < e)
  {
    hide UpToIndirect, Below;
    UpToIndirectForm(v, e, p);
    BelowForm(v, p);
    assert At(v.disk, v.d, Dind) == v.d.dindirect;
  }

  /** The walk frees every position in use exactly under the guard. */
  lemma GuardIff(v: Vol, e: nat, ps: set<Path>)
    requires Good(v) && v.d.size >= 0 && e == DivRoundUp(v.d.size, BLOCK_SIZE)
    requires ps <= Below(v)
    requires v.d.dindirect != 0 && e >= FIRST_DOUBLE ==> (ps == Below(v) <==> |Below(v)| <= e - FIRST_DOUBLE + 1)
    ensures UpToIndirect(v, e) + Doubly(v, e, ps) == AllInUse(v) <==> FreeGuard(v)
  {
    hide Below, UpToIndirect, AllInUse, At;
    var freed := UpToIndirect(v, e) + Doubly(v, e, ps);
    if v.d.dindirect != 0 ==> e >= FIRST_DOUBLE && |Below(v)| <= e - FIRST_DOUBLE + 1 {
      forall p ensures p in freed <==> InUse(v, p) && ((p.Direct? || p.IndLeaf?) ==> LogOf(p) < e) {
        FreedForm(v, e, ps, p);
      }
      if FreeGuard(v) {
        assert freed == AllInUse(v);
      }
    } else {
      SomethingLeft(v, e, ps);
    }
  }

  /** Too much below the double indirect block, or too small a size: a position in use is not freed. */
  lemma SomethingLeft(v: Vol, e: nat, ps: set<Path>)
    requires Good(v) && ps <= Below(v) && v.d.dindirect != 0
    requires e >= FIRST_DOUBLE ==> ps != Below(v)
    ensures UpToIndirect(v, e) + Doubly(v, e, ps) != AllInUse(v)
  {
    hide Below, UpToIndirect, AllInUse;
    assert At(v.disk, v.d, Dind) == v.d.dindirect;
    var q := Dind;
    if e >= FIRST_DOUBLE {
      var rest := Below(v) - ps;
      assert Below(v) == ps + rest;
      q :| q in rest;
      BelowForm(v, q);
    }
    UpToIndirectForm(v, e, q);
    assert InUse(v, q) && q !in UpToIndirect(v, e) + Doubly(v, e, ps);
  }

  lemma DirectsStep(v: Vol, k: nat)
    requires |v.d.direct| == NR_DIRECT_BLOCKS && k < NR_DIRECT_BLOCKS
    ensures DirectsBelow(v, k + 1) ==
            if InUse(v, Direct(k)) then DirectsBelow(v, k) + {Direct(k)} else DirectsBelow(v, k)
    ensures Direct(k) !in DirectsBelow(v, k) && DirectsBelow(v, 0) == {}
    ensures InUse(v, Direct(k)) <==> v.d.direct[k] != 0
    ensures At(v.disk, v.d, Direct(k)) == v.d.direct[k]
  {
  }

  lemma DirectsEnd(v: Vol, k: nat)
    requires |v.d.direct| == NR_DIRECT_BLOCKS && k >= NR_DIRECT_BLOCKS
    ensures DirectsBelow(v, k) == DirectsBelow(v, NR_DIRECT_BLOCKS)
  {
  }

  lemma IndLeavesStep(v: Vol, k: nat)
    requires |v.d.direct| == NR_DIRECT_BLOCKS && k < NR_INDIRECT_BLOCKS
    ensures IndLeavesBelow(v, k + 1) == IndLeavesBelow(v, k) + (if InUse(v, IndLeaf(k)) then {IndLeaf(k)} else {})
    ensures IndLeaf(k) !in IndLeavesBelow(v, k) && IndLeavesBelow(v, 0) == {}
    ensures InUse(v, IndLeaf(k)) <==> At(v.disk, v.d, IndLeaf(k)) != 0
  {
  }

  lemma IndLeavesEnd(v: Vol, k: nat)
    requires |v.d.direct| == NR_DIRECT_BLOCKS && k >= NR_INDIRECT_BLOCKS
    ensures IndLeavesBelow(v, k) == IndLeavesBelow(v, NR_INDIRECT_BLOCKS)
  {
  }

  /** The block of addresses read before the loop is the one the inode had. */
  ghost predicate EntriesFrom(v: Vol, block: Block, k: nat)
    requires |v.d.direct| == NR_DIRECT_BLOCKS
  {
    forall j: nat | k <= j < NR_INDIRECT_BLOCKS :: Ptr(block, j) == At(v.disk, v.d, IndLeaf(j))
  }

  lemma EntriesRead(v: Vol, w: Vol, ps: set<Path>)
    requires Good(v) && v.d.indirect != 0 && FreedAt(v, w, ps) && Ind !in ps
    ensures InUse(v, Ind) && DataBlock(v.d.indirect) && EntriesFrom(v, w.disk[v.d.indirect], 0)
    ensures At(v.disk, v.d, Ind) == v.d.indirect
  {
    assert At(v.disk, v.d, Ind) == v.d.indirect;
    NotYetFreed(v, w, ps, Ind);
  }

  lemma FirstEntry(v: Vol, block: Block, k: nat)
    requires |v.d.direct| == NR_DIRECT_BLOCKS && k < NR_INDIRECT_BLOCKS && EntriesFrom(v, block, k)
    ensures Ptr(block, k) == At(v.disk, v.d, IndLeaf(k))
  {
  }

  lemma IndirectSign(v: Vol)
    requires Good(v)
    ensures |v.d.direct| == NR_DIRECT_BLOCKS && v.d.indirect >= 0 && v.d.dindirect >= 0
  {
    assert At(v.disk, v.d, Ind) == v.d.indirect && At(v.disk, v.d, Dind) == v.d.dindirect;
  }

  lemma EntryCleared(v: Vol, block: Block, k: nat)
    requires |v.d.direct| == NR_DIRECT_BLOCKS && k < NR_INDIRECT_BLOCKS && EntriesFrom(v, block, k)
    ensures EntriesFrom(v, SetPtr(block, k, 0), k + 1)
  {
    OtherPtrsStay(block, k, 0);
  }

  /** What is freed after `k` entries of the indirect block. */
  ghost function IndirectSoFar(v: Vol, e: nat, k: nat): set<Path>
    requires |v.d.direct| == NR_DIRECT_BLOCKS
  {
    DirectsBelow(v, e) + IndLeavesBelow(v, k)
  }

  lemma IndirectStep(v: Vol, e: nat, k: nat)
    requires Good(v) && k < NR_INDIRECT_BLOCKS
    ensures IndirectSoFar(v, e, k + 1) ==
            if InUse(v, IndLeaf(k)) then IndirectSoFar(v, e, k) + {IndLeaf(k)} else IndirectSoFar(v, e, k)
    ensures IndLeaf(k) !in IndirectSoFar(v, e, k) && Ind !in IndirectSoFar(v, e, k)
    ensures InUse(v, IndLeaf(k)) <==> At(v.disk, v.d, IndLeaf(k)) != 0
  {
    IndLeavesStep(v, k);
  }

  lemma IndirectStarts(v: Vol, e: nat)
    requires |v.d.direct| == NR_DIRECT_BLOCKS
    ensures IndirectSoFar(v, e, 0) == DirectsBelow(v, e) && Ind !in DirectsBelow(v, e)
    ensures v.d.indirect == 0 ==> UpToIndirect(v, e) == DirectsBelow(v, e)
  {
  }

  lemma IndirectEnds(v: Vol, e: nat, k: nat)
    requires |v.d.direct| == NR_DIRECT_BLOCKS && v.d.indirect != 0
    requires k == NR_INDIRECT_BLOCKS <= e - NR_DIRECT_BLOCKS ||
             k == if e < NR_DIRECT_BLOCKS then 0 else e - NR_DIRECT_BLOCKS
    ensures IndirectSoFar(v, e, k) + {Ind} == UpToIndirect(v, e)
    ensures Ind !in IndirectSoFar(v, e, k)
  {
    if k == NR_INDIRECT_BLOCKS {
      IndLeavesEnd(v, e - NR_DIRECT_BLOCKS);
    }
  }

  /** `block` still holds the addresses from entry `j` on of third-level block `i`. */
  ghost predicate LeavesFrom(v: Vol, block: Block, i: nat, j: nat)
    requires |v.d.direct| == NR_DIRECT_BLOCKS && i < NR_INDIRECT_BLOCKS
  {
    forall l: nat | j <= l < NR_INDIRECT_BLOCKS :: Ptr(block, l) == At(v.disk, v.d, Leaf(i, l))
  }

  /** `block` still holds the addresses of the third-level blocks from `i` on. */
  ghost predicate ThirdsFrom(v: Vol, block: Block, i: nat)
    requires |v.d.direct| == NR_DIRECT_BLOCKS
  {
    forall k: nat | i <= k < NR_INDIRECT_BLOCKS :: Ptr(block, k) == At(v.disk, v.d, Third(k))
  }

  /** The freed positions: `base`, from before the walk, and `ps`, from the walk. */
  ghost predicate WalkFreed(v: Vol, w: Vol, base: set<Path>, ps: set<Path>)
    requires |v.d.direct| == NR_DIRECT_BLOCKS
  {
    FreedAt(v, w, base + ps) && base !! Below(v) && Dind !in base
  }

  lemma LeavesRead(v: Vol, w: Vol, base: set<Path>, ps: set<Path>, i: nat)
    requires Good(v) && i < NR_INDIRECT_BLOCKS && InUse(v, Third(i)) && WalkFreed(v, w, base, ps) && Third(i) !in ps
    ensures var t := At(v.disk, v.d, Third(i)); DataBlock(t) && LeavesFrom(v, w.disk[t], i, 0)
  {
    BelowForm(v, Third(i));
    NotYetFreed(v, w, base + ps, Third(i));
  }

  lemma InnerReads(v: Vol, w: Vol, base: set<Path>, ps: set<Path>, i: nat, total: nat, limit: nat)
    requires Good(v) && InnerState(v, ps, i, 0, total, limit) && WalkFreed(v, w, base, ps)
    ensures |v.d.direct| == NR_DIRECT_BLOCKS
    ensures var t := At(v.disk, v.d, Third(i)); DataBlock(t) && LeavesFrom(v, w.disk[t], i, 0)
  {
    LeavesRead(v, w, base, ps, i);
  }

  lemma ThirdsRead(v: Vol, w: Vol, base: set<Path>)
    requires Good(v) && v.d.dindirect != 0 && FreedAt(v, w, base) && Dind !in base
    ensures InUse(v, Dind) && DataBlock(v.d.dindirect) && ThirdsFrom(v, w.disk[v.d.dindirect], 0)
    ensures At(v.disk, v.d, Dind) == v.d.dindirect
  {
    assert At(v.disk, v.d, Dind) == v.d.dindirect;
    NotYetFreed(v, w, base, Dind);
  }

  lemma LeafEntry(v: Vol, block: Block, i: nat, j: nat)
    requires |v.d.direct| == NR_DIRECT_BLOCKS && i < NR_INDIRECT_BLOCKS && j < NR_INDIRECT_BLOCKS
    requires LeavesFrom(v, block, i, j)
    ensures Ptr(block, j) == At(v.disk, v.d, Leaf(i, j))
    ensures InUse(v, Leaf(i, j)) <==> Ptr(block, j) != 0
    ensures LeavesFrom(v, block, i, j + 1) && LeavesFrom(v, SetPtr(block, j, 0), i, j + 1)
  {
    OtherPtrsStay(block, j, 0);
  }

  lemma ThirdEntryOf(v: Vol, block: Block, i: nat)
    requires |v.d.direct| == NR_DIRECT_BLOCKS && i < NR_INDIRECT_BLOCKS && ThirdsFrom(v, block, i)
    ensures Ptr(block, i) == At(v.disk, v.d, Third(i))
    ensures InUse(v, Third(i)) <==> Ptr(block, i) != 0
    ensures ThirdsFrom(v, block, i + 1) && ThirdsFrom(v, SetPtr(block, i, 0), i + 1)
  {
    OtherPtrsStay(block, i, 0);
  }

  /** One position of the walk can be freed, and then counts as freed. */
  lemma WalkFrees(v: Vol, base: set<Path>, ps: set<Path>, p: Path, w: Vol)
    requires |v.d.direct| == NR_DIRECT_BLOCKS && WalkFreed(v, w, base, ps) && p in Below(v) && p !in ps
    ensures FreedAt(v, w, base + ps) && p !in base + ps && InUse(v, p)
    ensures forall x :: FreedAt(v, x, base + ps + {p}) ==> WalkFreed(v, x, base, ps + {p})
  {
    hide Below;
    assert base + ps + {p} == base + (ps + {p});
    BelowForm(v, p);
  }

  lemma WalkFreedStarts(v: Vol, w: Vol, e: nat)
    requires Good(v) && FreedAt(v, w, UpToIndirect(v, e))
    ensures WalkFreed(v, w, UpToIndirect(v, e), {}) && Dind !in UpToIndirect(v, e)
  {
    hide Below, UpToIndirect, FreedAt;
    forall p ensures !(p in UpToIndirect(v, e) && p in Below(v)) {
      UpToIndirectForm(v, e, p);
      BelowForm(v, p);
    }
    UpToIndirectForm(v, e, Dind);
    assert UpToIndirect(v, e) + {} == UpToIndirect(v, e);
  }

  lemma DoublyEnds(v: Vol, e: nat, ps: set<Path>, w: Vol)
    requires Good(v) && v.d.dindirect != 0 && e >= FIRST_DOUBLE
    requires WalkFreed(v, w, UpToIndirect(v, e), ps) && ps <= Below(v)
    ensures FreedAt(v, w, UpToIndirect(v, e) + ps) && Dind !in UpToIndirect(v, e) + ps
    ensures UpToIndirect(v, e) + ps + {Dind} == UpToIndirect(v, e) + Doubly(v, e, ps)
  {
    hide Below, UpToIndirect;
    BelowForm(v, Dind);
  }

  /** All positions in use are freed exactly under the guard, and the count tells. */
  lemma FreedOutcome(v: Vol, w: Vol, e: nat, ps: set<Path>)
    requires Good(v) && v.d.size >= 0 && e == DivRoundUp(v.d.size, BLOCK_SIZE)
    requires ps <= Below(v) && FreedAt(v, w, UpToIndirect(v, e) + Doubly(v, e, ps))
    requires v.d.dindirect != 0 && e >= FIRST_DOUBLE ==> (ps == Below(v) <==> |Below(v)| <= e - FIRST_DOUBLE + 1)
    ensures w.d.blockCount >= 0 && (w.d.blockCount == 0 <==> FreeGuard(v))
    ensures FreeGuard(v) ==> w.alloc == Others(v)
    ensures forall b | DataBlock(b) && b in Others(v) :: w.disk[b] == v.disk[b]
    ensures Others(v) <= w.alloc
  {
    hide UpToIndirect, Doubly, Below, AllInUse, FreeGuard;
    GuardIff(v, e, ps);
    AllFreedIff(v, w, UpToIndirect(v, e) + Doubly(v, e, ps));
    forall b | b in Image(v, UpToIndirect(v, e) + Doubly(v, e, ps)) ensures b in Tree(v.disk, v.d) {
    }
  }

  lemma WalkStateSubset(v: Vol, ps: set<Path>, i: nat, total: nat, limit: nat)
    requires |v.d.direct| == NR_DIRECT_BLOCKS && WalkState(v, ps, i, total, limit)
    ensures ps <= Below(v)
  {
  }

  lemma NothingBelow(v: Vol, e: nat)
    requires |v.d.direct| == NR_DIRECT_BLOCKS
    ensures {} <= Below(v)
    ensures v.d.dindirect == 0 || e < FIRST_DOUBLE ==> UpToIndirect(v, e) + Doubly(v, e, {}) == UpToIndirect(v, e)
  {
    hide UpToIndirect, Below;
  }

  /** When everything is freed, what remains is an empty inode. */
  lemma EmptyAfter(v: Vol, w: Vol, e: nat, freed: set<Path>)
    requires Good(v) && v.d.size >= 0 && e == DivRoundUp(v.d.size, BLOCK_SIZE)
    requires |w.d.direct| == NR_DIRECT_BLOCKS && w.d.indirect == 0
    requires w.d.dindirect == if e >= FIRST_DOUBLE then 0 else v.d.dindirect
    requires forall i | 0 <= i < NR_DIRECT_BLOCKS :: w.d.direct[i] == if i < e then 0 else v.d.direct[i]
    requires w.d.blockCount == 0 <==> FreeGuard(v)
    requires FreeGuard(v) ==> w.alloc == Others(v)
    requires FreedAt(v, w, freed)
    ensures FreeGuard(v) ==> Good(w) && Tree(w.disk, w.d) == {}
  {
    if FreeGuard(v) {
      forall i | 0 <= i < NR_DIRECT_BLOCKS ensures w.d.direct[i] == 0 {
        var p := Direct(i);
        if i >= e {
          assert LogOf(p) == i;
          assert !InUse(v, p);
        }
      }
      NullTree(w.disk, w.d);
    }
  }
}
