/**
 The bytes of a file, whatever blocks they are in: how writing a run of blocks changes them, and which
 blocks a write has to allocate (testfs_read_data and testfs_write_data in fs/read_write.c).
 */
module FlatFiles {
  import opened Layout
  import opened Codec
  import opened Supers
  import opened BlockMap
  import opened Volumes
  import opened Allocations

  const MAX_BYTES := 34376597504  // MAX_FILE_SIZE * BLOCK_SIZE, the literal of testfs_write_data

  /** Byte `pos` of the file; zero where nothing was ever written. */
  ghost function FileByte(v: Vol, pos: nat): byte
    requires pos < MAX_BYTES && |v.d.direct| == NR_DIRECT_BLOCKS
  {
    Content(v.disk, v.d, pos / BLOCK_SIZE)[pos % BLOCK_SIZE]
  }

  /** The bytes from `start` are `data`, every other byte of the file is as before. */
  ghost predicate Written(v: Vol, w: Vol, start: nat, data: seq<byte>)
    requires |v.d.direct| == |w.d.direct| == NR_DIRECT_BLOCKS
  {
    forall pos: nat | pos < MAX_BYTES ::
      FileByte(w, pos) == if start <= pos < start + |data| then data[pos - start] else FileByte(v, pos)
  }

  // ---- one block

  /** `buf` is what the file holds from `start` on. */
  ghost predicate Holds(v: Vol, start: nat, buf: seq<byte>)
    requires start + |buf| <= MAX_BYTES && |v.d.direct| == NR_DIRECT_BLOCKS
  {
    forall k | 0 <= k < |buf| :: buf[k] == FileByte(v, start + k)
  }

  lemma HoldsNothing(v: Vol, start: nat)
    requires start <= MAX_BYTES && |v.d.direct| == NR_DIRECT_BLOCKS
    ensures Holds(v, start, [])
  {
  }

  lemma HoldsMore(v: Vol, start: nat, buf: seq<byte>, log: nat, off: nat, end: nat)
    requires |v.d.direct| == NR_DIRECT_BLOCKS && log < MAX_FILE_SIZE && off <= end <= BLOCK_SIZE
    requires start + |buf| == log * BLOCK_SIZE + off && Holds(v, start, buf)
    ensures Holds(v, start, buf + Content(v.disk, v.d, log)[off..end])
  {
    hide FileByte, Content;
    var more := buf + Content(v.disk, v.d, log)[off..end];
    forall k | |buf| <= k < |more| ensures more[k] == FileByte(v, start + k) {
      ByteAt(v, log, off + k - |buf|);
    }
  }

  lemma ByteAt(v: Vol, log: nat, o: nat)
    requires |v.d.direct| == NR_DIRECT_BLOCKS && log < MAX_FILE_SIZE && o < BLOCK_SIZE
    ensures FileByte(v, log * BLOCK_SIZE + o) == Content(v.disk, v.d, log)[o]
  {
    hide Content;
    var pos := log * BLOCK_SIZE + o;
    assert pos / BLOCK_SIZE == log && pos % BLOCK_SIZE == o;
  }

  /** Rewriting an allocated data block changes the contents of that logical block only. */
  lemma WriteLeaf(v: Vol, w: Vol, log: nat, block: Block)
    requires Good(v) && log < MAX_FILE_SIZE && Phys(v.disk, v.d, log) != 0
    requires DataBlock(Phys(v.disk, v.d, log))
    requires w == v.(disk := v.disk[Phys(v.disk, v.d, log) := block])
    ensures Grown(v, w, {})
    ensures forall l: nat | l < MAX_FILE_SIZE ::
              Content(w.disk, w.d, l) == if l == log then block else Content(v.disk, v.d, l)
  {
    var b := Phys(v.disk, v.d, log);
    forall p | ValidPath(p) ensures At(w.disk, w.d, p) == At(v.disk, v.d, p) {
      SameIndexBlocks(v, w, log, p);
    }
    forall c ensures Named(w.disk, w.d, c) == Named(v.disk, v.d, c) {
      if p :| ValidPath(p) && At(v.disk, v.d, p) == c { assert At(w.disk, w.d, p) == c; }
    }
    assert Tree(w.disk, w.d) == Tree(v.disk, v.d);
    assert b in Tree(v.disk, v.d);
    forall l: nat | l < MAX_FILE_SIZE
      ensures Content(w.disk, w.d, l) == if l == log then block else Content(v.disk, v.d, l)
    {
      PathsAreLogicalBlocks(l, PathOf(l));
      PathsAreLogicalBlocks(log, PathOf(log));
    }
  }

  /** No pointer block is a data block. */
  lemma SameIndexBlocks(v: Vol, w: Vol, log: nat, p: Path)
    requires Good(v) && log < MAX_FILE_SIZE && Phys(v.disk, v.d, log) != 0 && ValidPath(p)
    requires DataBlock(Phys(v.disk, v.d, log))
    requires w.d == v.d && forall b | DataBlock(b) && b != Phys(v.disk, v.d, log) :: w.disk[b] == v.disk[b]
    ensures At(w.disk, w.d, p) == At(v.disk, v.d, p)
  {
    match p
    case Direct(i) =>
    case Ind =>
    case IndLeaf(k) => assert At(v.disk, v.d, Ind) == v.d.indirect;
    case Dind =>
    case Third(i) => assert At(v.disk, v.d, Dind) == v.d.dindirect;
    case Leaf(i, j) =>
      assert At(v.disk, v.d, Dind) == v.d.dindirect;
      assert At(v.disk, v.d, Third(i)) == Entry(v.disk, v.d.dindirect, i);
  }

  /** memcpy of `piece` into one block, seen as bytes of the file. */
  ghost predicate BlockSpliced(v: Vol, w: Vol, log: nat, off: nat, piece: seq<byte>)
    requires |v.d.direct| == |w.d.direct| == NR_DIRECT_BLOCKS && off + |piece| <= BLOCK_SIZE
  {
    forall l: nat | l < MAX_FILE_SIZE ::
      Content(w.disk, w.d, l) ==
      if l == log then Splice(Content(v.disk, v.d, l), off, piece) else Content(v.disk, v.d, l)
  }

  /** A logical block is there exactly when nothing is missing on the way to it. */
  lemma NoneMissing(v: Vol, log: nat)
    requires Good(v) && log < MAX_FILE_SIZE
    ensures Phys(v.disk, v.d, log) != 0 <==> |Missing(v, log)| == 0
    ensures |Missing(v, log)| == 0 <==> Missing(v, log) == {}
  {
    assert Phys(v.disk, v.d, log) == 0 ==> PathOf(log) in Missing(v, log);
    assert At(v.disk, v.d, Ind) == v.d.indirect && At(v.disk, v.d, Dind) == v.d.dindirect;
    if Phys(v.disk, v.d, log) != 0 {
      assert Missing(v, log) == {};
    }
  }

  /** Whether it was there or has just been allocated: a block of the inode that can be written. */
  lemma AllocatedBlock(v: Vol, w: Vol, log: nat, phy: int, room: int)
    requires Good(v) && log < MAX_FILE_SIZE && phy >= 0
    requires if Phys(v.disk, v.d, log) != 0 then w == v && phy == Phys(v.disk, v.d, log)
             else AllocationOutcome(v, w, log, phy, room)
    ensures |v.d.direct| == |w.d.direct| == NR_DIRECT_BLOCKS
    ensures Grown(v, w, Missing(v, log)) && SameContents(v, w) && Good(w)
    ensures phy == Phys(w.disk, w.d, log) && DataBlock(phy) && phy in w.alloc
  {
    NoneMissing(v, log);
  }

  lemma OutcomeSign(v: Vol, w: Vol, log: nat, phy: int, room: int)
    requires log < MAX_FILE_SIZE && |v.d.direct| == NR_DIRECT_BLOCKS && AllocationOutcome(v, w, log, phy, room) && Good(v)
    ensures phy >= 0 <==> room >= |Missing(v, log)|
    ensures phy < 0 ==> phy == -ENOSPC
  {
    hide Missing;
    if room >= |Missing(v, log)| {
      assert Good(w) && phy == At(w.disk, w.d, PathOf(log));
    }
  }

  lemma AllocatedIsPositive(v: Vol, log: nat)
    requires Good(v) && log < MAX_FILE_SIZE && Phys(v.disk, v.d, log) != 0
    ensures Phys(v.disk, v.d, log) > 0
  {
  }

  lemma SplicedAfterAllocation(v: Vol, w: Vol, x: Vol, log: nat, off: nat, piece: seq<byte>)
    requires log < MAX_FILE_SIZE && off + |piece| <= BLOCK_SIZE && |v.d.direct| == NR_DIRECT_BLOCKS
    requires Grown(v, w, Missing(v, log)) && SameContents(v, w) && Grown(w, x, {})
    requires forall l: nat | l < MAX_FILE_SIZE ::
               Content(x.disk, x.d, l) ==
               if l == log then Splice(Content(v.disk, v.d, log), off, piece) else Content(w.disk, w.d, l)
    ensures Grown(v, x, Missing(v, log)) && BlockSpliced(v, x, log, off, piece)
    ensures |x.alloc| == |v.alloc| + |Missing(v, log)|
  {
    GrownTrans(v, w, x, Missing(v, log), {});
    assert Missing(v, log) + {} == Missing(v, log);
  }

  lemma SplicedByte(v: Vol, w: Vol, log: nat, off: nat, piece: seq<byte>, pos: nat)
    requires |v.d.direct| == |w.d.direct| == NR_DIRECT_BLOCKS && off + |piece| <= BLOCK_SIZE && log < MAX_FILE_SIZE
    requires BlockSpliced(v, w, log, off, piece) && pos < MAX_BYTES
    ensures var from := log * BLOCK_SIZE + off;
            FileByte(w, pos) == if from <= pos < from + |piece| then piece[pos - from] else FileByte(v, pos)
  {
    hide Content;
    var l, k := pos / BLOCK_SIZE, pos % BLOCK_SIZE;
    assert pos == l * BLOCK_SIZE + k;
  }

  /** A written run of bytes grows by the piece put into the next block. */
  lemma WrittenMore(u: Vol, v: Vol, w: Vol, start: nat, data: seq<byte>, log: nat, off: nat, piece: seq<byte>)
    requires |u.d.direct| == |v.d.direct| == |w.d.direct| == NR_DIRECT_BLOCKS
    requires off + |piece| <= BLOCK_SIZE && log < MAX_FILE_SIZE
    requires Written(u, v, start, data) && BlockSpliced(v, w, log, off, piece)
    requires start + |data| == log * BLOCK_SIZE + off
    ensures Written(u, w, start, data + piece)
  {
    hide FileByte, Content;
    forall pos: nat | pos < MAX_BYTES
      ensures FileByte(w, pos) ==
              if start <= pos < start + |data + piece| then (data + piece)[pos - start] else FileByte(u, pos)
    {
      SplicedByte(v, w, log, off, piece, pos);
    }
  }

  /** What was written is what is read back. */
  lemma ReadsWhatWasWritten(v: Vol, w: Vol, start: nat, data: seq<byte>, buf: seq<byte>)
    requires |v.d.direct| == |w.d.direct| == NR_DIRECT_BLOCKS && start + |data| <= MAX_BYTES
    requires Written(v, w, start, data) && |buf| == |data| && Holds(w, start, buf)
    ensures buf == data
  {
    forall k | 0 <= k < |buf| ensures buf[k] == data[k] {
      assert buf[k] == FileByte(w, start + k);
    }
  }

  lemma SuccessIsWritten(v: Vol, w: Vol, buf: seq<byte>, start: nat, ret: int, stop: nat, mid: Vol, room: int)
    requires start < MAX_BYTES && |v.d.direct| == NR_DIRECT_BLOCKS && 0 <= v.d.size <= MAX_BYTES && |buf| > 0
    requires WriteOutcome(v, w, buf, start, ret, stop, mid, room) && ret >= 0
    ensures start + |buf| <= w.d.size <= MAX_BYTES && |w.d.direct| == NR_DIRECT_BLOCKS && Sound(w.disk, w.d)
    ensures Written(v, w, start, buf)
  {
    hide MissingRange, Missing;
    var x := Sized(w, v.d.size);
    SameDataSameTree(x.disk, x.d, w.disk, w.d);
    forall pos: nat | pos < MAX_BYTES ensures FileByte(w, pos) == FileByte(x, pos) {
      assert Phys(w.disk, w.d, pos / BLOCK_SIZE) == Phys(x.disk, x.d, pos / BLOCK_SIZE);
    }
  }

  /** In a file that had no blocks everything around what was written reads as zero. */
  lemma HolesReadAsZero(v: Vol, w: Vol, start: nat, data: seq<byte>, pos: nat)
    requires Good(v) && Tree(v.disk, v.d) == {} && |w.d.direct| == NR_DIRECT_BLOCKS
    requires Written(v, w, start, data) && pos < MAX_BYTES && !(start <= pos < start + |data|)
    ensures FileByte(w, pos) == 0
  {
    EmptyTree(v.disk, v.d);
    assert FileByte(w, pos) == FileByte(v, pos);
  }

  // ---- a run of blocks

  /** The empty positions that have to be filled to hold the logical blocks from `lo` up to but not including `hi`. */
  ghost function MissingRange(v: Vol, lo: nat, hi: nat): set<Path>
    requires hi <= MAX_FILE_SIZE && |v.d.direct| == NR_DIRECT_BLOCKS
  {
    if hi <= lo then {} else MissingRange(v, lo, hi - 1) + Missing(v, hi - 1)
  }

  lemma {:induction false} MissingRangeData(v: Vol, lo: nat, hi: nat, log: nat)
    requires hi <= MAX_FILE_SIZE && |v.d.direct| == NR_DIRECT_BLOCKS && log < MAX_FILE_SIZE
    requires PathOf(log) in MissingRange(v, lo, hi)
    ensures lo <= log < hi
  {
    if lo < hi && PathOf(log) in Missing(v, hi - 1) {
      PathsAreLogicalBlocks(log, PathOf(log));
      PathsAreLogicalBlocks(hi - 1, PathOf(hi - 1));
    } else {
      MissingRangeData(v, lo, hi - 1, log);
    }
  }

  /** Once the blocks before it are there, a logical block misses just what they did not already provide. */
  lemma MissingNext(u: Vol, v: Vol, lo: nat, h: nat)
    requires lo <= h < MAX_FILE_SIZE && Good(u) && Grown(u, v, MissingRange(u, lo, h))
    ensures MissingRange(u, lo, h + 1) == MissingRange(u, lo, h) + Missing(v, h)
    ensures |MissingRange(u, lo, h + 1)| == |MissingRange(u, lo, h)| + |Missing(v, h)|
  {
    var ps := MissingRange(u, lo, h);
    assert Missing(u, h) - ps == Missing(v, h);
    assert ps + Missing(u, h) == ps + Missing(v, h);
    assert ps !! Missing(v, h);
  }

  lemma RangeSizeMonotone(v: Vol, lo: nat, h: nat, hi: nat)
    requires h <= hi <= MAX_FILE_SIZE && |v.d.direct| == NR_DIRECT_BLOCKS
    ensures |MissingRange(v, lo, h)| <= |MissingRange(v, lo, hi)|
  {
    MissingRangeMonotone(v, lo, h, hi);
    var a, b := MissingRange(v, lo, h), MissingRange(v, lo, hi);
    assert b == a + (b - a);
  }

  lemma {:induction false} MissingRangeMonotone(v: Vol, lo: nat, h: nat, hi: nat)
    requires h <= hi <= MAX_FILE_SIZE && |v.d.direct| == NR_DIRECT_BLOCKS
    ensures MissingRange(v, lo, h) <= MissingRange(v, lo, hi)
    decreases hi
  {
    if h < hi {
      MissingRangeMonotone(v, lo, h, hi - 1);
    }
  }

  // ---- a whole write

  /** The last logical block that a write of `n` bytes from `start` asks for. */
  function LastBlock(start: nat, n: nat): nat
  {
    if start % BLOCK_SIZE + n > BLOCK_SIZE then (start + n - 1) / BLOCK_SIZE else start / BLOCK_SIZE
  }

  /** How many of the bytes lie in blocks before `stop`. */
  function BytesBefore(start: nat, n: nat, stop: nat): (k: nat)
    requires start / BLOCK_SIZE <= stop <= LastBlock(start, n)
    ensures k <= n
  {
    if stop == start / BLOCK_SIZE then 0 else stop * BLOCK_SIZE - start
  }

  function Sized(v: Vol, size: int): Vol
  {
    v.(d := v.d.(size := size))
  }

  /** The blocks from `lo` up to `hi` are there, the bytes from `start` are `data`, the rest is as it was. */
  ghost predicate Wrote(v: Vol, w: Vol, start: nat, data: seq<byte>, lo: nat, hi: nat)
  {
    && |v.d.direct| == |w.d.direct| == NR_DIRECT_BLOCKS && hi <= MAX_FILE_SIZE
    && Grown(v, w, MissingRange(v, lo, hi))
    && Written(v, w, start, data)
  }

  lemma WroteNothing(v: Vol, start: nat, lo: nat)
    requires Good(v) && lo <= MAX_FILE_SIZE
    ensures Wrote(v, v, start, [], lo, lo)
    ensures |MissingRange(v, lo, lo)| == 0
  {
  }

  /** One block more. */
  lemma WroteMore(u: Vol, v: Vol, w: Vol, start: nat, data: seq<byte>, lo: nat, log: nat, off: nat, piece: seq<byte>)
    requires Good(u) && lo <= log < MAX_FILE_SIZE && off + |piece| <= BLOCK_SIZE
    requires Wrote(u, v, start, data, lo, log)
    requires Grown(v, w, Missing(v, log)) && BlockSpliced(v, w, log, off, piece)
    requires start + |data| == log * BLOCK_SIZE + off
    ensures Wrote(u, w, start, data + piece, lo, log + 1)
    ensures |MissingRange(u, lo, log + 1)| == |MissingRange(u, lo, log)| + |Missing(v, log)|
    ensures Good(w) && w.d.size == u.d.size
  {
    MissingNext(u, v, lo, log);
    GrownTrans(u, v, w, MissingRange(u, lo, log), Missing(v, log));
    WrittenMore(u, v, w, start, data, log, off, piece);
  }

  /** A block that does not fit shows that the whole write does not. */
  lemma TooBig(u: Vol, v: Vol, start: nat, data: seq<byte>, lo: nat, stop: nat, last: nat, room: int)
    requires Good(u) && lo <= stop <= last && stop < MAX_FILE_SIZE
    requires Wrote(u, v, start, data, lo, stop)
    requires room - |MissingRange(u, lo, stop)| < |Missing(v, stop)|
    ensures room < |MissingRange(u, lo, stop + 1)|
    ensures last < MAX_FILE_SIZE ==> room < |MissingRange(u, lo, last + 1)|
  {
    hide Grown, Missing, Good;
    MissingNext(u, v, lo, stop);
    if last < MAX_FILE_SIZE {
      MissingRangeMonotone(u, lo, stop + 1, last + 1);
      var a, b := MissingRange(u, lo, stop + 1), MissingRange(u, lo, last + 1);
      assert b == a + (b - a);
    }
  }

  /** How a write that starts within the largest file ends, for every amount of room. */
  ghost predicate WriteOutcome(v: Vol, w: Vol, buf: seq<byte>, start: nat, ret: int, stop: nat, mid: Vol, room: int)
    requires start < MAX_BYTES && |v.d.direct| == NR_DIRECT_BLOCKS
  {
    var lo, last := start / BLOCK_SIZE, LastBlock(start, |buf|);
    if ret >= 0 then
      && last < MAX_FILE_SIZE && room >= |MissingRange(v, lo, last + 1)|
      && ret == |buf|
      && Wrote(v, Sized(w, v.d.size), start, buf, lo, last + 1)
      && w.d.size == if |buf| > 0 && start + |buf| > v.d.size then start + |buf| else v.d.size
    else if ret == -EFBIG then
      && last == MAX_FILE_SIZE && room >= |MissingRange(v, lo, last)|
      && Wrote(v, Sized(w, v.d.size), start, buf[..MAX_BYTES - start], lo, last)
      && w.d.size == MAX_BYTES
    else
      && ret == -ENOSPC
      && lo <= stop <= last && stop < MAX_FILE_SIZE
      && |MissingRange(v, lo, stop)| <= room < |MissingRange(v, lo, stop + 1)|
      && (last < MAX_FILE_SIZE ==> room < |MissingRange(v, lo, last + 1)|)
      && Wrote(v, mid, start, buf[..BytesBefore(start, |buf|, stop)], lo, stop)
      && AllocationOutcome(mid, Sized(w, v.d.size), stop, ret, room - |MissingRange(v, lo, stop)|)
      && w.d.size == if stop == lo < last then v.d.size else MAX_BYTES
  }

  /** The write goes on past the largest file, and there is room for all blocks up to its end. */
  ghost predicate RunsOutside(v: Vol, start: nat, n: nat, room: int)
    requires |v.d.direct| == NR_DIRECT_BLOCKS
  {
    start + n > MAX_BYTES + BLOCK_SIZE && room >= |MissingRange(v, start / BLOCK_SIZE, MAX_FILE_SIZE)|
  }

  /** Such a write does not end in any of the ways a write ends. */
  lemma EndsInside(v: Vol, w: Vol, buf: seq<byte>, start: nat, ret: int, stop: nat, mid: Vol, room: int)
    requires start < MAX_BYTES && |v.d.direct| == NR_DIRECT_BLOCKS
    requires WriteOutcome(v, w, buf, start, ret, stop, mid, room)
    ensures !RunsOutside(v, start, |buf|, room)
  {
    hide Wrote, AllocationOutcome;
    if ret < 0 && ret != -EFBIG {
      RangeSizeMonotone(v, start / BLOCK_SIZE, stop + 1, MAX_FILE_SIZE);
    }
  }

  /** Where a write stands before it asks for block `stop`: `left` blocks can still be allocated. */
  ghost predicate Progress(v: Vol, w: Vol, buf: seq<byte>, start: nat, stop: nat, left: int, room: int)
  {
    && start < MAX_BYTES && |v.d.direct| == NR_DIRECT_BLOCKS
    && start / BLOCK_SIZE <= stop <= LastBlock(start, |buf|) && stop <= MAX_FILE_SIZE
    && Good(w) && w.d.size == v.d.size
    && Wrote(v, w, start, buf[..BytesBefore(start, |buf|, stop)], start / BLOCK_SIZE, stop)
    && left == room - |MissingRange(v, start / BLOCK_SIZE, stop)|
  }

  function PieceOffset(start: nat, stop: nat): nat
  {
    if stop == start / BLOCK_SIZE then start % BLOCK_SIZE else 0
  }

  /** The bytes that go into block `stop`, which is not the last. */
  function Piece(buf: seq<byte>, start: nat, stop: nat): (r: seq<byte>)
    requires start / BLOCK_SIZE <= stop < LastBlock(start, |buf|)
    ensures PieceOffset(start, stop) + |r| == BLOCK_SIZE
    ensures BytesBefore(start, |buf|, stop + 1) == BytesBefore(start, |buf|, stop) + |r|
  {
    buf[BytesBefore(start, |buf|, stop)..BytesBefore(start, |buf|, stop + 1)]
  }

  lemma ProgressStarts(v: Vol, buf: seq<byte>, start: nat, room: int)
    requires Good(v) && start < MAX_BYTES
    ensures Progress(v, v, buf, start, start / BLOCK_SIZE, room, room)
  {
    WroteNothing(v, start, start / BLOCK_SIZE);
    assert buf[..0] == [];
  }

  lemma ProgressStep(v: Vol, m: Vol, w: Vol, buf: seq<byte>, start: nat, stop: nat, left: int, room: int)
    requires Good(v) && Progress(v, m, buf, start, stop, left, room) && stop < LastBlock(start, |buf|) && stop < MAX_FILE_SIZE
    requires Grown(m, w, Missing(m, stop))
    requires BlockSpliced(m, w, stop, PieceOffset(start, stop), Piece(buf, start, stop))
    ensures Progress(v, w, buf, start, stop + 1, left - |Missing(m, stop)|, room)
  {
    hide Grown, Missing, BlockSpliced, Wrote, Good;
    var p, q := BytesBefore(start, |buf|, stop), BytesBefore(start, |buf|, stop + 1);
    WroteMore(v, m, w, start, buf[..p], start / BLOCK_SIZE, stop, PieceOffset(start, stop), buf[p..q]);
    assert buf[..p] + buf[p..q] == buf[..q];
  }

  /** The block at which a write stops could not be allocated. */
  lemma ProgressStops(v: Vol, mid: Vol, w: Vol, buf: seq<byte>, start: nat, ret: int, stop: nat, left: int, room: int)
    requires Good(v) && Progress(v, mid, buf, start, stop, left, room) && stop < MAX_FILE_SIZE
    requires 0 <= left < |Missing(mid, stop)| && ret == -ENOSPC
    requires AllocationOutcome(mid, Sized(w, v.d.size), stop, ret, left)
    requires w.d.size == if stop == start / BLOCK_SIZE < LastBlock(start, |buf|) then v.d.size else MAX_BYTES
    ensures WriteOutcome(v, w, buf, start, ret, stop, mid, room)
  {
    hide Wrote, AllocationOutcome, Missing, Good;
    var data := buf[..BytesBefore(start, |buf|, stop)];
    TooBig(v, mid, start, data, start / BLOCK_SIZE, stop, LastBlock(start, |buf|), room);
  }

  /** All blocks of the largest file are written, and the write asks for more. */
  lemma ProgressTooLong(v: Vol, m: Vol, w: Vol, buf: seq<byte>, start: nat, left: nat, room: int)
    requires Good(v) && Progress(v, m, buf, start, MAX_FILE_SIZE, left, room)
    requires LastBlock(start, |buf|) == MAX_FILE_SIZE && w == Sized(m, MAX_BYTES)
    ensures WriteOutcome(v, w, buf, start, -EFBIG, MAX_FILE_SIZE, m, room)
  {
    hide Wrote, Good;
  }

  /** The last block is written. */
  lemma ProgressEnds(v: Vol, m: Vol, w: Vol, x: Vol, buf: seq<byte>, start: nat, left: int, room: int)
    requires var last := LastBlock(start, |buf|);
             && Good(v) && Progress(v, m, buf, start, last, left, room) && last < MAX_FILE_SIZE
             && left >= |Missing(m, last)|
             && Grown(m, w, Missing(m, last))
             && var p := BytesBefore(start, |buf|, last);
                && PieceOffset(start, last) + |buf| - p <= BLOCK_SIZE
                && BlockSpliced(m, w, last, PieceOffset(start, last), buf[p..])
    requires x == Sized(w, if |buf| > 0 && start + |buf| > v.d.size then start + |buf| else v.d.size)
    ensures WriteOutcome(v, x, buf, start, |buf|, LastBlock(start, |buf|), m, room)
  {
    hide Grown, Missing, BlockSpliced, Wrote, Good;
    var last := LastBlock(start, |buf|);
    var p := BytesBefore(start, |buf|, last);
    WroteMore(v, m, w, start, buf[..p], start / BLOCK_SIZE, last, PieceOffset(start, last), buf[p..]);
    assert buf[..p] + buf[p..] == buf;
  }

  lemma OutcomeKeepsSize(v: Vol, w: Vol, log: nat, ret: int, room: int)
    requires log < MAX_FILE_SIZE && |v.d.direct| == NR_DIRECT_BLOCKS && AllocationOutcome(v, w, log, ret, room)
    ensures w.d.size == v.d.size && |w.d.direct| == NR_DIRECT_BLOCKS
  {
  }
}
