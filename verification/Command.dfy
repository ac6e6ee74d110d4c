/**
 The commands on files and directories, down to the blocks (fs/dir.c, fs/inode.c, fs/testfs.c): the bytes of the
 directories form a tree of names after every command, and every command does to that tree what it should.
 */
module Commands {
  import opened Layout
  import opened Codec
  import opened Supers
  import opened BlockMap
  import opened Volumes
  import opened Allocations
  import opened FlatFiles
  import opened Freeing
  import opened FileStates
  import opened Inodes
  import opened FileSystems
  import opened DirLogs
  import opened Directories
  import NT = NameTrees
  import NP = NamePaths

  ghost function NodeOf(d: Dinode, es: seq<Dirent>): NT.Node
  {
    if d.kind == I_DIR then NT.Dir(es) else if d.kind == I_FILE then NT.File else NT.Free
  }

  /** The names that the directories with entries `logs` spell. */
  ghost function NamesOf(f: Fs, logs: seq<seq<Dirent>>, cur: nat): NT.Tree
    requires |logs| == |f.inodes|
  {
    NT.Tree(seq(|logs|, k requires 0 <= k < |logs| => NodeOf(f.inodes[k], logs[k])), cur)
  }

  /** Inode `k` is free and zero, a file, or a directory whose bytes are its entries. */
  ghost predicate NodeOk(v: Vol, es: seq<Dirent>)
  {
    if v.d.kind == I_DIR then IsLog(v, es) else v.d.kind == I_FILE || v.d == ZERO_DINODE
  }

  /** All inodes but those in `bad` are as they should be. */
  ghost predicate LogsOkBut(f: Fs, logs: seq<seq<Dirent>>, bad: set<nat>)
  {
    |logs| == |f.inodes| && forall k: nat | k < |logs| && k !in bad :: NodeOk(Nth(f, k), logs[k])
  }

  ghost predicate LogsOk(f: Fs, logs: seq<seq<Dirent>>)
  {
    LogsOkBut(f, logs, {})
  }

  /** An inode number is taken exactly when the inode is not free. */
  ghost predicate BitsOk(f: Fs, bits: set<nat>)
  {
    forall k: nat :: k in bits <==> k < |f.inodes| && f.inodes[k].kind != I_NONE
  }

  // ---- what happens beside a directory leaves it alone

  lemma LogBeside(f: Fs, g: Fs, k: nat, l: nat, es: seq<Dirent>)
    requires FsOk(f) && FsStep(f, g, k) && l < |f.inodes| && l != k && NodeOk(Nth(f, l), es)
    ensures NodeOk(Nth(g, l), es)
  {
    hide FsOk, FsStep, EntriesOk, Encode;
    OtherFilesUntouched(f, g, k, l);
    SameInode(f, g, k, l);
    if f.inodes[l].kind == I_DIR {
      LogStays(Nth(f, l), Nth(g, l), es);
    }
  }

  lemma SameInode(f: Fs, g: Fs, k: nat, l: nat)
    requires FsStep(f, g, k) && l < |f.inodes| && l != k
    ensures l < |g.inodes| && g.inodes[l] == f.inodes[l]
  {
  }

  lemma LogStays(v: Vol, w: Vol, es: seq<Dirent>)
    requires IsLog(v, es) && w.d.size == v.d.size && |w.d.direct| == NR_DIRECT_BLOCKS && SameContents(v, w)
    requires forall p | ValidPath(p) :: At(w.disk, w.d, p) == At(v.disk, v.d, p)
    ensures IsLog(w, es)
  {
    hide Encode, EntriesOk;
    forall l: nat | l < MAX_FILE_SIZE ensures Phys(w.disk, w.d, l) == Phys(v.disk, v.d, l) {}
    forall pos: nat | pos < MAX_BYTES ensures FileByte(w, pos) == FileByte(v, pos) {}
  }

  lemma StepShape(f: Fs, g: Fs, k: nat)
    requires FsStep(f, g, k)
    ensures k < |f.inodes| == |g.inodes| && forall l: nat | l < |f.inodes| && l != k :: g.inodes[l] == f.inodes[l]
  {
  }

  /** The freemaps and the super block change on the device, the data blocks do not. */
  lemma SameDataKeeps(f: Fs, g: Fs, logs: seq<seq<Dirent>>, bad: set<nat>)
    requires FsOk(f) && LogsOkBut(f, logs, bad) && g.inodes == f.inodes && g.alloc == f.alloc && SameData(f.disk, g.disk)
    ensures FsOk(g) && LogsOkBut(g, logs, bad)
  {
    hide FileOk, NodeOk, Tree, IsLog, SameContents;
    forall k: nat | k < |f.inodes|
      ensures FileOk(Nth(g, k)) && |g.inodes[k].direct| == NR_DIRECT_BLOCKS && TreeOf(g, k) == TreeOf(f, k)
      ensures k !in bad ==> NodeOk(Nth(g, k), logs[k])
    {
      OkOnSameData(Nth(f, k), Nth(g, k), logs[k]);
    }
  }

  lemma OkOnSameData(v: Vol, w: Vol, es: seq<Dirent>)
    requires FileOk(v) && w.d == v.d && w.alloc == v.alloc && SameData(v.disk, w.disk)
    ensures FileOk(w) && (NodeOk(v, es) ==> NodeOk(w, es))
    ensures |v.d.direct| == NR_DIRECT_BLOCKS && Tree(w.disk, w.d) == Tree(v.disk, v.d)
  {
    hide Dense, Holds, EntriesOk, Encode;
    TreeAllocated(v);
    Beside(v, w);
    if v.d.kind == I_DIR && IsLog(v, es) { LogStays(v, w, es); }
  }

  // ---- what a command leaves alone

  /** Inode `l`, its blocks and what its file contains are as they were. */
  ghost predicate SameFile(f: Fs, g: Fs, l: nat)
  {
    && l < |f.inodes| == |g.inodes| && g.inodes[l] == f.inodes[l] && |f.inodes[l].direct| == NR_DIRECT_BLOCKS
    && TreeOf(g, l) == TreeOf(f, l) && SameContents(Nth(f, l), Nth(g, l))
  }

  /** All inodes but those in `ks` are as they were. */
  ghost predicate OthersSame(f: Fs, g: Fs, ks: set<nat>)
  {
    |f.inodes| == |g.inodes| && forall l: nat | l < |f.inodes| && l !in ks :: SameFile(f, g, l)
  }

  lemma StepOthers(f: Fs, g: Fs, k: nat)
    requires FsOk(f) && FsStep(f, g, k)
    ensures OthersSame(f, g, {k})
  {
    hide FsOk, FsStep, Tree, SameContents;
    StepShape(f, g, k);
    forall l: nat | l < |f.inodes| && l != k ensures SameFile(f, g, l) {
      OtherFilesUntouched(f, g, k, l);
    }
  }

  lemma SameDataOthers(f: Fs, g: Fs, ks: set<nat>)
    requires FsOk(f) && |g.inodes| == |f.inodes| && g.alloc == f.alloc && SameData(f.disk, g.disk)
    requires forall l: nat | l < |f.inodes| && l !in ks :: g.inodes[l] == f.inodes[l]
    ensures OthersSame(f, g, ks)
  {
    hide FsOk, Tree, SameContents, SameMap;
    forall l: nat | l < |f.inodes| && l !in ks ensures SameFile(f, g, l) {
      FileIsOk(f, l);
      OkOnSameData(Nth(f, l), Nth(g, l), []);
      SameDataSameFile(Nth(f, l), Nth(g, l));
    }
  }

  lemma OthersTrans(f: Fs, g: Fs, h: Fs, ks: set<nat>, js: set<nat>)
    requires OthersSame(f, g, ks) && OthersSame(g, h, js)
    ensures OthersSame(f, h, ks + js)
  {
    hide SameFile;
    forall l: nat | l < |f.inodes| && l !in ks + js ensures SameFile(f, h, l) {
      assert SameFile(f, g, l) && SameFile(g, h, l);
      SameFileTrans(f, g, h, l);
    }
  }

  lemma SameFileTrans(f: Fs, g: Fs, h: Fs, l: nat)
    requires SameFile(f, g, l) && SameFile(g, h, l)
    ensures SameFile(f, h, l)
  {
    hide Tree, Content;
  }

  /** All files and directories but those in `ks` are as they were. */
  ghost predicate UsedSame(f: Fs, g: Fs, ks: set<nat>)
  {
    && |f.inodes| == |g.inodes|
    && forall l: nat | l < |f.inodes| && l !in ks && f.inodes[l].kind != I_NONE :: SameFile(f, g, l)
  }

  lemma UsedSameTrans(f: Fs, g: Fs, h: Fs, ks: set<nat>, js: set<nat>)
    requires UsedSame(f, g, ks) && OthersSame(g, h, js)
    requires forall k: nat | k in js && k < |f.inodes| && k !in ks :: f.inodes[k].kind == I_NONE
    ensures UsedSame(f, h, ks)
  {
    hide SameFile;
    forall l: nat | l < |f.inodes| && l !in ks && f.inodes[l].kind != I_NONE ensures SameFile(f, h, l) {
      assert SameFile(f, g, l) && SameFile(g, h, l);
      SameFileTrans(f, g, h, l);
    }
  }

  lemma FreeIsNotUsed(f: Fs, g: Fs, k: nat)
    requires OthersSame(f, g, {k}) && k < |f.inodes| && f.inodes[k].kind == I_NONE
    ensures UsedSame(f, g, {})
  {
    hide SameFile;
  }

  lemma NothingIsSame(f: Fs, g: Fs)
    requires OthersSame(f, g, {})
    ensures UsedSame(f, g, {})
  {
    hide SameFile;
  }

  /** The files and directories that are not excepted keep their inodes and what they contain. */
  lemma UsedIs(f: Fs, g: Fs, ks: set<nat>)
    requires UsedSame(f, g, ks)
    ensures forall l: nat | l < |f.inodes| && l !in ks && f.inodes[l].kind != I_NONE ::
              |f.inodes[l].direct| == NR_DIRECT_BLOCKS && g.inodes[l] == f.inodes[l] && SameContents(Nth(f, l), Nth(g, l))
  {
    hide SameContents, Tree;
    forall l: nat | l < |f.inodes| && l !in ks && f.inodes[l].kind != I_NONE
      ensures |f.inodes[l].direct| == NR_DIRECT_BLOCKS && g.inodes[l] == f.inodes[l] && SameContents(Nth(f, l), Nth(g, l))
    {
      assert SameFile(f, g, l);
    }
  }

  /** What two steps with inodes `k` and `l` leave alone. */
  lemma SameFileOf(f: Fs, g: Fs, h: Fs, k: nat, l: nat)
    requires OthersSame(f, g, {k}) && OthersSame(f, h, {k} + {l}) && k != l && l < |f.inodes|
    ensures |f.inodes[l].direct| == |g.inodes[l].direct| == NR_DIRECT_BLOCKS && TreeOf(g, l) == TreeOf(f, l)
    ensures forall j: nat | j < |f.inodes| && j != k && j != l ::
              |f.inodes[j].direct| == NR_DIRECT_BLOCKS && h.inodes[j] == f.inodes[j] && SameContents(Nth(f, j), Nth(h, j))
  {
    hide SameContents, Tree;
    assert SameFile(f, g, l);
    forall j: nat | j < |f.inodes| && j != k && j != l
      ensures |f.inodes[j].direct| == NR_DIRECT_BLOCKS && h.inodes[j] == f.inodes[j] && SameContents(Nth(f, j), Nth(h, j))
    {
      assert SameFile(f, h, j);
    }
  }

  lemma NothingChanged(f: Fs)
    requires FsOk(f)
    ensures UsedSame(f, f, {})
  {
    hide Tree, Content, FileOk;
  }

  lemma UsedSameBut(f: Fs, g: Fs, k: nat)
    requires UsedSame(f, g, {})
    ensures UsedSame(f, g, {k})
  {
    hide SameFile;
  }

  /** When one inode alone has given up its blocks they are free, and no others are. */
  lemma AllocWithout(f: Fs, g: Fs, k: nat)
    requires FsOk(f) && FsOk(g) && OthersSame(f, g, {k}) && k < |f.inodes| && g.inodes[k] == ZERO_DINODE
    ensures |f.inodes[k].direct| == NR_DIRECT_BLOCKS && g.alloc == f.alloc - TreeOf(f, k)
  {
    hide Tree, SameContents, FileOk;
    FileIsOk(f, k);
    FileIsOk(g, k);
    NoTree(Nth(g, k));
    forall b ensures b in g.alloc <==> b in f.alloc && b !in TreeOf(f, k) {
      if b in g.alloc {
        var l: nat :| l < |g.inodes| && b in TreeOf(g, l);
        assert SameFile(f, g, l);
        InAlloc(f, l, b);
      }
      if b in f.alloc && b !in TreeOf(f, k) {
        var l: nat :| l < |f.inodes| && b in TreeOf(f, l);
        assert SameFile(f, g, l);
        InAlloc(g, l, b);
      }
    }
  }

  lemma NoTree(v: Vol)
    requires v.d == ZERO_DINODE && Good(v)
    ensures Tree(v.disk, v.d) == {}
  {
    assert FreeIsZero(v);
    ZeroIsOk(v);
  }

  lemma NoBlocks(v: Vol)
    requires v.d == ZERO_DINODE.(kind := I_DIR) && Good(v)
    ensures Tree(v.disk, v.d) == {}
  {
    assert FreeIsZero(v);
    ZeroIsOk(v);
  }

  lemma InAlloc(f: Fs, l: nat, b: int)
    requires FsOk(f) && l < |f.inodes| && |f.inodes[l].direct| == NR_DIRECT_BLOCKS && b in TreeOf(f, l)
    ensures b in f.alloc
  {
    FileIsOk(f, l);
    TreeAllocated(Nth(f, l));
  }

  /** Overwriting an entry fills no position: the inode and its blocks are as they were. */
  lemma OverwriteKeepsInode(v: Vol, w: Vol, es: seq<Dirent>, i: nat, buf: seq<byte>, ret: int, stop: nat, mid: Vol, room: int)
    requires IsLog(v, es) && Good(v) && i < |es| && |buf| == |Bytes(es[i])| && ret >= 0 && Pos(es, i) < MAX_BYTES
    requires WriteOutcome(v, w, buf, Pos(es, i), ret, stop, mid, room)
    ensures w.d == v.d && w.alloc == v.alloc && Tree(w.disk, w.d) == Tree(v.disk, v.d)
  {
    hide Good, Written, MissingRange, AllocationOutcome, Dense, Encode, Bytes, Parses, EntriesOk, Grown;
    LogEntries(v, es);
    Split(es, i);
    var start, n := Pos(es, i), |buf|;
    EntryFields(es[i], Bytes(es[i])[0..HEADER]);
    LastBlockBound(start, n);
    SizeBlocksMonotone(start + n, v.d.size);
    NothingMissingWithin(v, start / BLOCK_SIZE, LastBlock(start, n) + 1);
    GrownByNone(v, Sized(w, v.d.size));
    assert w.d.size == v.d.size;
    assert Sized(w, v.d.size) == w;
  }

  lemma GrownByNone(v: Vol, w: Vol)
    requires Good(v) && Grown(v, w, {})
    ensures w.d == v.d && w.alloc == v.alloc && |v.d.direct| == NR_DIRECT_BLOCKS && Tree(w.disk, w.d) == Tree(v.disk, v.d)
  {
    GrownShape(v, w);
    forall i | 0 <= i < NR_DIRECT_BLOCKS ensures w.d.direct[i] == v.d.direct[i] {
      assert At(w.disk, w.d, Direct(i)) == At(v.disk, v.d, Direct(i));
    }
    assert w.d.direct == v.d.direct;
    RootIsDindirect(v);
    RootIsDindirect(w);
    assert forall b :: Named(w.disk, w.d, b) <==> Named(v.disk, v.d, b);
    assert Tree(w.disk, w.d) == Tree(v.disk, v.d);
    assert w.alloc == v.alloc + (w.alloc - v.alloc);
  }

  lemma GrownShape(v: Vol, w: Vol)
    requires Grown(v, w, {})
    ensures |v.d.direct| == |w.d.direct| == NR_DIRECT_BLOCKS
    ensures forall p | ValidPath(p) :: At(w.disk, w.d, p) == At(v.disk, v.d, p)
  {
  }

  // ---- what the steps of a command do to one inode

  /** Writing the entry of a name where it goes is none of the harmful writes, with this much room. */
  ghost predicate EntryHarmless(v: Vol, es: seq<Dirent>, name: seq<byte>, room: int)
  {
    && |v.d.direct| == NR_DIRECT_BLOCKS && v.d.size >= 0 && EntriesOk(es)
    && Pos(es, Slot(es, |name|)) < MAX_BYTES
    && !Harmful(v, Pos(es, Slot(es, |name|)), HEADER + |name| + 1, room)
  }

  /** No entry within the direct and indirect blocks does harm. */
  lemma ShortEntryIsHarmless(v: Vol, es: seq<Dirent>, name: seq<byte>, room: int)
    requires |v.d.direct| == NR_DIRECT_BLOCKS && v.d.size >= 0 && EntriesOk(es)
    requires |Encode(es)| + HEADER + |name| + 1 <= FIRST_DOUBLE * BLOCK_SIZE
    ensures EntryHarmless(v, es, name, room)
  {
    hide Encode, Harmful;
    ShortIsHarmless(v, Pos(es, Slot(es, |name|)), HEADER + |name| + 1, room);
  }

  /** The room covers the blocks that are missing where the entry of a name goes. */
  ghost predicate EntryFits(v: Vol, es: seq<Dirent>, name: seq<byte>, room: int)
  {
    && |v.d.direct| == NR_DIRECT_BLOCKS && EntriesOk(es) && |Encode(es)| + HEADER + |name| + 1 < INT_LIMIT
    && Fits(v, Pos(es, Slot(es, |name|)), HEADER + |name| + 1, room)
  }

  /** Not even the first block of several can be had, where the entry of a name goes. */
  ghost predicate EntryGivesUp(v: Vol, es: seq<Dirent>, name: seq<byte>, room: int)
  {
    && |v.d.direct| == NR_DIRECT_BLOCKS && EntriesOk(es) && |Encode(es)| + HEADER + |name| + 1 < INT_LIMIT
    && GivesUpAtOnce(v, Pos(es, Slot(es, |name|)), HEADER + |name| + 1, room)
  }

  /** What changes no byte of a directory does not make entries of it. */
  lemma StaysLost(v: Vol, w: Vol)
    requires SameMap(v, w) && SameContents(v, w) && Lost(v)
    ensures Lost(w)
  {
    forall es ensures !Parses(w, es) {
      if Parses(w, es) { ParsesBefore(v, w, es); }
    }
  }

  lemma ParsesBefore(v: Vol, w: Vol, es: seq<Dirent>)
    requires SameMap(v, w) && SameContents(v, w) && Parses(w, es)
    ensures Parses(v, es)
  {
    hide Encode, EntriesOk;
    forall pos: nat | pos < MAX_BYTES ensures FileByte(w, pos) == FileByte(v, pos) {}
  }

  /** The same inode over the same blocks. */
  ghost predicate SameMap(v: Vol, w: Vol)
  {
    |v.d.direct| == NR_DIRECT_BLOCKS && w.d == v.d && forall p | ValidPath(p) :: At(w.disk, w.d, p) == At(v.disk, v.d, p)
  }

  lemma SameMapTrans(u: Vol, v: Vol, w: Vol)
    requires SameMap(u, v) && SameMap(v, w)
    ensures SameMap(u, w)
  {
  }

  lemma {:induction false} SameMissing(v: Vol, w: Vol, lo: nat, hi: nat)
    requires SameMap(v, w) && hi <= MAX_FILE_SIZE
    ensures MissingRange(v, lo, hi) == MissingRange(w, lo, hi)
    decreases hi
  {
    hide At;
    if lo < hi {
      SameMissing(v, w, lo, hi - 1);
      assert Missing(v, hi - 1) == Missing(w, hi - 1);
    }
  }

  lemma SameHarm(v: Vol, w: Vol, es: seq<Dirent>, name: seq<byte>, room: int)
    requires SameMap(v, w) && EntryHarmless(v, es, name, room)
    ensures EntryHarmless(w, es, name, room)
  {
    hide MissingRange, Encode, EntriesOk;
    var start := Pos(es, Slot(es, |name|));
    if FirstDoubly(start) < MAX_FILE_SIZE {
      SameMissing(v, w, start / BLOCK_SIZE, FirstDoubly(start));
    }
  }

  lemma SameFits(v: Vol, w: Vol, es: seq<Dirent>, name: seq<byte>, room: int)
    requires SameMap(v, w)
    ensures EntryFits(v, es, name, room) <==> EntryFits(w, es, name, room)
    ensures EntryGivesUp(v, es, name, room) <==> EntryGivesUp(w, es, name, room)
  {
    hide MissingRange, Encode, EntriesOk, At;
    if EntriesOk(es) && |Encode(es)| + HEADER + |name| + 1 < INT_LIMIT {
      var start := Pos(es, Slot(es, |name|));
      LastBlockBound(start, HEADER + |name| + 1);
      SameMissing(v, w, start / BLOCK_SIZE, LastBlock(start, HEADER + |name| + 1) + 1);
      assert Missing(v, start / BLOCK_SIZE) == Missing(w, start / BLOCK_SIZE);
      if FirstDoubly(start) < MAX_FILE_SIZE {
        SameMissing(v, w, start / BLOCK_SIZE, FirstDoubly(start));
      }
    }
  }

  lemma ShortIsHarmless(v: Vol, start: nat, n: nat, room: int)
    requires |v.d.direct| == NR_DIRECT_BLOCKS && v.d.size >= 0 && 0 < n && start + n <= FIRST_DOUBLE * BLOCK_SIZE
    ensures start < MAX_BYTES && !Harmful(v, start, n, room) && !MeetsRoot(v, start, n, room, 2)
  {
    LastBlockBound(start, n);
  }

  lemma OutcomeKeepsKind(v: Vol, w: Vol, buf: seq<byte>, start: nat, ret: int, stop: nat, mid: Vol, room: int)
    requires start < MAX_BYTES && |v.d.direct| == NR_DIRECT_BLOCKS
    requires WriteOutcome(v, w, buf, start, ret, stop, mid, room)
    ensures w.d.kind == v.d.kind
  {
    hide MissingRange, Missing, Written, Good, SameContents, OthersKept, LastBlock, BytesBefore;
    if ret < 0 && ret != -EFBIG {
      FailedKeepsKind(mid, Sized(w, v.d.size), stop, ret, room - |MissingRange(v, start / BLOCK_SIZE, stop)|);
    }
  }

  lemma FailedKeepsKind(m: Vol, x: Vol, log: nat, ret: int, left: int)
    requires log < MAX_FILE_SIZE && |m.d.direct| == NR_DIRECT_BLOCKS && AllocationOutcome(m, x, log, ret, left)
    ensures x.d.kind == m.d.kind
  {
  }

  /** A write within the direct and indirect blocks leaves the double indirect block alone. */
  lemma KeepsNoRoot(v: Vol, w: Vol, buf: seq<byte>, start: nat, ret: int, stop: nat, mid: Vol, room: int)
    requires Good(v) && v.d.dindirect == 0 && 0 < |buf| && start + |buf| <= FIRST_DOUBLE * BLOCK_SIZE
    requires start < MAX_BYTES && |v.d.direct| == NR_DIRECT_BLOCKS
    requires WriteOutcome(v, w, buf, start, ret, stop, mid, room)
    ensures w.d.dindirect == 0
  {
    hide MissingRange, Missing, Good, Written, SameContents, LastBlock, BytesBefore;
    LastBlockBound(start, |buf|);
    var lo := start / BLOCK_SIZE;
    if ret >= 0 {
      GrowsNoRoot(v, Sized(w, v.d.size), lo, LastBlock(start, |buf|) + 1);
    } else {
      GrowsNoRoot(v, mid, lo, stop);
      FailsWithoutRoot(mid, Sized(w, v.d.size), stop, ret, room - |MissingRange(v, lo, stop)|);
    }
  }

  /** The first entry of a directory needs a block, and no more if it fits into one. */
  lemma FirstEntryFits(v: Vol, w: Vol, e: Dirent, ret: int, stop: nat, mid: Vol, room: nat)
    requires v.d == ZERO_DINODE.(kind := I_DIR) && EntryOk(e)
    requires WriteOutcome(v, w, Bytes(e), 0, ret, stop, mid, room)
    ensures ret >= 0 ==> room > 0
    ensures |Bytes(e)| <= BLOCK_SIZE ==> (ret >= 0 <==> room > 0)
    ensures |Bytes(e)| <= BLOCK_SIZE && ret >= 0 ==> |w.alloc| == |v.alloc| + 1
  {
    hide Written, AllocationOutcome, Bytes, Good, MissingRange, Missing;
    FirstMissing(v);
    if ret >= 0 {
      RangeSizeMonotone(v, 0, 1, LastBlock(0, |Bytes(e)|) + 1);
    }
  }

  lemma FirstMissing(v: Vol)
    requires |v.d.direct| == NR_DIRECT_BLOCKS && v.d.direct[0] == 0
    ensures |MissingRange(v, 0, 0)| == 0 && |MissingRange(v, 0, 1)| == 1
  {
    MissingDirect(v, 0);
    assert MissingRange(v, 0, 0) == {};
    assert MissingRange(v, 0, 1) == Missing(v, 0);
  }

  lemma GrowsNoRoot(v: Vol, w: Vol, lo: nat, hi: nat)
    requires Good(v) && v.d.dindirect == 0 && hi <= FIRST_DOUBLE && |v.d.direct| == NR_DIRECT_BLOCKS
    requires Grown(v, w, MissingRange(v, lo, hi))
    ensures w.d.dindirect == 0 && |w.d.direct| == NR_DIRECT_BLOCKS
  {
    hide Good, Missing, MissingRange, Grown;
    if Dind in MissingRange(v, lo, hi) {
      NoRootBefore(v, lo, hi, Dind);
    }
    GrownBeside(v, w, MissingRange(v, lo, hi), Dind);
  }

  lemma FailsWithoutRoot(m: Vol, x: Vol, log: nat, ret: int, left: int)
    requires log < FIRST_DOUBLE && |m.d.direct| == NR_DIRECT_BLOCKS && AllocationOutcome(m, x, log, ret, left) && ret < 0
    ensures x.d.dindirect == m.d.dindirect
  {
  }

  /** A write to one inode, as a step of the whole file system. */
  lemma WriteIsStep(f: Fs, g: Fs, k: nat, buf: seq<byte>, start: nat, ret: int, stop: nat, mid: Vol, room: int)
    requires FsOk(f) && k < |f.inodes| == |g.inodes| && |f.inodes[k].direct| == NR_DIRECT_BLOCKS && start < MAX_BYTES
    requires forall l: nat | l < |f.inodes| && l != k :: g.inodes[l] == f.inodes[l]
    requires f.inodes[k].size >= 0 && !Harmful(Nth(f, k), start, |buf|, room)
    requires WriteOutcome(Nth(f, k), Nth(g, k), buf, start, ret, stop, mid, room)
    ensures FsStep(f, g, k) && g.inodes[k].kind == f.inodes[k].kind
  {
    hide WriteOutcome, Harmful, FileOk, LocalStep;
    FileIsOk(f, k);
    WriteIsLocal(Nth(f, k), Nth(g, k), buf, start, ret, stop, mid, room);
    OutcomeKeepsKind(Nth(f, k), Nth(g, k), buf, start, ret, stop, mid, room);
  }

  /** One inode makes a step: the others stay as they should be. */
  lemma StepKeepsLogsBut(f: Fs, g: Fs, k: nat, logs: seq<seq<Dirent>>, bad: set<nat>)
    requires FsOk(f) && LogsOkBut(f, logs, bad) && FsStep(f, g, k)
    ensures FsOk(g) && LogsOkBut(g, logs, bad + {k})
  {
    hide FsOk, FsStep, NodeOk;
    StepKeepsOrder(f, g, k);
    StepShape(f, g, k);
    forall l: nat | l < |logs| && l !in bad + {k} ensures NodeOk(Nth(g, l), logs[l]) {
      LogBeside(f, g, k, l, logs[l]);
    }
  }

  /** The bytes are those of no entries. */
  ghost predicate Lost(v: Vol)
  {
    forall es :: !Parses(v, es)
  }

  /** Whether the entry of a name is written is decided by the room, and so is what becomes of the directory. */
  lemma EntryOutcome(v: Vol, w: Vol, es: seq<Dirent>, name: seq<byte>, nr: nat, ret: int, stop: nat, mid: Vol, room: nat)
    requires FileOk(v) && IsLog(v, es) && nr < INT_LIMIT && IsName(name)
    requires |Encode(es)| + HEADER + |name| + 1 < INT_LIMIT
    requires WriteOutcome(v, w, Bytes(Dirent(nr, name)), Pos(es, Slot(es, |name|)), ret, stop, mid, room)
    ensures ret >= 0 <==> EntryFits(v, es, name, room)
    ensures ret < 0 ==> ret == -ENOSPC
    ensures ret < 0 ==> if EntryGivesUp(v, es, name, room) then IsLog(w, es) else Lost(w)
  {
    hide WriteOutcome, IsLog, Encode, EntriesOk, FileOk, Good, Harmful, MeetsRoot, Parses, Fits, GivesUpAtOnce;
    LogEntries(v, es);
    OkIsGood(v);
    var e, start := Dirent(nr, name), Pos(es, Slot(es, |name|));
    assert |Bytes(e)| == HEADER + |name| + 1;
    EndsIff(v, w, Bytes(e), start, ret, stop, mid, room);
    if ret < 0 {
      AddOutcome(v, w, es, name, nr, ret, stop, mid, room);
      PosEnd(es);
      FailedAddIff(v, w, es, e, ret, stop, mid, room);
    }
  }

  /** If that inode, too, is what it should be, all is well. */
  lemma StepKeepsLogs(f: Fs, g: Fs, k: nat, logs: seq<seq<Dirent>>, bad: set<nat>, es: seq<Dirent>)
    requires FsOk(f) && LogsOkBut(f, logs, bad) && FsStep(f, g, k) && NodeOk(Nth(g, k), es)
    ensures FsOk(g) && |logs| == |g.inodes| && k < |logs| && LogsOkBut(g, logs[k := es], bad - {k})
  {
    hide FsOk, FsStep, NodeOk;
    StepKeepsOrder(f, g, k);
    StepShape(f, g, k);
    forall l: nat | l < |logs| && l !in bad - {k} ensures NodeOk(Nth(g, l), logs[k := es][l]) {
      if l != k { LogBeside(f, g, k, l, logs[l]); }
    }
  }

  /** Writing the entry of a name, or failing to, leaves the file system in order exactly if it is a harmless entry. */
  lemma EntryKeepsOrderIff(f: Fs, g: Fs, k: nat, es: seq<Dirent>, name: seq<byte>, nr: nat, ret: int, stop: nat, mid: Vol,
                           room: int)
    requires FsOk(f) && k < |f.inodes| == |g.inodes| && IsLog(Nth(f, k), es) && nr < INT_LIMIT && IsName(name)
    requires |Encode(es)| + HEADER + |name| + 1 < INT_LIMIT
    requires forall l: nat | l < |f.inodes| && l != k :: g.inodes[l] == f.inodes[l]
    requires WriteOutcome(Nth(f, k), Nth(g, k), Bytes(Dirent(nr, name)), Pos(es, Slot(es, |name|)), ret, stop, mid, room)
    ensures FsOk(g) <==> EntryHarmless(Nth(f, k), es, name, room)
  {
    hide FsOk, WriteOutcome, IsLog, Encode, EntriesOk, Harmful;
    FileIsOk(f, k);
    LogEntries(Nth(f, k), es);
    assert |Bytes(Dirent(nr, name))| == HEADER + |name| + 1;
    WriteKeepsFsIff(f, g, k, Bytes(Dirent(nr, name)), Pos(es, Slot(es, |name|)), ret, stop, mid, room);
  }

  /** An entry was added to directory `k`, or could not be: the file system as a whole. */
  lemma EntryStep(f: Fs, g: Fs, k: nat, logs: seq<seq<Dirent>>, name: seq<byte>, nr: nat, ret: int, stop: nat, mid: Vol,
                  room: nat)
    requires FsOk(f) && LogsOk(f, logs) && k < |f.inodes| == |g.inodes| == |logs| && f.inodes[k].kind == I_DIR
    requires nr < INT_LIMIT && IsName(name) && EntriesOk(logs[k]) && Lookup(logs[k], name) < 0
    requires |Encode(logs[k])| + HEADER + |name| + 1 < INT_LIMIT && EntryHarmless(Nth(f, k), logs[k], name, room)
    requires forall l: nat | l < |f.inodes| && l != k :: g.inodes[l] == f.inodes[l]
    requires WriteOutcome(Nth(f, k), Nth(g, k), Bytes(Dirent(nr, name)), Pos(logs[k], Slot(logs[k], |name|)),
                          ret, stop, mid, room)
    requires ret >= 0 ==> IsLog(Nth(g, k), Added(logs[k], name, nr))
    requires Slot(logs[k], |name|) < |logs[k]| ==> ret >= 0
    ensures FsStep(f, g, k) && g.inodes[k].kind == I_DIR && FsOk(g) && LogsOkBut(g, logs, {k})
    ensures ret >= 0 <==> EntryFits(Nth(f, k), logs[k], name, room)
    ensures ret >= 0 ==> LogsOk(g, logs[k := Added(logs[k], name, nr)])
    ensures ret < 0 ==> ret == -ENOSPC
    ensures ret < 0 ==> if EntryGivesUp(Nth(f, k), logs[k], name, room) then LogsOk(g, logs) else Lost(Nth(g, k))
    ensures EntryCost(Nth(f, k), Nth(g, k), logs[k], name, ret, room)
  {
    hide FsOk, FileOk, WriteOutcome, FsStep, IsLog, LogsOkBut, Encode, EntriesOk, Good, EntryFits, EntryGivesUp, Lookup,
      Harmful, Lost, Added, EntryCost;
    var v, es, e := Nth(f, k), logs[k], Dirent(nr, name);
    FileIsOk(f, k);
    LogAt(f, logs, k);
    assert |Bytes(e)| == HEADER + |name| + 1;
    EntryCosts(v, Nth(g, k), es, name, nr, ret, stop, mid, room);
    EntryOutcome(v, Nth(g, k), es, name, nr, ret, stop, mid, room);
    WriteIsStep(f, g, k, Bytes(e), Pos(es, Slot(es, |name|)), ret, stop, mid, room);
    StepKeepsLogsBut(f, g, k, logs, {});
    NoneBad(k);
    if ret >= 0 {
      StepKeepsLogs(f, g, k, logs, {}, Added(es, name, nr));
    } else if EntryGivesUp(v, es, name, room) {
      StepKeepsLogs(f, g, k, logs, {}, es);
      assert logs[k := es] == logs;
    }
  }

  /** What an entry needs: no double indirect block, if it is short; one block, if it is the first; none, if the last has room. */
  ghost predicate EntryCost(v: Vol, w: Vol, es: seq<Dirent>, name: seq<byte>, ret: int, room: int)
    requires EntriesOk(es)
  {
    var n := HEADER + |name| + 1;
    && (v.d.dindirect == 0 && |Encode(es)| + n <= FIRST_DOUBLE * BLOCK_SIZE ==> w.d.dindirect == 0)
    && (v.d == ZERO_DINODE.(kind := I_DIR) && es == [] && n <= BLOCK_SIZE ==>
          (ret >= 0 <==> room > 0) && (ret >= 0 ==> |w.alloc| == |v.alloc| + 1))
    && (0 < |Encode(es)| % BLOCK_SIZE && |Encode(es)| % BLOCK_SIZE + n <= BLOCK_SIZE ==>
          ret >= 0 && (Slot(es, |name|) == |es| ==> |w.alloc| == |v.alloc|))
  }

  lemma EntryCosts(v: Vol, w: Vol, es: seq<Dirent>, name: seq<byte>, nr: nat, ret: int, stop: nat, mid: Vol, room: nat)
    requires IsLog(v, es) && Good(v) && IsName(name) && nr < INT_LIMIT && |Encode(es)| + HEADER + |name| + 1 < INT_LIMIT
    requires WriteOutcome(v, w, Bytes(Dirent(nr, name)), Pos(es, Slot(es, |name|)), ret, stop, mid, room)
    requires Slot(es, |name|) < |es| ==> ret >= 0
    ensures EntryCost(v, w, es, name, ret, room)
  {
    hide WriteOutcome, IsLog, Encode, EntriesOk, Good;
    LogEntries(v, es);
    PosEnd(es);
    var e, last := Dirent(nr, name), |Encode(es)| % BLOCK_SIZE;
    assert |Bytes(e)| == HEADER + |name| + 1;
    if 0 < last && last + |Bytes(e)| <= BLOCK_SIZE && Slot(es, |name|) == |es| {
      FitsInLastBlock(v, w, es, e, ret, stop, mid, room);
    }
    if v.d == ZERO_DINODE.(kind := I_DIR) && es == [] {
      FirstEntryFits(v, w, e, ret, stop, mid, room);
    }
    if v.d.dindirect == 0 && |Encode(es)| + |Bytes(e)| <= FIRST_DOUBLE * BLOCK_SIZE {
      KeepsNoRoot(v, w, Bytes(e), Pos(es, Slot(es, |name|)), ret, stop, mid, room);
    }
  }

  lemma NoneBad(k: nat)
    ensures {} - {k} == {} && {} + {k} == {k} && {k} - {k} == {}
  {
  }

  /** A directory that is lost stays so when another inode is removed. */
  lemma RemovalBeside(f: Fs, g: Fs, h: Fs, k: nat)
    requires FsOk(f) && FsStep(f, g, k) && h.inodes == g.inodes && h.alloc == g.alloc && SameData(g.disk, h.disk)
    ensures |f.inodes| == |h.inodes|
    ensures forall l: nat | l < |f.inodes| && l != k && Lost(Nth(f, l)) :: Lost(Nth(h, l))
  {
    hide FsOk, FsStep, Lost, SameMap, SameContents;
    StepKeepsOrder(f, g, k);
    StepShape(f, g, k);
    forall l: nat | l < |f.inodes| && l != k && Lost(Nth(f, l)) ensures Lost(Nth(h, l)) {
      StepKeepsMap(f, g, k, l);
      StaysLost(Nth(f, l), Nth(g, l));
      FileIsOk(g, l);
      SameDataSameFile(Nth(g, l), Nth(h, l));
      StaysLost(Nth(g, l), Nth(h, l));
    }
  }

  lemma SameDataSameFile(v: Vol, w: Vol)
    requires Good(v) && w.d == v.d && w.alloc == v.alloc && SameData(v.disk, w.disk)
    ensures SameMap(v, w) && SameContents(v, w)
  {
    GoodIsSound(v);
    SameDataSameMap(v, w);
    Untouched(v.disk, v.d, w.disk);
  }

  lemma LocalStepTrans(f: Fs, g: Fs, h: Fs, k: nat)
    requires FsStep(f, g, k) && FsStep(g, h, k)
    ensures FsStep(f, h, k)
  {
    hide FileOk, OthersKept;
    OthersKeptTrans(Nth(f, k), Nth(g, k), Nth(h, k));
  }

  /** The type of an inode is set. */
  lemma KindIsStep(f: Fs, g: Fs, k: nat, kind: int)
    requires FsOk(f) && k < |f.inodes| && g == f.(inodes := f.inodes[k := f.inodes[k].(kind := kind)])
    ensures FsStep(f, g, k)
  {
    hide ThirdsUsed, Covered, FreeIsZero, At;
    var v, w := Nth(f, k), Nth(g, k);
    FileIsOk(f, k);
    KindIsNoBlock(v, w, kind);
  }

  lemma KindIsNoBlock(v: Vol, w: Vol, kind: int)
    requires FileOk(v) && w == v.(d := v.d.(kind := kind))
    ensures FileOk(w) && |v.d.direct| == NR_DIRECT_BLOCKS && OthersKept(v, w)
  {
    assert forall p | ValidPath(p) :: At(w.disk, w.d, p) == At(v.disk, v.d, p);
    assert forall b :: Named(w.disk, w.d, b) <==> Named(v.disk, v.d, b);
    assert Tree(w.disk, w.d) == Tree(v.disk, v.d);
    assert forall p :: InUse(w, p) <==> InUse(v, p);
    ThirdsFollow(v, w);
  }

  lemma SameKindsSameBits(f: Fs, g: Fs, bits: set<nat>)
    requires BitsOk(f, bits) && |f.inodes| == |g.inodes|
    requires forall l: nat | l < |f.inodes| :: g.inodes[l].kind == f.inodes[l].kind
    ensures BitsOk(g, bits)
  {
  }

  lemma FewBits(f: Fs, bits: set<nat>)
    requires BitsOk(f, bits)
    ensures |bits| <= |f.inodes|
  {
    FewBelow(bits, |f.inodes|);
  }

  lemma {:induction false} FewBelow(s: set<nat>, n: nat)
    requires forall k | k in s :: k < n
    ensures |s| <= n
    decreases n
  {
    if n > 0 {
      FewBelow(s - {n - 1}, n - 1);
    } else {
      assert s == {};
    }
  }

  lemma AllFree(f: Fs, logs: seq<seq<Dirent>>)
    requires |logs| == |f.inodes| && forall k | 0 <= k < |logs| :: f.inodes[k] == ZERO_DINODE
    ensures LogsOk(f, logs) && BitsOk(f, {})
  {
  }

  lemma EmptyIsLog(v: Vol)
    requires v.d.(kind := I_NONE) == ZERO_DINODE
    ensures IsLog(v, [])
  {
  }

  /** testfs with all its inodes in memory. */
  class Testfs {
    const fs: FileSystem
    ghost var logs: seq<seq<Dirent>>
    var cur: nat

    /** The file system is in order and the inode numbers in use are marked; nothing is said about names. */
    ghost predicate Ordered()
      reads this, fs, fs.inodes, fs.sb, fs.sb.inodeFreemap, fs.sb.inodeFreemap.v, fs.sb.blockFreemap, fs.sb.blockFreemap.v
    {
      && fs.Valid() && |fs.inodes| == NR_INODES == |logs|
      && (forall k | 0 <= k < |fs.inodes| :: fs.inodes[k].nr == k)
      && BitsOk(fs.View(), fs.sb.inodeFreemap.bits)
    }

    /** All directories are logs of entries. */
    ghost predicate Readable()
      reads this, fs, fs.inodes, fs.sb, fs.sb.inodeFreemap, fs.sb.inodeFreemap.v, fs.sb.blockFreemap, fs.sb.blockFreemap.v
    {
      Ordered() && LogsOk(fs.View(), logs)
    }

    ghost function Names(): NT.Tree
      requires |logs| == |fs.inodes|
      reads this, fs, fs.inodes, fs.sb
    {
      NamesOf(fs.View(), logs, cur)
    }

    /** The directories spell a tree of names. */
    ghost predicate Named()
      reads this, fs, fs.inodes, fs.sb, fs.sb.inodeFreemap, fs.sb.inodeFreemap.v, fs.sb.blockFreemap, fs.sb.blockFreemap.v
    {
      Readable() && NT.IsTree(Names())
    }

    /** No inode waits to be written to the device. */
    ghost predicate Clean()
      reads this, fs, fs.inodes
    {
      forall k | 0 <= k < |fs.inodes| :: !fs.inodes[k].dirty
    }

    /** An inode number is free. */
    ghost predicate NumberLeft()
      reads this, fs, fs.inodes
    {
      exists k: nat :: k < |fs.inodes| && fs.inodes[k].d.kind == I_NONE
    }

    /** There is an inode number for a new file or directory, and a block for the entries of a directory. */
    ghost predicate NodeFits(kind: int)
      reads this, fs, fs.inodes, fs.sb
    {
      NumberLeft() && (kind == I_DIR ==> fs.sb.Room() > 0)
    }

    /** The room that is left for the entry of a new file or directory in the current directory. */
    ghost function RoomForEntry(kind: int): int
      reads this, fs, fs.sb
    {
      fs.sb.Room() - if kind == I_DIR then 1 else 0
    }

    /** A new file system with room for at least one block: the root directory and nothing else. */
    constructor (maxFsBlocks: nat)
      requires 0 < maxFsBlocks < Pow256(8)
      ensures Named() && Clean() && cur == 0 && Names() == NT.NewTree(NR_INODES)
    {
      hide SuperBlock.Valid, FsOk, LogsOkBut, BitsOk, NT.IsTree, NT.NewTree;
      fs := new FileSystem(maxFsBlocks, NR_INODES);
      logs := seq(NR_INODES, _ => []);
      cur := 0;
      new;
      AllFree(fs.View(), logs);
      RoomIs(fs.sb);
      MakeRoot();
    }

    method MakeRoot()
      requires Readable() && Clean() && cur == 0 && fs.sb.Room() > 0
      requires forall k | 0 <= k < NR_INODES :: fs.inodes[k].d == ZERO_DINODE
      modifies this`logs, fs.inodes, fs.sb, fs.sb.inodeFreemap, fs.sb.inodeFreemap.v, fs.sb.blockFreemap, fs.sb.blockFreemap.v
      ensures Named() && Clean() && Names() == NT.NewTree(NR_INODES)
    {
      hide SuperBlock.Valid, FsOk, LogsOkBut, BitsOk, FsStep, SuperBlock.Room, NT.NewDir, NT.IsTree;
      assert fs.inodes[0].d.kind == I_NONE;
      var nr := NewInode(I_DIR);
      assert nr == 0;
      var ret := MakeEmptyDir(nr, nr);
      Sync(nr);
      assert Names().nodes == NT.NewTree(NR_INODES).nodes;
      NT.NewTreeIsTree(NR_INODES);
    }

    /** testfs_sync_inode, but for the copy on the device (see InodeCaches). */
    method Sync(k: nat)
      requires Readable() && k < NR_INODES
      modifies fs.inodes[k]
      ensures Readable() && fs.View() == old(fs.View()) && fs.inodes[k].d == old(fs.inodes[k].d) && !fs.inodes[k].dirty
    {
      hide SuperBlock.Valid, FsOk, LogsOkBut;
      ghost var f := fs.View();
      fs.inodes[k].dirty := false;
      assert fs.View() == f;
    }

    /** Takes the number of a free inode; numbers beyond the table are given back. */
    method TakeNumber() returns (ret: int)
      requires Readable()
      modifies fs.sb, fs.sb.inodeFreemap, fs.sb.inodeFreemap.v
      ensures fs.Valid() && LogsOk(fs.View(), logs) && fs.View().inodes == old(fs.View().inodes)
      ensures fs.sb.alloc == old(fs.sb.alloc) && fs.sb.Room() == old(fs.sb.Room()) && SameData(old(fs.sb.disk), fs.sb.disk)
      ensures ret < 0 ==> ret == -ENOSPC && Readable() && forall l | 0 <= l < NR_INODES :: fs.inodes[l].d.kind != I_NONE
      ensures ret >= 0 ==>
                && ret < NR_INODES && fs.inodes[ret].d == ZERO_DINODE
                && (forall l | 0 <= l < ret :: fs.inodes[l].d.kind != I_NONE)
                && fs.sb.inodeFreemap.bits == old(fs.sb.inodeFreemap.bits) + {ret}
    {
      hide SuperBlock.Valid, FsOk, LogsOkBut;
      ghost var f := fs.View();
      ghost var bits := fs.sb.inodeFreemap.bits;
      FewBits(f, bits);
      ret := fs.sb.GetInodeFreemap();
      SameDataKeeps(f, fs.View(), logs, {});
      assert forall l | 0 <= l < NR_INODES :: f.inodes[l].kind == fs.inodes[l].d.kind;
      if ret < 0 {
        return;
      }
      if ret / INODES_PER_BLOCK >= NR_INODE_BLOCKS {
        fs.sb.PutInodeFreemap(ret);
        SameDataKeeps(f, fs.View(), logs, {});
        return -ENOSPC;
      }
      NodeAt(f, logs, ret);
    }

    /** Takes an inode number and the inode, of a given type. */
    method NewInode(kind: int) returns (ret: int)
      requires Readable() && (kind == I_FILE || kind == I_DIR)
      modifies this`logs, fs.inodes, fs.sb, fs.sb.inodeFreemap, fs.sb.inodeFreemap.v
      ensures Readable() && fs.sb.alloc == old(fs.sb.alloc) && fs.sb.Room() == old(fs.sb.Room())
      ensures SameData(old(fs.sb.disk), fs.sb.disk)
      ensures OthersSame(old(fs.View()), fs.View(), if ret < 0 then {} else {ret as nat})
      ensures ret < 0 ==> ret == -ENOSPC && logs == old(logs)
      ensures ret >= 0 <==> old(NumberLeft())
      ensures ret >= 0 ==> ret < NR_INODES && forall l | 0 <= l < ret :: old(fs.inodes[l].d.kind) != I_NONE
      ensures forall l | 0 <= l < NR_INODES && l != ret ::
                fs.inodes[l].dirty == old(fs.inodes[l].dirty) && fs.inodes[l].d == old(fs.inodes[l].d)
      ensures ret >= 0 ==>
                && ret < NR_INODES && old(fs.inodes[ret].d) == ZERO_DINODE && logs == old(logs)[ret := []]
                && fs.inodes[ret].d == ZERO_DINODE.(kind := kind)
    {
      hide SuperBlock.Valid, FsOk, FsStep, LogsOkBut, IsLog, SuperBlock.Room, OthersSame;
      ghost var f := fs.View();
      ret := TakeNumber();
      if ret < 0 {
        SameDataOthers(f, fs.View(), {});
        return;
      }
      ghost var g := fs.View();
      fs.inodes[ret].d := fs.inodes[ret].d.(kind := kind);
      fs.inodes[ret].dirty := true;
      logs := logs[ret := []];
      ghost var h := fs.View();
      assert h.inodes == g.inodes[ret := ZERO_DINODE.(kind := kind)];
      SameDataOthers(f, h, {ret as nat});
      KindIsStep(g, h, ret, kind);
      EmptyIsLog(Nth(h, ret));
      StepKeepsLogs(g, h, ret, old(logs), {}, []);
      NoneBad(ret);
    }

    /** Adds an entry to directory `k`. */
    method AddEntry(k: nat, name: seq<byte>, nr: nat) returns (ret: int)
      requires Readable() && k < NR_INODES && fs.inodes[k].d.kind == I_DIR && nr < INT_LIMIT
      requires IsName(name) && Lookup(logs[k], name) < 0 && EntriesOk(logs[k])
      requires |Encode(logs[k])| + HEADER + |name| + 1 < INT_LIMIT
      requires EntryHarmless(Nth(fs.View(), k), logs[k], name, fs.sb.Room())
      modifies this`logs, fs.inodes[k], fs.sb, fs.sb.blockFreemap, fs.sb.blockFreemap.v
      ensures Ordered() && FsStep(old(fs.View()), fs.View(), k) && fs.inodes[k].d.kind == I_DIR
      ensures ret >= 0 ==> Readable() && logs == old(logs)[k := Added(old(logs)[k], name, nr)]
      ensures ret < 0 ==> ret == -ENOSPC && logs == old(logs) && LogsOkBut(fs.View(), logs, {k})
      ensures ret >= 0 <==> old(EntryFits(Nth(fs.View(), k), logs[k], name, fs.sb.Room()))
      ensures ret < 0 && old(EntryGivesUp(Nth(fs.View(), k), logs[k], name, fs.sb.Room())) ==> Readable()
      ensures ret < 0 && !old(EntryGivesUp(Nth(fs.View(), k), logs[k], name, fs.sb.Room())) ==> Lost(Nth(fs.View(), k))
      ensures old(fs.inodes[k].d.dindirect) == 0 && old(|Encode(logs[k])|) + HEADER + |name| + 1 <= FIRST_DOUBLE * BLOCK_SIZE ==>
                fs.inodes[k].d.dindirect == 0
      ensures old(fs.inodes[k].d == ZERO_DINODE.(kind := I_DIR)) && old(logs)[k] == [] && HEADER + |name| + 1 <= BLOCK_SIZE ==>
                (ret >= 0 <==> old(fs.sb.Room()) > 0) && (ret >= 0 ==> fs.sb.Room() == old(fs.sb.Room()) - 1)
      ensures var n := |Encode(old(logs)[k])| % BLOCK_SIZE;
              0 < n && n + HEADER + |name| + 1 <= BLOCK_SIZE ==>
                ret >= 0 && (Slot(old(logs)[k], |name|) == |old(logs)[k]| ==> fs.sb.Room() == old(fs.sb.Room()))
    {
      hide SuperBlock.Valid, FsOk, FileOk, WriteOutcome, FsStep, IsLog, LogsOkBut, Encode, EntriesOk, Good, Added,
        EntryHarmless, EntryFits, EntryGivesUp, Lookup, Lost, BitsOk, Bytes;
      ghost var f, es, room := fs.View(), logs[k], fs.sb.Room();
      FreemapsApart(fs.sb);
      RoomIs(fs.sb);
      FileIsOk(f, k);
      LogAt(f, logs, k);
      LookupIsDict(es, name);
      BoundIff(es, name);
      ghost var stop, mid;
      ret, stop, mid := AddDirent(fs.inodes[k], name, nr, es);
      ghost var g := fs.View();
      RoomIs(fs.sb);
      EntryStep(f, g, k, logs, name, nr, ret, stop, mid, room);
      StepShape(f, g, k);
      SameKindsSameBits(f, g, fs.sb.inodeFreemap.bits);
      if ret >= 0 {
        logs := logs[k := Added(es, name, nr)];
      }
    }

    /** Enters "." and ".." into a new directory. It fails exactly when there is no room for one block. */
    method MakeEmptyDir(k: nat, parent: nat) returns (ret: int)
      requires Readable() && k < NR_INODES && fs.inodes[k].d == ZERO_DINODE.(kind := I_DIR) && logs[k] == []
      requires parent < NR_INODES
      modifies this`logs, fs.inodes[k], fs.sb, fs.sb.blockFreemap, fs.sb.blockFreemap.v
      ensures Ordered() && FsStep(old(fs.View()), fs.View(), k) && fs.inodes[k].d.kind == I_DIR
      ensures ret >= 0 ==> Readable() && logs == old(logs)[k := NT.NewDir(k, parent)]
      ensures ret < 0 ==> ret == -ENOSPC && logs == old(logs) && LogsOkBut(fs.View(), logs, {k})
      ensures ret >= 0 <==> old(fs.sb.Room()) > 0
      ensures ret >= 0 ==> fs.sb.Room() == old(fs.sb.Room()) - 1
      ensures fs.inodes[k].d.dindirect == 0
    {
      hide SuperBlock.Valid, FsOk, FsStep, LogsOkBut, Encode, Added, Lookup, BitsOk, EntriesOk, EntryHarmless, EntryFits,
        EntryGivesUp, Lost, NT.NewDir;
      ghost var f := fs.View();
      DotsFit(k, parent);
      ShortEntryIsHarmless(Nth(f, k), [], DOT, fs.sb.Room());
      ret := AddEntry(k, DOT, k);
      if ret < 0 {
        return;
      }
      ghost var g := fs.View();
      FileIsOk(g, k);
      ShortEntryIsHarmless(Nth(g, k), logs[k], DOTDOT, fs.sb.Room());
      ret := AddEntry(k, DOTDOT, parent);
      LocalStepTrans(f, g, fs.View(), k);
    }

    /** Frees the blocks of an inode and zeroes it (the first half of testfs_remove_inode). */
    method EmptyInode(k: nat, ghost bad: set<nat>)
      requires Ordered() && k < NR_INODES && LogsOkBut(fs.View(), logs, bad)
      requires fs.inodes[k].d.size >= 0 && |fs.inodes[k].d.direct| == NR_DIRECT_BLOCKS
      requires FreeGuard(fs.inodes[k].V())
      modifies this`logs, fs.inodes[k], fs.sb, fs.sb.blockFreemap, fs.sb.blockFreemap.v
      ensures fs.Valid() && logs == old(logs)[k := []] && LogsOkBut(fs.View(), logs, bad - {k})
      ensures fs.inodes[k].d == ZERO_DINODE && FsStep(old(fs.View()), fs.View(), k)
    {
      hide SuperBlock.Valid, FsOk, FsStep, NodeOk, FreeGuard, Others, Tree, IsLog, FreeIsZero, Good, BitsOk;
      ghost var f := fs.View();
      FileIsOk(f, k);
      var ret := fs.inodes[k].FreeBlocks();
      assert fs.inodes[k].d.blockCount == 0;
      GoodHasZeros(fs.inodes[k].V(), ZERO_DINODE);
      fs.inodes[k].d := ZERO_DINODE;
      ghost var g := fs.View();
      ZeroIsStep(f, g, k);
      StepKeepsLogs(f, g, k, logs, bad, []);
      logs := logs[k := []];
    }

    /** Frees the blocks of an inode, zeroes it and gives its number back. */
    method RemoveInode(k: nat, ghost bad: set<nat>)
      requires Ordered() && k < NR_INODES && LogsOkBut(fs.View(), logs, bad) && fs.inodes[k].d.kind != I_NONE
      requires fs.inodes[k].d.size >= 0 && |fs.inodes[k].d.direct| == NR_DIRECT_BLOCKS
      requires FreeGuard(fs.inodes[k].V())
      modifies this`logs, fs.inodes[k], fs.sb, fs.sb.inodeFreemap, fs.sb.inodeFreemap.v, fs.sb.blockFreemap, fs.sb.blockFreemap.v
      ensures Ordered() && LogsOkBut(fs.View(), logs, bad - {k})
      ensures logs == old(logs)[k := []] && fs.inodes[k].d == ZERO_DINODE && !fs.inodes[k].dirty
      ensures forall l: nat | l < NR_INODES && l != k && Lost(old(Nth(fs.View(), l))) :: Lost(Nth(fs.View(), l))
      ensures OthersSame(old(fs.View()), fs.View(), {k}) && fs.sb.alloc == old(fs.sb.alloc - TreeOf(fs.View(), k))
    {
      hide SuperBlock.Valid, FsOk, LogsOkBut, FreeGuard, FsStep, Lost, OthersSame, Tree;
      ghost var f := fs.View();
      FreemapsApart(fs.sb);
      EmptyInode(k, bad);
      ghost var g := fs.View();
      fs.sb.PutInodeFreemap(k);
      ghost var h := fs.View();
      SameDataKeeps(g, h, logs, bad - {k});
      RemovalBeside(f, g, h, k);
      StepOthers(f, g, k);
      SameDataOthers(g, h, {});
      OthersTrans(f, g, h, {k}, {});
      assert {k} + {} == {k};
      AllocWithout(f, h, k);
      fs.inodes[k].dirty := false;
      assert fs.View() == h;
    }

    // ---- commands

    /** testfs_dir_name_to_inode_nr in the current directory. */
    method Find(name: seq<byte>) returns (ret: int)
      requires Named() && IsName(name)
      ensures cur < NR_INODES && fs.inodes[cur].d.kind == I_DIR && Names().cur == cur
      ensures NT.At(Names(), cur, name) == Lookup(logs[cur], name) && Lookup(logs[cur], name) < NR_INODES
      ensures ret == if Lookup(logs[cur], name) >= 0 then Lookup(logs[cur], name) else -ENOENT
    {
      hide SuperBlock.Valid, FsOk, LogsOkBut, IsLog, Lookup, BitsOk, NT.IsTree;
      ghost var f := fs.View();
      CurIsDir(f, logs, cur);
      LogAt(f, logs, cur);
      FileIsOk(f, cur);
      GoodIsSound(Nth(f, cur));
      LookupIsDict(logs[cur], name);
      ret := NameToInodeNr(fs.inodes[cur], name, logs[cur]);
      NamesLookup(f, logs, cur, name);
    }

    lemma FilesInOrder()
      requires Ordered()
      ensures FsOk(fs.View())
    {
    }

    /** A new inode, and "." and ".." in it if it is a directory; without room nothing changes. */
    method MakeNode(kind: int) returns (ret: int)
      requires Readable() && Clean() && cur < NR_INODES && (kind == I_FILE || kind == I_DIR)
      modifies this`logs, fs.inodes, fs.sb, fs.sb.inodeFreemap, fs.sb.inodeFreemap.v, fs.sb.blockFreemap, fs.sb.blockFreemap.v
      ensures Readable() && ret < NR_INODES
      ensures forall l | 0 <= l < NR_INODES && l != ret :: !fs.inodes[l].dirty && fs.inodes[l].d == old(fs.inodes[l].d)
      ensures forall l | 0 <= l < NR_INODES && l != ret && fs.inodes[l].d.kind == I_DIR :: logs[l] == old(logs)[l]
      ensures ret >= 0 <==> old(NodeFits(kind))
      ensures ret < 0 ==> ret == -ENOSPC && Clean()
      ensures ret >= 0 ==>
                && old(fs.inodes[ret].d) == ZERO_DINODE && fs.inodes[ret].d.kind == kind && fs.inodes[ret].d.dindirect == 0
                && (kind == I_DIR ==> logs[ret] == NT.NewDir(ret, cur))
                && (ret != cur ==> SameMap(old(Nth(fs.View(), cur)), Nth(fs.View(), cur)))
                && fs.sb.Room() == old(fs.sb.Room()) - if kind == I_DIR then 1 else 0
      ensures UsedSame(old(fs.View()), fs.View(), {})
      ensures ret < 0 || kind == I_FILE ==> fs.sb.alloc == old(fs.sb.alloc)
      ensures ret >= 0 && kind == I_FILE ==> fs.inodes[ret].d == ZERO_DINODE.(kind := I_FILE)
    {
      hide SuperBlock.Valid, FsOk, LogsOkBut, IsLog, BitsOk, FreeGuard, FsStep, SuperBlock.Room, NT.NewDir, SameMap,
        SameContents, Lost, SameData, Good, FileOk, ThirdsUsed, Sound, OthersSame, UsedSame;
      ghost var f := fs.View();
      ret := NewInode(kind);
      if ret < 0 {
        NothingIsSame(f, fs.View());
        return;
      }
      ghost var g := fs.View();
      FreeIsNotUsed(f, g, ret);
      if ret != cur {
        FileIsOk(f, cur);
        GoodIsSound(Nth(f, cur));
        SameDataSameMap(Nth(f, cur), Nth(g, cur));
      }
      if kind == I_DIR {
        var nr := ret;
        ret := FillDir(nr);
        UsedSameTrans(f, g, fs.View(), {}, {nr as nat});
        if ret < 0 {
          return;
        }
        if nr != cur {
          SameMapTrans(Nth(f, cur), Nth(g, cur), Nth(fs.View(), cur));
        }
        ret := nr;
      }
    }

    /** "." and ".." in a new directory; if there is no room its inode is removed again. */
    method FillDir(k: nat) returns (ret: int)
      requires Readable() && k < NR_INODES && cur < NR_INODES
      requires fs.inodes[k].d == ZERO_DINODE.(kind := I_DIR) && logs[k] == []
      modifies this`logs, fs.inodes[k], fs.sb, fs.sb.inodeFreemap, fs.sb.inodeFreemap.v, fs.sb.blockFreemap, fs.sb.blockFreemap.v
      ensures Readable()
      ensures ret >= 0 <==> old(fs.sb.Room()) > 0
      ensures ret >= 0 ==>
                && logs == old(logs)[k := NT.NewDir(k, cur)] && fs.inodes[k].d.kind == I_DIR && fs.inodes[k].d.dindirect == 0
                && fs.sb.Room() == old(fs.sb.Room()) - 1
                && (k != cur ==> SameMap(old(Nth(fs.View(), cur)), Nth(fs.View(), cur)))
      ensures ret < 0 ==> ret == -ENOSPC && logs == old(logs)[k := []] && fs.inodes[k].d == ZERO_DINODE && !fs.inodes[k].dirty
      ensures OthersSame(old(fs.View()), fs.View(), {k}) && (ret < 0 ==> fs.sb.alloc == old(fs.sb.alloc))
    {
      hide SuperBlock.Valid, FsOk, LogsOkBut, BitsOk, FreeGuard, FsStep, SuperBlock.Room, NT.NewDir, SameMap, SameContents, Lost,
        OthersSame, Tree;
      ghost var g := fs.View();
      ret := MakeEmptyDir(k, cur);
      StepOthers(g, fs.View(), k);
      if ret < 0 {
        ghost var h := fs.View();
        RootlessIsRemovable(fs.View(), k);
        NoneBad(k);
        RemoveInode(k, {k});
        OthersTrans(g, h, fs.View(), {k}, {k});
        assert {k} + {k} == {k};
        AllocWithout(g, fs.View(), k);
        FileIsOk(g, k);
        NoBlocks(Nth(g, k));
      } else if k != cur {
        StepKeepsMap(g, fs.View(), k, cur);
      }
    }

    /** Enters inode `k` into the current directory under a new name; if that fails the inode is removed again. */
    method Enter(k: nat, name: seq<byte>) returns (ret: int)
      requires Readable() && k < NR_INODES && cur < NR_INODES && fs.inodes[cur].d.kind == I_DIR && IsName(name)
      requires k != cur && fs.inodes[k].d.kind != I_NONE && fs.inodes[k].d.dindirect == 0
      requires Lookup(logs[cur], name) < 0 && EntriesOk(logs[cur])
      requires |Encode(logs[cur])| + HEADER + |name| + 1 < INT_LIMIT
      requires EntryHarmless(Nth(fs.View(), cur), logs[cur], name, fs.sb.Room())
      modifies this`logs, fs.inodes[cur], fs.inodes[k]
      modifies fs.sb, fs.sb.inodeFreemap, fs.sb.inodeFreemap.v, fs.sb.blockFreemap, fs.sb.blockFreemap.v
      ensures Ordered() && fs.inodes[cur].d.kind == I_DIR && (ret >= 0 || ret == -ENOSPC)
      ensures ret >= 0 ==>
                && Readable() && logs == old(logs)[cur := Added(old(logs)[cur], name, k)]
                && fs.inodes[k].d == old(fs.inodes[k].d)
      ensures ret < 0 ==> logs == old(logs)[k := []] && fs.inodes[k].d == ZERO_DINODE
      ensures ret >= 0 <==> old(EntryFits(Nth(fs.View(), cur), logs[cur], name, fs.sb.Room()))
      ensures ret < 0 ==> (Readable() <==> old(EntryGivesUp(Nth(fs.View(), cur), logs[cur], name, fs.sb.Room())))
      ensures OthersSame(old(fs.View()), fs.View(), if ret >= 0 then {cur} else {cur, k})
    {
      hide SuperBlock.Valid, FsOk, LogsOkBut, Lookup, BitsOk, FreeGuard, FsStep, Added, EntryFits, EntryGivesUp, Lost,
        OthersSame;
      ghost var f := fs.View();
      ghost var givesUp := EntryGivesUp(Nth(fs.View(), cur), logs[cur], name, fs.sb.Room());
      ret := AddEntry(cur, name, k);
      StepOthers(f, fs.View(), cur);
      if ret < 0 {
        ghost var g := fs.View();
        RootlessIsRemovable(fs.View(), k);
        RemoveInode(k, if givesUp then {} else {cur});
        OthersTrans(f, g, fs.View(), {cur}, {k});
        assert {cur} + {k} == {cur, k};
        NoneBad(k);
        if !givesUp {
          NotReadable(fs.View(), logs, cur);
        }
      }
    }

    /**
     A file or directory of a new name in the current directory. It is made exactly if the name is new, an inode
     number is left, and the room covers a new directory and the blocks of the entry. Otherwise the names are as
     before, unless there was room for the inode and for the first of the blocks of the entry, but not for all.
     */
    method CreateFileOrDir(kind: int, name: seq<byte>) returns (ret: int, ghost nr: nat)
      requires Named() && Clean() && IsName(name) && (kind == I_FILE || kind == I_DIR)
      requires cur < NR_INODES && EntriesOk(logs[cur]) && |Encode(logs[cur])| + HEADER + |name| + 1 < INT_LIMIT
      requires EntryHarmless(Nth(fs.View(), cur), logs[cur], name, RoomForEntry(kind))
      modifies this`logs, fs.inodes, fs.sb, fs.sb.inodeFreemap, fs.sb.inodeFreemap.v, fs.sb.blockFreemap, fs.sb.blockFreemap.v
      ensures Ordered() && ret in {0, -EEXIST, -ENOSPC} && cur < NR_INODES
      ensures ret == -EEXIST <==> old(NT.At(Names(), cur, name)) >= 0
      ensures ret == 0 <==> old(NT.At(Names(), cur, name) < 0 && NodeFits(kind) &&
                                EntryFits(Nth(fs.View(), cur), logs[cur], name, RoomForEntry(kind)))
      ensures ret == 0 ==>
                Named() && Clean() &&
                NT.Succeeds(old(Names()), NewName(kind, name), nr, Names())
      ensures ret == -EEXIST ==> fs.View() == old(fs.View()) && logs == old(logs)
      ensures ret == -EEXIST || !old(NodeFits(kind)) ==> Named() && Clean()
      ensures ret == -ENOSPC && old(NodeFits(kind)) ==>
                (Named() <==> old(EntryGivesUp(Nth(fs.View(), cur), logs[cur], name, RoomForEntry(kind))))
      ensures ret < 0 && Named() ==> Names() == old(Names())
      ensures UsedSame(old(fs.View()), fs.View(), if ret == -EEXIST || !old(NodeFits(kind)) then {} else {cur})
      ensures ret == -EEXIST || !old(NodeFits(kind)) ==> fs.sb.alloc == old(fs.sb.alloc)
      ensures ret == 0 && kind == I_FILE ==> nr < NR_INODES && fs.inodes[nr].d == ZERO_DINODE.(kind := I_FILE)
    {
      hide SameContents, Tree, UsedSame, SuperBlock.Valid, FsOk, LogsOkBut, Lookup, BitsOk, NT.IsTree, Added,
        FileSystem.Valid, Encode, NT.NewDir, NT.Succeeds, EntryHarmless, SuperBlock.Room, EntryFits, EntryGivesUp;
      nr := 0;
      ghost var f := fs.View();
      ret := Find(name);
      if ret >= 0 {
        FilesInOrder();
        NothingChanged(f);
        return -EEXIST, 0;
      }
      ret, nr := MakeAndEnter(kind, name);
      if ret < 0 {
        SameNames(f, old(logs), fs.View(), logs, cur);
      } else {
        EnterNames(f, old(logs), fs.View(), logs, cur, name, nr, kind);
      }
    }

    /** The rest of testfs_create_file_or_dir, for a name that is not there. */
    method MakeAndEnter(kind: int, name: seq<byte>) returns (ret: int, ghost nr: nat)
      requires Readable() && Clean() && IsName(name) && (kind == I_FILE || kind == I_DIR)
      requires cur < NR_INODES && fs.inodes[cur].d.kind == I_DIR && Lookup(logs[cur], name) < 0
      requires EntriesOk(logs[cur]) && |Encode(logs[cur])| + HEADER + |name| + 1 < INT_LIMIT
      requires EntryHarmless(Nth(fs.View(), cur), logs[cur], name, RoomForEntry(kind))
      modifies this`logs, fs.inodes, fs.sb, fs.sb.inodeFreemap, fs.sb.inodeFreemap.v, fs.sb.blockFreemap, fs.sb.blockFreemap.v
      ensures Ordered() && (ret == 0 || ret == -ENOSPC)
      ensures ret == 0 <==> old(NodeFits(kind) && EntryFits(Nth(fs.View(), cur), logs[cur], name, RoomForEntry(kind)))
      ensures ret == 0 ==>
                && Readable() && Clean() && nr < NR_INODES && nr != cur && old(fs.inodes[nr].d.kind) == I_NONE
                && logs[cur] == Added(old(logs)[cur], name, nr) && (kind == I_DIR ==> logs[nr] == NT.NewDir(nr, cur))
      ensures forall l | 0 <= l < NR_INODES ::
                fs.inodes[l].d.kind == if ret == 0 && l == nr then kind else old(fs.inodes[l].d.kind)
      ensures forall l | 0 <= l < NR_INODES && !(ret == 0 && (l == nr || l == cur)) && old(fs.inodes[l].d.kind) == I_DIR ::
                logs[l] == old(logs)[l]
      ensures !old(NodeFits(kind)) ==> Readable() && Clean()
      ensures ret < 0 && old(NodeFits(kind)) ==>
                (Readable() <==> old(EntryGivesUp(Nth(fs.View(), cur), logs[cur], name, RoomForEntry(kind))))
      ensures UsedSame(old(fs.View()), fs.View(), if old(NodeFits(kind)) then {cur} else {})
      ensures !old(NodeFits(kind)) ==> fs.sb.alloc == old(fs.sb.alloc)
      ensures ret == 0 && kind == I_FILE ==> fs.inodes[nr].d == ZERO_DINODE.(kind := I_FILE)
    {
      hide OthersSame, UsedSame, SuperBlock.Valid, FsOk, LogsOkBut, Lookup, BitsOk, Added, FileSystem.Valid, Encode, EntriesOk,
        NT.NewDir, EntryHarmless, SameMap, SuperBlock.Room, EntryFits, EntryGivesUp;
      nr := 0;
      ghost var f := fs.View();
      ghost var v, es := Nth(fs.View(), cur), logs[cur];
      ret := MakeNode(kind);
      if ret < 0 {
        return;
      }
      nr := ret;
      var k := ret;
      SameHarm(v, Nth(fs.View(), cur), es, name, fs.sb.Room());
      SameFits(v, Nth(fs.View(), cur), es, name, fs.sb.Room());
      ghost var g := fs.View();
      UsedSameBut(f, g, cur);
      ret := Enter(k, name);
      UsedSameTrans(f, g, fs.View(), {cur}, if ret >= 0 then {cur} else {cur, k});
      if ret < 0 {
        return;
      }
      Sync(cur);
      Sync(k);
      return 0, k;
    }

    /** All that the entries of the current directory refer to is there. */
    lemma CurRefers()
      requires Named() && cur < NR_INODES && fs.inodes[cur].d.kind == I_DIR
      ensures Refers(logs[cur], fs.inodes, logs)
    {
      hide SuperBlock.Valid, FsOk, IsLog, Lookup, BitsOk, NT.IsTree, Sound;
      ghost var f, es := fs.View(), logs[cur];
      forall i | 0 <= i < |es| && es[i].nr >= 0
        ensures var k := es[i].nr;
                k < |fs.inodes| && k < |logs| &&
                (fs.inodes[k].d.kind == I_DIR ==>
                   Sound(fs.inodes[k].sb.disk, fs.inodes[k].d) && IsLog(fs.inodes[k].V(), logs[k]))
      {
        EntryInRange(f, logs, cur, i);
        var k := es[i].nr;
        FileIsOk(f, k);
        GoodIsSound(Nth(f, k));
        if fs.inodes[k].d.kind == I_DIR { LogAt(f, logs, k); }
      }
    }

    /** What the removal answers, in terms of names. */
    lemma RemovalAnswer(name: seq<byte>)
      requires Named() && cur < NR_INODES && fs.inodes[cur].d.kind == I_DIR && Refers(logs[cur], fs.inodes, logs)
      ensures var c := NT.At(Names(), cur, name);
              && c == Lookup(logs[cur], name) < NR_INODES
              && RemovalResult(logs[cur], name, fs.inodes, logs) ==
                   if NT.Dots(name) then -EINVAL else if c < 0 then -ENOENT
                   else if NT.CanRemove(Names(), name) then c else -ENOTEMPTY
    {
      hide SuperBlock.Valid, FsOk, IsLog, BitsOk, NT.IsTree, Sound, LogsOkBut, Refers, Bare;
      NamesLookup(fs.View(), logs, cur, name);
    }

    /** The first half of cmd_rm: the entry is removed from the current directory. */
    method RemoveEntry(name: seq<byte>) returns (ret: int)
      requires Named() && IsName(name) && cur < NR_INODES && fs.inodes[cur].d.kind == I_DIR
      modifies this`logs, fs.inodes[cur], fs.sb, fs.sb.blockFreemap, fs.sb.blockFreemap.v
      ensures Readable() && fs.inodes[cur].d.kind == I_DIR
      ensures var c := old(NT.At(Names(), cur, name));
              ret == if NT.Dots(name) then -EINVAL else if c < 0 then -ENOENT
                     else if old(NT.CanRemove(Names(), name)) then c else -ENOTEMPTY
      ensures ret >= 0 ==>
                && ret == old(Lookup(logs[cur], name)) && FsStep(old(fs.View()), fs.View(), cur)
                && var i := Index(old(logs)[cur], name);
                   i < |old(logs)[cur]| && logs == old(logs)[cur := Removed(old(logs)[cur], i)]
      ensures ret < 0 ==> logs == old(logs) && fs.View() == old(fs.View()) && fs.inodes[cur].dirty == old(fs.inodes[cur].dirty)
      ensures fs.sb.alloc == old(fs.sb.alloc) && fs.inodes[cur].d == old(fs.inodes[cur].d)
    {
      hide SuperBlock.Valid, FsOk, FileOk, WriteOutcome, FsStep, LogsOkBut, IsLog, Harmful, MeetsRoot, Encode, EntriesOk, Good,
        Lookup, NT.IsTree, BitsOk, Bare, Bytes, Refers, RemovalResult, NT.CanRemove;
      ghost var f, es, room := fs.View(), logs[cur], fs.sb.Room();
      FreemapsApart(fs.sb);
      FileIsOk(f, cur);
      ghost var v := Nth(f, cur);
      LogAt(f, logs, cur);
      CurRefers();
      RemovalAnswer(name);
      ghost var stop, mid;
      ret, stop, mid := RemoveDirent(fs.inodes[cur], name, fs.inodes, es, logs);
      ghost var g := fs.View();
      if ret < 0 {
        assert g.inodes == f.inodes;
        return;
      }
      ghost var i := Index(es, name);
      ghost var e := es[i].(nr := -1);
      WithinIsHarmless(v, es, i, room);
      WriteIsStep(f, g, cur, Bytes(e), Pos(es, i), |Bytes(es[i])|, stop, mid, room);
      OverwriteKeepsInode(v, Nth(g, cur), es, i, Bytes(e), |Bytes(es[i])|, stop, mid, room);
      StepShape(f, g, cur);
      SameKindsSameBits(f, g, fs.sb.inodeFreemap.bits);
      logs := logs[cur := Removed(es, i)];
      StepKeepsLogs(f, g, cur, old(logs), {}, Removed(es, i));
      NoneBad(cur);
    }

    /**
     cmd_rm. The assertion that the inode has no blocks left holds exactly of the inodes for which FreeGuard does, so
     that is asked of what is removed.
     */
    method Rm(name: seq<byte>) returns (ret: int)
      requires Named() && Clean() && IsName(name) && cur < NR_INODES && fs.inodes[cur].d.kind == I_DIR
      requires NT.CanRemove(Names(), name) ==> RemovableAt(Lookup(logs[cur], name))
      modifies this`logs, fs.inodes, fs.sb, fs.sb.inodeFreemap, fs.sb.inodeFreemap.v, fs.sb.blockFreemap, fs.sb.blockFreemap.v
      ensures Named() && Clean()
      ensures ret == if NT.Dots(name) then -EINVAL else if old(NT.At(Names(), cur, name)) < 0 then -ENOENT
                     else if old(NT.CanRemove(Names(), name)) then 0 else -ENOTEMPTY
      ensures if ret == 0 then NT.Succeeds(old(Names()), NT.Rm(name), 0, Names()) else Names() == old(Names())
      ensures ret < 0 ==> fs.View() == old(fs.View())
      ensures ret == 0 ==>
                var c := old(NT.At(Names(), cur, name));
                && 0 <= c < NR_INODES && c != cur && |old(fs.View()).inodes[c].direct| == NR_DIRECT_BLOCKS
                && fs.inodes[c].d == ZERO_DINODE && fs.inodes[cur].d == old(fs.inodes[cur].d)
                && fs.sb.alloc == old(fs.sb.alloc) - TreeOf(old(fs.View()), c)
                && forall l: nat | l < NR_INODES && l != c && l != cur ::
                     fs.inodes[l].d == old(fs.inodes[l].d) && SameContents(Nth(old(fs.View()), l), Nth(fs.View(), l))
    {
      hide SameContents, Tree, OthersSame, SuperBlock.Valid, FsOk, LogsOkBut, Lookup, NT.IsTree, BitsOk, NT.CanRemove, FreeGuard,
        FsStep, NT.Succeeds, Removed, Index;
      ghost var f, es := fs.View(), logs[cur];
      NamesLookup(f, logs, cur, name);
      ret := RemoveEntry(name);
      if ret < 0 {
        assert Names() == old(Names());
        return;
      }
      RemovedIsOther(f, old(logs), cur, name);
      StaysRemovable(f, fs.View(), cur, ret);
      StepShape(f, fs.View(), cur);
      ghost var g := fs.View();
      StepOthers(f, g, cur);
      RemoveInode(ret, {});
      OthersTrans(f, g, fs.View(), {cur}, {ret as nat});
      SameFileOf(f, g, fs.View(), cur, ret);
      NoneBad(ret);
      Sync(cur);
      RemoveNames(f, old(logs), fs.View(), logs, cur, name);
      return 0;
    }

    ghost predicate RemovableAt(k: int)
      reads this, fs, fs.inodes, fs.sb
    {
      0 <= k < |fs.inodes| && |fs.inodes[k].d.direct| == NR_DIRECT_BLOCKS && fs.inodes[k].d.size >= 0 &&
      FreeGuard(Nth(fs.View(), k))
    }

    /** cmd_cd. */
    method Cd(name: seq<byte>) returns (ret: int)
      requires Named() && Clean() && IsName(name)
      modifies this`cur
      ensures Named() && Clean() && cur < NR_INODES && fs.inodes[cur].d.kind == I_DIR
      ensures var c := old(NT.At(Names(), cur, name));
              ret == if c < 0 then -ENOENT else if old(NT.IsDir(Names(), c)) then 0 else -ENOTDIR
      ensures if ret == 0 then NT.Succeeds(old(Names()), NT.Cd(name), 0, Names()) else Names() == old(Names())
    {
      hide SuperBlock.Valid, FsOk, LogsOkBut, Lookup, NT.IsTree, BitsOk;
      ghost var t := Names();
      ret := Find(name);
      if ret < 0 {
        return;
      }
      if fs.inodes[ret].d.kind != I_DIR {
        return -ENOTDIR;
      }
      assert NT.IsDir(t, ret);
      cur := ret;
      assert Names() == t.(cur := ret);
      NT.CommandKeepsTree(t, NT.Cd(name), 0, Names());
      return 0;
    }

    /** The state of directory `k` that its scans need. */
    lemma DirAt(k: nat)
      requires Readable() && NT.IsDir(Names(), k)
      ensures k < NR_INODES && fs.inodes[k].d.kind == I_DIR && Names().nodes[k].es == logs[k]
      ensures IsLog(fs.inodes[k].V(), logs[k]) && Sound(fs.inodes[k].sb.disk, fs.inodes[k].d)
      ensures EntriesOk(logs[k]) && Pos(logs[k], 0) == 0 && |fs.inodes| == NR_INODES == |logs|
    {
      hide SuperBlock.Valid, FsOk, IsLog, LogsOkBut, Sound, BitsOk;
      LogAt(fs.View(), logs, k);
      FileIsOk(fs.View(), k);
      GoodIsSound(Nth(fs.View(), k));
      LogEntries(Nth(fs.View(), k), logs[k]);
    }

    lemma DirIsNode(k: nat)
      requires Readable()
      ensures NT.IsDir(Names(), k) <==> k < NR_INODES && fs.inodes[k].d.kind == I_DIR
      ensures |Names().nodes| == NR_INODES
    {
      hide SuperBlock.Valid, FsOk, LogsOkBut, BitsOk;
    }

    /** The path to directory `k`, as testfs_pwd prints it. */
    method Pwd(k: nat, ghost depth: seq<nat>) returns (path: seq<NT.Name>)
      requires Readable() && NT.Rooted(Names(), depth) && NT.IsDir(Names(), k)
      ensures path == NP.PathTo(Names(), depth, k)
      decreases depth[k]
    {
      hide Readable, Lookup, NT.Rooted, IsLog, Sound, ItemOf, NP.PathTo, Encode, Names;
      DirAt(k);
      ghost var t := Names();
      NP.PathUnfolds(t, depth, k);
      NT.ParentNames(t, depth, k);
      NP.RootIsTop(t, depth);
      LookupIsDict(logs[k], DOTDOT);
      var p := NameToInodeNr(fs.inodes[k], DOTDOT, logs[k]);
      assert p >= 0;
      if p == k {
        return [];
      }
      DirAt(p);
      var d := FindDirent(fs.inodes[p], k, logs[p]);
      NP.FoundIsChild(t, depth, k);
      assert d != None;
      path := Pwd(p, depth);
      ItemName(logs[p][FirstNr(logs[p], k)]);
      path := path + [d.value.buf[..|d.value.buf| - 1]];
    }

    /** The entries of directory `k`, and below each directory among them its entries if `recursive`. */
    method Ls(k: nat, recursive: bool, ghost depth: seq<nat>) returns (lines: seq<Dirent>)
      requires Readable() && NT.Rooted(Names(), depth) && NT.IsDir(Names(), k)
      ensures lines == NP.Ls(Names(), depth, k, 0, recursive)
      decreases NP.Deeper(Names(), depth, k)
    {
      hide Readable, Lookup, NT.Rooted, IsLog, Sound, ItemOf, Encode, NP.Ls, Names, EntriesOk, Bytes, NP.Deeper, NT.IsDir;
      DirAt(k);
      ghost var t, es := Names(), logs[k];
      lines := [];
      var offset := 0;
      ghost var i := 0;
      while true
        invariant i <= |es| && offset == Pos(es, i)
        invariant lines + NP.Ls(t, depth, k, i, recursive) == NP.Ls(t, depth, k, 0, recursive)
        decreases |es| - i
      {
        var d;
        d, offset := NextDirent(fs.inodes[k], offset, es, i);
        NP.LsUnfolds(t, depth, k, i, recursive);
        if d == None {
          return;
        }
        ghost var e := es[i];
        ItemName(e);
        i := i + 1;
        if d.value.nr < 0 {
          continue;
        }
        var name := d.value.buf[..|d.value.buf| - 1];
        ghost var before, rest := lines, NP.Ls(t, depth, k, i, recursive);
        lines := lines + [Dirent(d.value.nr, name)];
        assert lines[|before|] == e;
        EntryIsThere(t, depth, k, i - 1);
        DirIsNode(e.nr);
        if recursive && fs.inodes[d.value.nr].d.kind == I_DIR && name != DOT && name != DOTDOT {
          NP.ChildIsDeeper(t, depth, k, i - 1, e.nr);
          var below := Ls(d.value.nr, recursive, depth);
          lines := lines + below;
          assert before + ([e] + below + rest) == lines + rest;
        } else {
          assert before + ([e] + rest) == lines + rest;
        }
      }
    }

    /** Writes to a file. Files and directories are in order afterwards exactly if the write is not a harmful one. */
    method WriteFile(k: nat, buf: seq<byte>, start: nat) returns (ret: int, outside: bool, ghost stop: nat, ghost mid: Vol)
      requires Named() && k < NR_INODES && fs.inodes[k].d.kind == I_FILE && |buf| < INT_LIMIT
      modifies fs.inodes[k], fs.sb, fs.sb.blockFreemap, fs.sb.blockFreemap.v
      ensures |old(fs.inodes[k].d).direct| == NR_DIRECT_BLOCKS && old(fs.inodes[k].d).size >= 0
      ensures start >= MAX_BYTES ==> ret == EFBIG && Named() && fs.View() == old(fs.View())
      ensures outside <==> start < MAX_BYTES && old(RunsOutside(Nth(fs.View(), k), start, |buf|, fs.sb.Room()))
      ensures start < MAX_BYTES && !outside ==>
                && WriteOutcome(old(Nth(fs.View(), k)), Nth(fs.View(), k), buf, start, ret, stop, mid, old(fs.sb.Room()))
                && (Named() <==> !old(Harmful(Nth(fs.View(), k), start, |buf|, fs.sb.Room())))
      ensures !outside && Named() ==>
                && Names() == old(Names())
                && forall l: nat | l < NR_INODES && l != k :: SameContents(old(Nth(fs.View(), l)), Nth(fs.View(), l))
    {
      hide SuperBlock.Valid, FsOk, FileOk, WriteOutcome, FsStep, LogsOkBut, Harmful, NT.IsTree, BitsOk, RunsOutside;
      ghost var f := fs.View();
      FreemapsApart(fs.sb);
      FileIsOk(f, k);
      ghost var room := fs.sb.Room();
      ghost var harm := start < MAX_BYTES && Harmful(Nth(f, k), start, |buf|, room);
      ret, outside, stop, mid := fs.Write(k, buf, start);
      ghost var g := fs.View();
      if start >= MAX_BYTES {
        assert g == f;
        return;
      }
      if !outside && !harm {
        WriteIsStep(f, g, k, buf, start, ret, stop, mid, room);
        StepShape(f, g, k);
        SameKindsSameBits(f, g, fs.sb.inodeFreemap.bits);
        FileIsNode(f, g, k, logs[k]);
        StepKeepsLogs(f, g, k, logs, {}, logs[k]);
        NoneBad(k);
        assert logs[k := logs[k]] == logs;
        SameNames(f, logs, g, logs, cur);
      }
    }

    /** testfs_get_file_inode: the inode of a file in the current directory. */
    method FileOf(name: seq<byte>) returns (ret: int, k: nat)
      requires Named() && IsName(name)
      ensures var c := NT.At(Names(), cur, name);
              && ret == (if c < 0 then -ENOENT else if NT.IsDir(Names(), c) then -EISDIR else 0)
              && (ret == 0 ==> k == c < NR_INODES && fs.inodes[k].d.kind == I_FILE)
    {
      hide SuperBlock.Valid, FsOk, LogsOkBut, Lookup, NT.IsTree, BitsOk;
      k := 0;
      ret := Find(name);
      if ret < 0 {
        return;
      }
      BoundIsUsed(fs.View(), logs, cur, name);
      if fs.inodes[ret].d.kind == I_DIR {
        return -EISDIR, 0;
      }
      return 0, ret;
    }

    /** cmd_write. */
    method Write(name: seq<byte>, buf: seq<byte>, start: nat)
      returns (ret: int, outside: bool, ghost stop: nat, ghost mid: Vol)
      requires Named() && IsName(name) && |buf| < INT_LIMIT
      modifies fs.inodes, fs.sb, fs.sb.blockFreemap, fs.sb.blockFreemap.v
      ensures var c := old(NT.At(Names(), cur, name));
              && (c < 0 ==> ret == -ENOENT) && (c >= 0 && old(NT.IsDir(Names(), c)) ==> ret == -EISDIR)
              && (c < 0 || old(NT.IsDir(Names(), c)) ==> !outside && Named() && fs.View() == old(fs.View()))
      ensures var c := old(NT.At(Names(), cur, name));
              c >= 0 && !old(NT.IsDir(Names(), c)) ==>
                && c < NR_INODES && |old(fs.View()).inodes[c].direct| == NR_DIRECT_BLOCKS && old(fs.View()).inodes[c].size >= 0
                && (start >= MAX_BYTES ==> ret == EFBIG && !outside && Named() && fs.View() == old(fs.View()))
                && (start < MAX_BYTES ==> outside == RunsOutside(Nth(old(fs.View()), c), start, |buf|, old(fs.sb.Room())))
                && (start < MAX_BYTES && !outside ==>
                      && WriteOutcome(Nth(old(fs.View()), c), Nth(fs.View(), c), buf, start, ret, stop, mid, old(fs.sb.Room()))
                      && (Named() <==> !Harmful(Nth(old(fs.View()), c), start, |buf|, old(fs.sb.Room()))))
                && (!outside && Named() ==>
                      forall l: nat | l < NR_INODES && l != c :: SameContents(Nth(old(fs.View()), l), Nth(fs.View(), l)))
                && forall l: nat | l < NR_INODES && l != c :: fs.inodes[l].d == old(fs.inodes[l].d)
      ensures !outside && Named() ==> Names() == old(Names())
      ensures !outside && old(Clean()) ==> Clean()
    {
      hide SuperBlock.Valid, FsOk, FileOk, WriteOutcome, LogsOkBut, Harmful, NT.IsTree, BitsOk, RunsOutside, SameContents,
        Lookup, SuperBlock.Room;
      var k;
      ret, k := FileOf(name);
      outside, stop, mid := false, 0, Nth(fs.View(), 0);
      if ret < 0 {
        return;
      }
      ret, outside, stop, mid := WriteFile(k, buf, start);
      if !outside {
        ghost var g := fs.View();
        fs.inodes[k].dirty := false;
        assert fs.View() == g;
      }
    }

    /** cmd_read: `size` bytes of a file, which have to lie within it. */
    method Read(name: seq<byte>, start: nat, size: nat) returns (ret: int, buf: seq<byte>, overran: bool)
      requires Named() && IsName(name) && size < INT_LIMIT
      ensures var c := NT.At(Names(), cur, name);
              && (c < 0 ==> ret == -ENOENT) && (c >= 0 && NT.IsDir(Names(), c) ==> ret == -EISDIR)
              && (c >= 0 && !NT.IsDir(Names(), c) ==>
                    && c < NR_INODES && |fs.inodes[c].d.direct| == NR_DIRECT_BLOCKS && fs.inodes[c].d.size <= MAX_BYTES
                    && (start + size > fs.inodes[c].d.size ==> ret == -EINVAL)
                    && (start + size <= fs.inodes[c].d.size && start < MAX_BYTES ==>
                          ret == |buf| == size && Holds(Nth(fs.View(), c), start, buf)))
    {
      hide SuperBlock.Valid, FsOk, FileOk, LogsOkBut, NT.IsTree, BitsOk, Lookup, Good, Sound;
      buf, overran := [], false;
      var k;
      ret, k := FileOf(name);
      if ret < 0 {
        return;
      }
      FileIsOk(fs.View(), k);
      GoodIsSound(Nth(fs.View(), k));
      if start + size > fs.inodes[k].d.size {
        return -EINVAL, buf, overran;
      }
      ret, buf, overran := fs.inodes[k].ReadData(start, size);
    }
  }

  /** What a name is bound to is a file or a directory. */
  lemma BoundIsUsed(f: Fs, logs: seq<seq<Dirent>>, cur: nat, name: seq<byte>)
    requires |logs| == |f.inodes| && NT.IsTree(NamesOf(f, logs, cur)) && cur < |logs| && f.inodes[cur].kind == I_DIR
    ensures var c := NT.At(NamesOf(f, logs, cur), cur, name);
            0 <= c ==> c < |logs| && (f.inodes[c].kind == I_DIR || f.inodes[c].kind == I_FILE)
  {
    hide Lookup;
    var t := NamesOf(f, logs, cur);
    var depth :| NT.Rooted(t, depth);
    NT.LookupInRange(t, depth, cur, name);
  }

  lemma FileIsNode(f: Fs, g: Fs, k: nat, es: seq<Dirent>)
    requires k < |f.inodes| == |g.inodes| && f.inodes[k].kind == I_FILE && g.inodes[k].kind == I_FILE
    ensures NodeOk(Nth(g, k), es)
  {
  }

  lemma ItemName(e: Dirent)
    ensures ItemOf(e).nr == e.nr && |ItemOf(e).buf| == |e.name| + 1 && ItemOf(e).buf[..|e.name|] == e.name
  {
  }

  lemma EntryIsThere(t: NT.Tree, depth: seq<nat>, k: nat, i: nat)
    requires NT.Rooted(t, depth) && NT.IsDir(t, k) && i < |t.nodes[k].es| && t.nodes[k].es[i].nr >= 0
    ensures t.nodes[k].es[i].nr < |t.nodes|
  {
    hide Lookup;
    NT.RootedParts(t, depth);
    assert NT.HasDots(t, k);
    LookupAt(t.nodes[k].es, i);
    NT.LookupInRange(t, depth, k, t.nodes[k].es[i].name);
  }

  /** What is removed is not the current directory. */
  lemma RemovedIsOther(f: Fs, logs: seq<seq<Dirent>>, cur: nat, name: seq<byte>)
    requires |logs| == |f.inodes| && NT.IsTree(NamesOf(f, logs, cur)) && NT.CanRemove(NamesOf(f, logs, cur), name)
    ensures var c := NT.At(NamesOf(f, logs, cur), cur, name);
            0 <= c < |logs| && c != cur && f.inodes[c].kind != I_NONE
  {
    hide Lookup;
    var t := NamesOf(f, logs, cur);
    var depth :| NT.Rooted(t, depth);
    NT.RemovedIsLeaf(t, depth, name);
  }

  lemma StaysRemovable(f: Fs, g: Fs, k: nat, l: nat)
    requires FsOk(f) && FsStep(f, g, k) && l < |f.inodes| && l != k
    requires |f.inodes[l].direct| == NR_DIRECT_BLOCKS && f.inodes[l].size >= 0 && FreeGuard(Nth(f, l))
    ensures g.inodes[l] == f.inodes[l] && FreeGuard(Nth(g, l))
  {
    hide FsOk, At;
    OtherFilesUntouched(f, g, k, l);
    SameInode(f, g, k, l);
    assert forall p :: InUse(Nth(g, l), p) == InUse(Nth(f, l), p);
    assert Below(Nth(g, l)) == Below(Nth(f, l));
  }

  /** A name is gone, and what it named: the command has succeeded. */
  lemma RemoveNames(f: Fs, logs: seq<seq<Dirent>>, g: Fs, logs2: seq<seq<Dirent>>, cur: nat, name: seq<byte>)
    requires |logs| == |f.inodes| == |logs2| == |g.inodes| && cur < |logs| && f.inodes[cur].kind == I_DIR
    requires var t := NamesOf(f, logs, cur); NT.IsTree(t) && NT.CanRemove(t, name)
    requires Index(logs[cur], name) < |logs[cur]| && logs2[cur] == Removed(logs[cur], Index(logs[cur], name))
    requires var c := Lookup(logs[cur], name);
             && (forall l | 0 <= l < |logs| :: g.inodes[l].kind == if l == c then I_NONE else f.inodes[l].kind)
             && (forall l | 0 <= l < |logs| && l != c && l != cur :: logs2[l] == logs[l])
    ensures NT.Succeeds(NamesOf(f, logs, cur), NT.Rm(name), 0, NamesOf(g, logs2, cur))
    ensures NT.IsTree(NamesOf(g, logs2, cur))
  {
    hide Removed, NT.IsTree, Index, Lookup, Bare;
    var t, u := NamesOf(f, logs, cur), NamesOf(g, logs2, cur);
    RemovedIsOther(f, logs, cur, name);
    assert u.nodes == NT.RemovedFrom(t, name).nodes;
    NT.CommandKeepsTree(t, NT.Rm(name), 0, u);
  }

  /** Overwriting an entry never comes to a missing double indirect block. */
  lemma WithinIsHarmless(v: Vol, es: seq<Dirent>, i: nat, room: int)
    requires IsLog(v, es) && FileOk(v) && i < |es|
    ensures |v.d.direct| == NR_DIRECT_BLOCKS && v.d.size >= 0
    ensures EntryOk(es[i].(nr := -1)) && Pos(es, i) < MAX_BYTES
    ensures !Harmful(v, Pos(es, i), |Bytes(es[i].(nr := -1))|, room)
  {
    hide Encode, Bytes, Holds, FileOk, MissingRange;
    OkIsGood(v);
    Split(es, i);
    var e := es[i].(nr := -1);
    var start, n := Pos(es, i), |Bytes(e)|;
    assert n == |Bytes(es[i])|;
    LastBlockBound(start, n);
    SizeBlocksMonotone(start + n, v.d.size);
    var last := LastBlock(start, n);
    DenseAt(v, last);
    if last >= FIRST_DOUBLE {
      assert At(v.disk, v.d, PathOf(last)) != 0;
      LeafHasRoot(v, last);
    }
  }

  lemma LeafHasRoot(v: Vol, log: nat)
    requires Good(v) && FIRST_DOUBLE <= log < MAX_FILE_SIZE && |v.d.direct| == NR_DIRECT_BLOCKS
    requires Phys(v.disk, v.d, log) != 0
    ensures v.d.dindirect != 0
  {
  }

  lemma EntryInRange(f: Fs, logs: seq<seq<Dirent>>, cur: nat, i: nat)
    requires |logs| == |f.inodes| && NT.IsTree(NamesOf(f, logs, cur)) && cur < |logs| && f.inodes[cur].kind == I_DIR
    requires i < |logs[cur]| && logs[cur][i].nr >= 0
    ensures logs[cur][i].nr < |logs|
  {
    hide Lookup;
    var t := NamesOf(f, logs, cur);
    var depth :| NT.Rooted(t, depth);
    NT.RootedParts(t, depth);
    assert NT.HasDots(t, cur);
    LookupAt(logs[cur], i);
    NT.LookupInRange(t, depth, cur, logs[cur][i].name);
  }

  lemma SameDataSameMap(v: Vol, w: Vol)
    requires Sound(v.disk, v.d) && w.d == v.d && SameData(v.disk, w.disk)
    ensures SameMap(v, w)
  {
    Untouched(v.disk, v.d, w.disk);
  }

  lemma StepKeepsMap(f: Fs, g: Fs, k: nat, l: nat)
    requires FsOk(f) && FsStep(f, g, k) && l < |f.inodes| && l != k
    ensures l < |g.inodes| && SameMap(Nth(f, l), Nth(g, l)) && SameContents(Nth(f, l), Nth(g, l))
  {
    hide FsOk, FsStep;
    OtherFilesUntouched(f, g, k, l);
    SameInode(f, g, k, l);
  }

  /** An inode without a double indirect block can be removed. */
  lemma RootlessIsRemovable(f: Fs, k: nat)
    requires FsOk(f) && k < |f.inodes| && f.inodes[k].dindirect == 0
    ensures |f.inodes[k].direct| == NR_DIRECT_BLOCKS && f.inodes[k].size >= 0 && FreeGuard(Nth(f, k))
  {
    FileIsOk(f, k);
    RemovableIff(Nth(f, k));
  }

  lemma SameNames(f: Fs, logs: seq<seq<Dirent>>, g: Fs, logs2: seq<seq<Dirent>>, cur: nat)
    requires |logs| == |f.inodes| == |logs2| == |g.inodes|
    requires forall l | 0 <= l < |logs| :: g.inodes[l].kind == f.inodes[l].kind
    requires forall l | 0 <= l < |logs| && f.inodes[l].kind == I_DIR :: logs2[l] == logs[l]
    ensures NamesOf(g, logs2, cur) == NamesOf(f, logs, cur)
  {
    assert NamesOf(g, logs2, cur).nodes == NamesOf(f, logs, cur).nodes;
  }

  lemma CurIsDir(f: Fs, logs: seq<seq<Dirent>>, cur: nat)
    requires |logs| == |f.inodes| && NT.IsTree(NamesOf(f, logs, cur))
    ensures cur < |logs| && f.inodes[cur].kind == I_DIR
  {
    var t := NamesOf(f, logs, cur);
    var depth :| NT.Rooted(t, depth);
    NT.CurIsDir(t, depth);
  }

  lemma NamesLookup(f: Fs, logs: seq<seq<Dirent>>, cur: nat, name: seq<byte>)
    requires |logs| == |f.inodes| && NT.IsTree(NamesOf(f, logs, cur)) && cur < |logs| && f.inodes[cur].kind == I_DIR
    ensures NT.At(NamesOf(f, logs, cur), cur, name) == Lookup(logs[cur], name) < |logs|
    ensures NamesOf(f, logs, cur).cur == cur
  {
    hide Lookup;
    var t := NamesOf(f, logs, cur);
    var depth :| NT.Rooted(t, depth);
    NT.LookupInRange(t, depth, cur, name);
  }

  /** A new name, and what it names: the command has succeeded. */
  lemma EnterNames(f: Fs, logs: seq<seq<Dirent>>, g: Fs, logs2: seq<seq<Dirent>>, cur: nat, name: seq<byte>, nr: nat, kind: int)
    requires |logs| == |f.inodes| == |logs2| == |g.inodes| && cur < |logs| && nr < |logs| && (kind == I_FILE || kind == I_DIR)
    requires f.inodes[cur].kind == I_DIR && f.inodes[nr].kind == I_NONE && Lookup(logs[cur], name) < 0
    requires forall l | 0 <= l < |logs| :: g.inodes[l].kind == if l == nr then kind else f.inodes[l].kind
    requires forall l | 0 <= l < |logs| && l != nr && l != cur && f.inodes[l].kind == I_DIR :: logs2[l] == logs[l]
    requires logs2[cur] == Added(logs[cur], name, nr) && (kind == I_DIR ==> logs2[nr] == NT.NewDir(nr, cur))
    requires NT.IsTree(NamesOf(f, logs, cur))
    ensures NT.Succeeds(NamesOf(f, logs, cur), NewName(kind, name), nr, NamesOf(g, logs2, cur))
    ensures NT.IsTree(NamesOf(g, logs2, cur))
  {
    hide Lookup, Added, NT.NewDir, NT.IsTree;
    var t, node := NamesOf(f, logs, cur), if kind == I_DIR then NT.Dir(NT.NewDir(nr, cur)) else NT.File;
    var u := NamesOf(g, logs2, cur);
    assert u.nodes == NT.Entered(t, name, nr, node).nodes;
    NT.CommandKeepsTree(t, NewName(kind, name), nr, u);
  }

  function NewName(kind: int, name: seq<byte>): NT.Command
  {
    if kind == I_DIR then NT.Mkdir(name) else NT.Create(name)
  }

  lemma GoodHasZeros(v: Vol, d: Dinode)
    requires Good(v)
    ensures FreeIsZero(v.(d := d))
  {
  }

  /** The inode is emptied and zeroed. */
  lemma ZeroIsStep(f: Fs, g: Fs, k: nat)
    requires FsOk(f) && k < |f.inodes| == |g.inodes| && |f.inodes[k].direct| == NR_DIRECT_BLOCKS
    requires forall l: nat | l < |f.inodes| :: g.inodes[l] == if l == k then ZERO_DINODE else f.inodes[l]
    requires g.alloc == Others(Nth(f, k)) && FreeIsZero(Nth(g, k))
    requires forall b | DataBlock(b) && b in Others(Nth(f, k)) :: g.disk[b] == f.disk[b]
    ensures FsStep(f, g, k) && NodeOk(Nth(g, k), [])
  {
    hide FileOk, Others, Tree, LocalStep;
    FileIsOk(f, k);
    ZeroIsOk(Nth(g, k));
    OkIsGood(Nth(g, k));
    FreeIsLocal(Nth(f, k), Nth(g, k));
  }

  /** The two entries of a new directory lie in one block. */
  lemma DotsFit(k: nat, parent: nat)
    requires k < INT_LIMIT && parent < INT_LIMIT
    ensures IsName(DOT) && IsName(DOTDOT) && Encode([]) == [] && Lookup([], DOT) < 0 && EntriesOk([])
    ensures var es := Added([], DOT, k);
            && es == [Dirent(k, DOT)] && EntriesOk(es) && |Encode(es)| == HEADER + 2
            && Lookup(es, DOTDOT) < 0 && Added(es, DOTDOT, parent) == NT.NewDir(k, parent)
  {
    EncodeOne(Dirent(k, DOT));
    SlotIs([], 1, 0);
    SlotIs([Dirent(k, DOT)], 2, 1);
    FirstIs([], DOT, 0);
    FirstIs([Dirent(k, DOT)], DOTDOT, 1);
  }

  lemma FreemapsApart(sb: SuperBlock)
    requires sb.Valid()
    ensures sb.inodeFreemap != sb.blockFreemap && sb.inodeFreemap.v != sb.blockFreemap.v
  {
  }

  /** A directory whose bytes are no entries shows. */
  lemma NotReadable(f: Fs, logs: seq<seq<Dirent>>, k: nat)
    requires k < |f.inodes| && f.inodes[k].kind == I_DIR && Lost(Nth(f, k))
    ensures !LogsOk(f, logs)
  {
    hide Parses;
    if LogsOk(f, logs) {
      LogAt(f, logs, k);
    }
  }

  lemma NodeAt(f: Fs, logs: seq<seq<Dirent>>, k: nat)
    requires LogsOk(f, logs) && k < |logs|
    ensures f.inodes[k].kind == I_NONE ==> f.inodes[k] == ZERO_DINODE
  {
    assert NodeOk(Nth(f, k), logs[k]);
  }

  lemma LogAt(f: Fs, logs: seq<seq<Dirent>>, k: nat)
    requires LogsOk(f, logs) && k < |logs| && f.inodes[k].kind == I_DIR
    ensures IsLog(Nth(f, k), logs[k]) && EntriesOk(logs[k]) && f.inodes[k].size == |Encode(logs[k])| < INT_LIMIT
  {
    assert NodeOk(Nth(f, k), logs[k]);
  }
}
