/** The operations on the entries of a directory, over the bytes of its inode (fs/dir.c). */
module Directories {
  import opened Layout
  import opened Codec
  import opened Supers
  import opened BlockMap
  import opened Volumes
  import opened Allocations
  import opened FlatFiles
  import opened Freeing
  import opened FileStates
  import opened Inodes
  import opened DirLogs

  /** Every block up to the end of the file is allocated. */
  ghost predicate Dense(v: Vol)
    requires |v.d.direct| == NR_DIRECT_BLOCKS && v.d.size >= 0
  {
    forall l: nat | l < SizeBlocks(v.d) && l < MAX_FILE_SIZE :: Phys(v.disk, v.d, l) != 0
  }

  /** The bytes of the file up to its size are the entries `es`, whole. */
  ghost predicate Parses(v: Vol, es: seq<Dirent>)
  {
    && |v.d.direct| == NR_DIRECT_BLOCKS && EntriesOk(es)
    && v.d.size == |Encode(es)| <= MAX_BYTES
    && Holds(v, 0, Encode(es))
  }

  /** The state of a directory between calls. */
  ghost predicate IsLog(v: Vol, es: seq<Dirent>)
  {
    Parses(v, es) && Dense(v) && v.d.size < INT_LIMIT
  }

  lemma DenseAt(v: Vol, l: nat)
    requires |v.d.direct| == NR_DIRECT_BLOCKS && v.d.size >= 0 && Dense(v)
    requires l < SizeBlocks(v.d) && l < MAX_FILE_SIZE
    ensures Phys(v.disk, v.d, l) != 0
  {
  }

  // ---- what a write does to the log

  lemma {:induction false} RangeFilled(v: Vol, w: Vol, lo: nat, hi: nat, l: nat)
    requires lo <= l < hi <= MAX_FILE_SIZE && |v.d.direct| == NR_DIRECT_BLOCKS && Grown(v, w, MissingRange(v, lo, hi))
    ensures Phys(w.disk, w.d, l) != 0
  {
    hide Good, Grown, At;
    var ps := MissingRange(v, lo, hi);
    MissingRangeMonotone(v, lo, l + 1, hi);
    assert Missing(v, l) <= MissingRange(v, lo, l + 1);
    assert PathOf(l) in Way(l);
    GrownAt(v, w, ps, PathOf(l));
  }

  lemma GrownAt(v: Vol, w: Vol, ps: set<Path>, p: Path)
    requires Grown(v, w, ps) && ValidPath(p)
    ensures |v.d.direct| == |w.d.direct| == NR_DIRECT_BLOCKS
    ensures p in ps || At(v.disk, v.d, p) != 0 ==> At(w.disk, w.d, p) != 0
  {
  }

  lemma SizeIsNoByte(w: Vol, size: int, pos: nat)
    requires |w.d.direct| == NR_DIRECT_BLOCKS && pos < MAX_BYTES
    ensures FileByte(Sized(w, size), pos) == FileByte(w, pos)
    ensures Phys(Sized(w, size).disk, Sized(w, size).d, pos / BLOCK_SIZE) == Phys(w.disk, w.d, pos / BLOCK_SIZE)
  {
  }

  /** A write that starts within a dense file or at its end leaves it dense. */
  lemma StaysDense(v: Vol, w: Vol, start: nat, n: nat)
    requires |v.d.direct| == |w.d.direct| == NR_DIRECT_BLOCKS && 0 <= start <= v.d.size && n > 0
    requires Dense(v) && start + n < MAX_BYTES
    requires LastBlock(start, n) < MAX_FILE_SIZE
    requires Grown(v, Sized(w, v.d.size), MissingRange(v, start / BLOCK_SIZE, LastBlock(start, n) + 1))
    requires w.d.size == if start + n > v.d.size then start + n else v.d.size
    ensures Dense(w)
  {
    hide Grown, Phys, MissingRange, LastBlock;
    var lo, hi := start / BLOCK_SIZE, LastBlock(start, n) + 1;
    var x := Sized(w, v.d.size);
    LastBlockBound(start, n);
    forall l: nat | l < SizeBlocks(w.d) && l < MAX_FILE_SIZE ensures Phys(w.disk, w.d, l) != 0 {
      SizeIsNoByte(w, v.d.size, l * BLOCK_SIZE);
      if lo <= l < hi {
        RangeFilled(v, x, lo, hi, l);
      } else {
        assert l < SizeBlocks(v.d);
        StaysFilled(v, x, MissingRange(v, lo, hi), l);
      }
    }
  }

  lemma StaysFilled(v: Vol, w: Vol, ps: set<Path>, l: nat)
    requires l < MAX_FILE_SIZE && Grown(v, w, ps) && Phys(v.disk, v.d, l) != 0
    ensures Phys(w.disk, w.d, l) != 0
  {
  }

  /** The bytes after a write that starts within the file or at its end. */
  lemma BytesAfter(v: Vol, w: Vol, was: seq<byte>, start: nat, data: seq<byte>)
    requires |v.d.direct| == |w.d.direct| == NR_DIRECT_BLOCKS
    requires start <= |was| && |was| <= INT_LIMIT && |data| < INT_LIMIT
    requires Holds(v, 0, was) && Written(v, Sized(w, v.d.size), start, data)
    ensures start + |data| <= |was| ==> Holds(w, 0, was[..start] + data + was[start + |data|..])
    ensures start == |was| ==> Holds(w, 0, was + data)
  {
    var x := Sized(w, v.d.size);
    forall k: nat | k < MAX_BYTES
      ensures FileByte(w, k) == if start <= k < start + |data| then data[k - start] else FileByte(v, k)
    {
      SizeIsNoByte(w, v.d.size, k);
    }
  }

  /** The log after one entry is written over another of the same length, or at the end. */
  function Put1(es: seq<Dirent>, i: nat, e: Dirent): seq<Dirent>
    requires i <= |es|
  {
    if i < |es| then es[i := e] else es + [e]
  }

  lemma EntryWritten(v: Vol, w: Vol, es: seq<Dirent>, i: nat, e: Dirent, ret: int, stop: nat, mid: Vol, room: int)
    requires IsLog(v, es) && EntryOk(e) && i <= |es|
    requires if i < |es| then |e.name| == |es[i].name| else |Encode(es)| + |Bytes(e)| < INT_LIMIT
    requires WriteOutcome(v, w, Bytes(e), Pos(es, i), ret, stop, mid, room) && ret >= 0
    ensures IsLog(w, Put1(es, i, e))
  {
    hide Grown, Written, MissingRange, AllocationOutcome, Bytes, Encode, Holds, Dense, EntryOk, FileByte, LastBlock;
    var start, n := Pos(es, i), |Bytes(e)|;
    PosBefore(es, i);
    if i < |es| { Overwritten(es, i, e); } else { DirLogs.Appended(es, e); }
    BytesAfter(v, w, Encode(es), start, Bytes(e));
    StaysDense(v, w, start, n);
  }

  /** Nothing is missing inside a dense file, so overwriting bytes of it needs no room. */
  lemma {:induction false} NothingMissingWithin(v: Vol, lo: nat, hi: nat)
    requires Good(v) && |v.d.direct| == NR_DIRECT_BLOCKS
    requires v.d.size >= 0 && Dense(v) && hi <= SizeBlocks(v.d) && hi <= MAX_FILE_SIZE
    ensures MissingRange(v, lo, hi) == {}
    decreases hi
  {
    hide Good, Missing, Dense, Phys, SizeBlocks;
    if lo < hi {
      NothingMissingWithin(v, lo, hi - 1);
      DenseAt(v, hi - 1);
      NoneMissing(v, hi - 1);
    }
  }

  lemma OverwriteSucceeds(v: Vol, w: Vol, buf: seq<byte>, start: nat, ret: int, stop: nat, mid: Vol, room: int)
    requires Good(v) && |v.d.direct| == NR_DIRECT_BLOCKS
    requires v.d.size >= 0 && Dense(v) && buf != [] && start + |buf| <= v.d.size < INT_LIMIT && room >= 0
    requires WriteOutcome(v, w, buf, start, ret, stop, mid, room)
    ensures ret == |buf|
  {
    hide Good, Grown, Written, MissingRange, AllocationOutcome, Dense, Wrote;
    LastBlockBound(start, |buf|);
    SizeBlocksMonotone(start + |buf|, v.d.size);
    NothingMissingWithin(v, start / BLOCK_SIZE, LastBlock(start, |buf|) + 1);
  }

  // ---- reading entries

  datatype Option<T> = None | Some(value: T)

  /** What a scan hands out: the header, and the bytes of the name with what ends it. */
  datatype Item = Item(len: int, nr: int, buf: seq<byte>)

  function ItemOf(e: Dirent): Item
  {
    Item(|e.name| + 1, e.nr, e.name + [0])
  }

  /** strcmp(buf, name) == 0, for a name without a zero byte. */
  predicate NameIs(buf: seq<byte>, name: seq<byte>)
  {
    |buf| > |name| && buf[..|name|] == name && buf[|name|] == 0
  }

  lemma NameOfEntry(e: Dirent, name: seq<byte>)
    requires EntryOk(e) && IsName(name)
    ensures NameIs(ItemOf(e).buf, name) <==> e.name == name
  {
    var buf := ItemOf(e).buf;
    assert buf[..|e.name|] == e.name;
    assert |name| < |e.name| ==> buf[|name|] == e.name[|name|] && buf[|name|] in e.name;
  }

  lemma HoldsSame(v: Vol, b: seq<byte>, start: nat, buf: seq<byte>)
    requires |v.d.direct| == NR_DIRECT_BLOCKS && start + |buf| <= |b| <= MAX_BYTES
    requires Holds(v, 0, b) && Holds(v, start, buf)
    ensures buf == b[start..start + |buf|]
  {
    hide FileByte;
    forall k | 0 <= k < |buf| ensures buf[k] == b[start + k] {
      assert buf[k] == FileByte(v, start + k) == FileByte(v, 0 + (start + k));
    }
  }

  /** The bytes read within an entry are those of the entry. */
  lemma ReadsPart(v: Vol, es: seq<Dirent>, i: nat, off: nat, buf: seq<byte>)
    requires IsLog(v, es) && i < |es| && off + |buf| <= |Bytes(es[i])|
    requires Pos(es, i) + off + |buf| <= MAX_BYTES && Holds(v, Pos(es, i) + off, buf)
    ensures buf == Bytes(es[i])[off..off + |buf|]
  {
    hide Encode, Bytes, Holds, EntryOk, Dense;
    Split(es, i);
    var b, p, n := Encode(es), Pos(es, i), |Bytes(es[i])|;
    HoldsSame(v, b, p + off, buf);
    assert b[p + off..p + off + |buf|] == b[p..p + n][off..off + |buf|];
  }

  lemma ItemIs(e: Dirent, d: Item)
    requires d.len == |e.name| + 1 && d.nr == e.nr && d.buf == ItemOf(e).buf
    ensures d == ItemOf(e)
  {
  }

  lemma EntryFields(e: Dirent, h: seq<byte>)
    requires EntryOk(e) && h == Bytes(e)[0..HEADER]
    ensures Get(h, 0, 4) == |e.name| + 1 && Signed(Get(h, 4, 4)) == e.nr
    ensures |Bytes(e)[HEADER..]| == |e.name| + 1 && Bytes(e)[HEADER..] == ItemOf(e).buf
    ensures |Bytes(e)| < INT_LIMIT
  {
    HeaderFields(e);
    assert h == Header(e);
  }

  /** The entry at `offset`, and where the next one begins. */
  method NextDirent(dir: Inode, offset: nat, ghost es: seq<Dirent>, ghost i: nat) returns (d: Option<Item>, next: nat)
    requires Sound(dir.sb.disk, dir.d) && IsLog(dir.V(), es) && i <= |es| && offset == Pos(es, i)
    ensures i == |es| ==> d == None && next == offset
    ensures i < |es| ==> d == Some(ItemOf(es[i])) && next == Pos(es, i + 1)
  {
    hide Encode, Bytes, Holds, Dense, EntryOk, Sound, ItemOf;
    PosBefore(es, i);
    if offset >= dir.d.size {
      return None, offset;
    }
    Split(es, i);
    EntryFields(es[i], Bytes(es[i])[0..HEADER]);
    var ret, h, overran := dir.ReadData(offset, HEADER);
    ReadsPart(dir.V(), es, i, 0, h);
    var len := Signed(Get(h, 0, 4));
    next := offset + HEADER;
    var buf;
    ret, buf, overran := dir.ReadData(next, len);
    ReadsPart(dir.V(), es, i, HEADER, buf);
    d := Some(Item(len, Signed(Get(h, 4, 4)), buf));
    ItemIs(es[i], d.value);
    next := next + len;
  }

  /** The inode number a name is bound to. */
  method NameToInodeNr(dir: Inode, name: seq<byte>, ghost es: seq<Dirent>) returns (ret: int)
    requires Sound(dir.sb.disk, dir.d) && IsLog(dir.V(), es) && IsName(name)
    ensures ret == if name in Dict(es) then Dict(es)[name] else -ENOENT
  {
    hide IsLog, Sound, Encode;
    LogEntries(dir.V(), es);
    ret := -ENOENT;
    var offset := 0;
    ghost var i := 0;
    while ret < 0
      invariant i <= |es| && offset == Pos(es, i)
      invariant if ret < 0 then ret == -ENOENT && forall j | 0 <= j < i :: !Live(es[j], name)
                else i > 0 && Index(es, name) == i - 1 && ret == es[i - 1].nr
      decreases |es| - i, ret < 0
    {
      var d;
      d, offset := NextDirent(dir, offset, es, i);
      if d == None {
        break;
      }
      i := i + 1;
      NameOfEntry(es[i - 1], name);
      if d.value.nr < 0 || !NameIs(d.value.buf, name) {
        continue;
      }
      ret := d.value.nr;
      FirstIs(es, name, i - 1);
    }
    BoundIff(es, name);
  }

  lemma LogEntries(v: Vol, es: seq<Dirent>)
    requires IsLog(v, es)
    ensures EntriesOk(es) && Pos(es, 0) == 0 && |Encode(es)| < INT_LIMIT && v.d.size == |Encode(es)|
    ensures |v.d.direct| == NR_DIRECT_BLOCKS && Dense(v)
  {
  }

  /** The first entry that carries an inode number. */
  method FindDirent(dir: Inode, nr: nat, ghost es: seq<Dirent>) returns (r: Option<Item>)
    requires Sound(dir.sb.disk, dir.d) && IsLog(dir.V(), es)
    ensures r == if FirstNr(es, nr) < |es| then Some(ItemOf(es[FirstNr(es, nr)])) else None
  {
    hide IsLog, Sound, Encode;
    LogEntries(dir.V(), es);
    var offset := 0;
    ghost var i := 0;
    while true
      invariant i <= |es| && offset == Pos(es, i) && forall j | 0 <= j < i :: es[j].nr != nr
      decreases |es| - i
    {
      var d;
      d, offset := NextDirent(dir, offset, es, i);
      if d == None {
        FirstNrIs(es, nr, i);
        return None;
      }
      if d.value.nr == nr {
        FirstNrIs(es, nr, i);
        return d;
      }
      i := i + 1;
    }
  }

  // ---- adding entries

  method WriteDirent(dir: Inode, name: seq<byte>, nr: nat, offset: nat)
    returns (ret: int, ghost stop: nat, ghost mid: Vol)
    requires dir.sb.Valid() && Good(dir.V()) && IsName(name) && nr < INT_LIMIT && offset < INT_LIMIT
    modifies dir, dir.sb, dir.sb.blockFreemap, dir.sb.blockFreemap.v
    ensures dir.sb.Valid() && dir.sb.sb.maxFsBlocks == old(dir.sb.sb.maxFsBlocks)
    ensures |old(dir.d).direct| == NR_DIRECT_BLOCKS
    ensures WriteOutcome(old(dir.V()), dir.V(), Bytes(Dirent(nr, name)), offset, ret, stop, mid, old(dir.sb.Room()))
  {
    hide SuperBlock.Valid, WriteOutcome;
    var h := PutInts(Zeros(HEADER), 0, [|name| + 1, nr]);
    var outside;
    ret, outside, stop, mid := dir.WriteData(h + name + [0], offset);
  }

  /** The scan of testfs_add_dirent: the name is there already, or where its entry goes. */
  method FindSlot(dir: Inode, name: seq<byte>, ghost es: seq<Dirent>) returns (ret: int, pOffset: nat)
    requires Sound(dir.sb.disk, dir.d) && IsLog(dir.V(), es) && IsName(name)
    ensures if Refused(es, name) then ret == -EEXIST else ret == 0 && pOffset == Pos(es, Slot(es, |name|))
  {
    hide IsLog, Encode, Sound;
    LogEntries(dir.V(), es);
    var len := |name| + 1;
    var offset, found := 0, false;
    ghost var i := 0;
    ret, pOffset := 0, 0;
    while ret == 0 && !found
      invariant i <= |es| && offset == Pos(es, i)
      invariant !found && ret == 0 ==> forall j | 0 <= j < i :: !Live(es[j], name) && !Reusable(es[j], |name|)
      invariant ret == 0 || (ret == -EEXIST && Refused(es, name))
      invariant found ==> i > 0 && ret == 0 && !Refused(es, name) && Slot(es, |name|) == i - 1 && pOffset == Pos(es, i - 1)
      decreases |es| - i, ret == 0 && !found
    {
      pOffset := offset;
      var d;
      d, offset := NextDirent(dir, offset, es, i);
      if d == None {
        break;
      }
      i := i + 1;
      NameOfEntry(es[i - 1], name);
      if d.value.nr >= 0 && NameIs(d.value.buf, name) {
        ret := -EEXIST;
        FirstIs(es, name, i - 1);
        SlotAfter(es, |name|, i - 1);
        continue;
      }
      if d.value.nr >= 0 || d.value.len != len {
        continue;
      }
      found := true;
      SlotIs(es, |name|, i - 1);
      IndexAfter(es, name, i - 1);
    }
    if ret == 0 && !found {
      SlotIs(es, |name|, |es|);
    }
  }

  /**
   Binds `name` to `nr`: refused if the name is met before an entry to reuse; otherwise written over the first
   removed entry of its length, or at the end. Reusing an entry never fails.
   */
  method AddDirent(dir: Inode, name: seq<byte>, nr: nat, ghost es: seq<Dirent>)
    returns (ret: int, ghost stop: nat, ghost mid: Vol)
    requires dir.sb.Valid() && dir.sb.Room() >= 0 && Good(dir.V()) && IsLog(dir.V(), es)
    requires IsName(name) && nr < INT_LIMIT && |Encode(es)| + HEADER + |name| + 1 < INT_LIMIT
    modifies dir, dir.sb, dir.sb.blockFreemap, dir.sb.blockFreemap.v
    ensures dir.sb.Valid() && dir.sb.sb.maxFsBlocks == old(dir.sb.sb.maxFsBlocks)
    ensures |old(dir.d).direct| == NR_DIRECT_BLOCKS
    ensures Refused(es, name) ==>
              ret == -EEXIST && dir.V() == old(dir.V()) && dir.sb.sb == old(dir.sb.sb) && dir.dirty == old(dir.dirty)
    ensures !Refused(es, name) ==>
              && WriteOutcome(old(dir.V()), dir.V(), Bytes(Dirent(nr, name)), Pos(es, Slot(es, |name|)),
                              ret, stop, mid, old(dir.sb.Room()))
              && (ret >= 0 ==> IsLog(dir.V(), Added(es, name, nr)))
              && (Slot(es, |name|) < |es| ==> ret >= 0)
  {
    hide SuperBlock.Valid, WriteOutcome, IsLog, Encode, Good, Sound;
    ghost var v := dir.V();
    LogEntries(v, es);
    GoodIsSound(v);
    ghost var room := dir.sb.Room();
    var pOffset;
    ret, pOffset := FindSlot(dir, name, es);
    stop, mid := 0, v;
    if ret < 0 {
      return;
    }
    ret, stop, mid := WriteDirent(dir, name, nr, pOffset);
    AddOutcome(v, dir.V(), es, name, nr, ret, stop, mid, room);
  }

  lemma GoodIsSound(v: Vol)
    requires Good(v)
    ensures Sound(v.disk, v.d)
  {
  }

  lemma SlotAfter(es: seq<Dirent>, n: nat, i: nat)
    requires i < |es| && forall j | 0 <= j <= i :: !Reusable(es[j], n)
    ensures Slot(es, n) > i
  {
  }

  lemma IndexAfter(es: seq<Dirent>, name: seq<byte>, i: nat)
    requires i < |es| && forall j | 0 <= j <= i :: !Live(es[j], name)
    ensures Index(es, name) > i
  {
  }

  lemma AddOutcome(v: Vol, w: Vol, es: seq<Dirent>, name: seq<byte>, nr: nat, ret: int, stop: nat, mid: Vol, room: int)
    requires IsLog(v, es) && Good(v) && IsName(name) && nr < INT_LIMIT && room >= 0
    requires |Encode(es)| + HEADER + |name| + 1 < INT_LIMIT
    requires WriteOutcome(v, w, Bytes(Dirent(nr, name)), Pos(es, Slot(es, |name|)), ret, stop, mid, room)
    ensures ret >= 0 ==> IsLog(w, Added(es, name, nr))
    ensures Slot(es, |name|) < |es| ==> ret >= 0
  {
    hide WriteOutcome, IsLog, Encode, Good, Dense;
    LogEntries(v, es);
    var s, e := Slot(es, |name|), Dirent(nr, name);
    if s < |es| {
      Overwritten(es, s, e);
      OverwriteSucceeds(v, w, Bytes(e), Pos(es, s), ret, stop, mid, room);
    }
    if ret >= 0 {
      EntryWritten(v, w, es, s, e, ret, stop, mid, room);
    }
  }

  /** A failed allocation, but for the branch that frees the wrong block, maps and shows what was there before. */
  lemma FailedKeepsMap(m: Vol, x: Vol, log: nat, ret: int, left: int)
    requires Good(m) && log < MAX_FILE_SIZE && |m.d.direct| == NR_DIRECT_BLOCKS
    requires AllocationOutcome(m, x, log, ret, left) && left < |Missing(m, log)| && !Leaks(m, log, left)
    ensures |x.d.direct| == NR_DIRECT_BLOCKS && SameContents(m, x)
    ensures forall l: nat | l < MAX_FILE_SIZE :: Phys(x.disk, x.d, l) == Phys(m.disk, m.d, l)
  {
    if !Strands(m, log, left) {
      Untouched(m.disk, m.d, x.disk);
    }
  }

  /** The write stopped at once and the size was not noted: the directory is as it was. */
  lemma StoppedAtOnce(v: Vol, w: Vol, es: seq<Dirent>, mid: Vol, lo: nat, ret: int, left: int)
    requires IsLog(v, es) && Good(v) && lo < MAX_FILE_SIZE && w.d.size == v.d.size
    requires Wrote(v, mid, lo * BLOCK_SIZE, [], lo, lo) && Good(mid)
    requires AllocationOutcome(mid, w, lo, ret, left) && left < |Missing(mid, lo)| && !Leaks(mid, lo, left)
    ensures IsLog(w, es)
  {
    FailedKeepsMap(mid, w, lo, ret, left);
    forall pos: nat | pos < MAX_BYTES ensures FileByte(w, pos) == FileByte(v, pos) {
      assert FileByte(mid, pos) == FileByte(v, pos);
    }
    forall l: nat | l < MAX_FILE_SIZE ensures Phys(w.disk, w.d, l) == Phys(v.disk, v.d, l) {
      assert MissingRange(v, lo, lo) == {};
    }
  }

  /** The write stopped and the largest size was noted: the file now ends in zeros. */
  lemma StoppedAndNoted(v: Vol, w: Vol, mid: Vol, lo: nat, stop: nat, ret: int, left: int, fs: seq<Dirent>)
    requires FileOk(v) && Good(mid) && |v.d.direct| == |mid.d.direct| == NR_DIRECT_BLOCKS
    requires lo <= stop < MAX_FILE_SIZE - 1 && SizeBlocks(v.d) < MAX_FILE_SIZE && w.d.size == MAX_BYTES
    requires Grown(v, mid, MissingRange(v, lo, stop))
    requires AllocationOutcome(mid, Sized(w, v.d.size), stop, ret, left)
    requires left < |Missing(mid, stop)| && !Leaks(mid, stop, left)
    ensures !Parses(w, fs)
  {
    hide AllocationOutcome, MissingRange, Good, Missing, FileOk, Parses, Grown;
    var last := MAX_FILE_SIZE - 1;
    FailedKeepsMap(mid, Sized(w, v.d.size), stop, ret, left);
    LastIsHole(v, mid, lo, stop);
    SizeIsNoByte(w, v.d.size, last * BLOCK_SIZE);
    if Parses(w, fs) {
      LastIsThere(w, MAX_FILE_SIZE, fs);
    }
  }

  /** The last block of entries that end at a block boundary holds an entry, so it is not a hole. */
  lemma LastIsThere(w: Vol, n: nat, fs: seq<Dirent>)
    requires Parses(w, fs) && 0 < n <= MAX_FILE_SIZE && w.d.size == n * BLOCK_SIZE
    ensures |w.d.direct| == NR_DIRECT_BLOCKS && Phys(w.disk, w.d, n - 1) != 0
  {
    hide Phys, FileByte, Encode;
    EndIsNotZero(fs);
    var b := Encode(fs);
    var k :| |b| - HEADER - 1 <= k < |b| && b[k] != 0;
    assert k / BLOCK_SIZE == n - 1;
    assert b[k] == FileByte(w, 0 + k);
    NonzeroByte(w, k);
  }

  lemma NonzeroByte(w: Vol, k: nat)
    requires |w.d.direct| == NR_DIRECT_BLOCKS && k < MAX_BYTES && FileByte(w, k) != 0
    ensures Phys(w.disk, w.d, k / BLOCK_SIZE) != 0
  {
    hide Phys;
  }

  lemma LastIsHole(v: Vol, mid: Vol, lo: nat, stop: nat)
    requires FileOk(v) && |v.d.direct| == NR_DIRECT_BLOCKS && lo <= stop < MAX_FILE_SIZE - 1
    requires SizeBlocks(v.d) < MAX_FILE_SIZE && Grown(v, mid, MissingRange(v, lo, stop))
    ensures |mid.d.direct| == NR_DIRECT_BLOCKS && Phys(mid.disk, mid.d, MAX_FILE_SIZE - 1) == 0
  {
    var p := PathOf(MAX_FILE_SIZE - 1);
    PathsAreLogicalBlocks(MAX_FILE_SIZE - 1, p);
    if p in MissingRange(v, lo, stop) {
      MissingRangeData(v, lo, stop, MAX_FILE_SIZE - 1);
    }
    assert !InUse(v, p);
  }

  /** The entry of `n` bytes goes through at the end, at `start`: all the blocks it needs can be had. */
  ghost predicate Fits(v: Vol, start: nat, n: nat, room: int)
    requires |v.d.direct| == NR_DIRECT_BLOCKS && start + n < INT_LIMIT
  {
    LastBlockBound(start, n);
    room >= |MissingRange(v, start / BLOCK_SIZE, LastBlock(start, n) + 1)|
  }

  /** It is given up at the first of several blocks, which cannot be had, and not in the branch of line 294. */
  ghost predicate GivesUpAtOnce(v: Vol, start: nat, n: nat, room: int)
    requires |v.d.direct| == NR_DIRECT_BLOCKS && start + n < INT_LIMIT
  {
    start / BLOCK_SIZE < LastBlock(start, n) && room < |Missing(v, start / BLOCK_SIZE)| && !MeetsRoot(v, start, n, room, 2)
  }

  /**
   Whether the bytes of a directory are still those of entries after an entry was to be written at its end is
   decided by the room: all blocks fit, or the first of several does not. In all other cases the size is set to the
   largest there is, or the indirect block freed, and no entries have these bytes.
   */
  lemma FailedAddIff(v: Vol, w: Vol, es: seq<Dirent>, e: Dirent, ret: int, stop: nat, mid: Vol, room: nat)
    requires IsLog(v, es) && FileOk(v) && EntryOk(e) && |Encode(es)| + |Bytes(e)| < INT_LIMIT
    requires WriteOutcome(v, w, Bytes(e), |Encode(es)|, ret, stop, mid, room)
    ensures var start, n := |Encode(es)|, |Bytes(e)|;
            && (Fits(v, start, n, room) ==> IsLog(w, es + [e]))
            && (GivesUpAtOnce(v, start, n, room) ==> IsLog(w, es))
            && ((exists fs :: Parses(w, fs)) <==> Fits(v, start, n, room) || GivesUpAtOnce(v, start, n, room))
  {
    hide WriteOutcome, Encode, Bytes, FileOk, Parses, Dense, Good, Missing, MissingRange, MeetsRoot;
    LogEntries(v, es);
    OkIsGood(v);
    var start, n := |Encode(es)|, |Bytes(e)|;
    EndsIff(v, w, Bytes(e), start, ret, stop, mid, room);
    if Fits(v, start, n, room) {
      LastBlockBound(start, n);
      EmptyFits(v, start, room);
      RangeSizeMonotone(v, start / BLOCK_SIZE, start / BLOCK_SIZE + 1, LastBlock(start, n) + 1);
      PosEnd(es);
      EntryWritten(v, w, es, |es|, e, ret, stop, mid, room);
      assert Parses(w, es + [e]);
    } else {
      StoppedAdd(v, w, es, e, ret, stop, mid, room);
      assert GivesUpAtOnce(v, start, n, room) ==> Parses(w, es);
    }
  }

  /** How a short write ends is decided by the room. */
  lemma EndsIff(v: Vol, w: Vol, buf: seq<byte>, start: nat, ret: int, stop: nat, mid: Vol, room: nat)
    requires Good(v) && |v.d.direct| == NR_DIRECT_BLOCKS && start + |buf| < INT_LIMIT
    requires WriteOutcome(v, w, buf, start, ret, stop, mid, room)
    ensures ret >= 0 <==> Fits(v, start, |buf|, room)
    ensures ret < 0 ==> ret == -ENOSPC
    ensures ret < 0 ==> (stop == start / BLOCK_SIZE <==> room < |Missing(v, start / BLOCK_SIZE)|)
  {
    hide Wrote, AllocationOutcome, MissingRange, Missing, Good;
    LastBlockBound(start, |buf|);
    var lo := start / BLOCK_SIZE;
    EmptyFits(v, start, room);
    if ret < 0 && stop > lo {
      RangeSizeMonotone(v, lo, lo + 1, stop);
    }
  }

  lemma StoppedAdd(v: Vol, w: Vol, es: seq<Dirent>, e: Dirent, ret: int, stop: nat, mid: Vol, room: nat)
    requires IsLog(v, es) && FileOk(v) && EntryOk(e) && |Encode(es)| + |Bytes(e)| < INT_LIMIT
    requires WriteOutcome(v, w, Bytes(e), |Encode(es)|, ret, stop, mid, room)
    requires !Fits(v, |Encode(es)|, |Bytes(e)|, room)
    ensures GivesUpAtOnce(v, |Encode(es)|, |Bytes(e)|, room) ==> IsLog(w, es)
    ensures !GivesUpAtOnce(v, |Encode(es)|, |Bytes(e)|, room) ==> forall fs :: !Parses(w, fs)
  {
    hide AllocationOutcome, MissingRange, Good, Missing, Encode, Bytes, FileOk, Parses, Dense, Grown, Written, MeetsRoot;
    LogEntries(v, es);
    var start, n := |Encode(es)|, |Bytes(e)|;
    OkIsGood(v);
    LastBlockBound(start, n);
    EndsIff(v, w, Bytes(e), start, ret, stop, mid, room);
    MeetsRootIff(v, w, Bytes(e), start, ret, stop, mid, room, 2);
    var lo, left := start / BLOCK_SIZE, room - |MissingRange(v, start / BLOCK_SIZE, stop)|;
    MissingNext(v, mid, lo, stop);
    GrownIsGood(v, mid, MissingRange(v, lo, stop));
    if stop == lo < LastBlock(start, n) {
      NothingWrittenYet(v, mid, start, Bytes(e)[..0], lo);
      NothingMissing(v, lo);
      assert Sized(w, v.d.size) == w;
      if MeetsRoot(v, start, n, room, 2) {
        forall fs ensures !Parses(w, fs) {
          LostAtOnce(v, w, es, mid, lo, ret, left, fs);
        }
      } else {
        StoppedAtOnce(v, w, es, mid, lo, ret, left);
      }
    } else {
      forall fs ensures !Parses(w, fs) {
        if MeetsRoot(v, start, n, room, 2) {
          LostAndNoted(mid, w, v.d.size, stop, ret, left, fs);
        } else {
          StoppedAndNoted(v, w, mid, lo, stop, ret, left, fs);
        }
      }
    }
  }

  /** The branch of line 294 in a write that notes the largest size: without a double indirect block that ends in zeros. */
  lemma LostAndNoted(mid: Vol, w: Vol, size: int, stop: nat, ret: int, left: int, fs: seq<Dirent>)
    requires stop < MAX_FILE_SIZE && |mid.d.direct| == NR_DIRECT_BLOCKS && left < |Missing(mid, stop)|
    requires AllocationOutcome(mid, Sized(w, size), stop, ret, left) && Leaks(mid, stop, left) && w.d.size == MAX_BYTES
    ensures !Parses(w, fs)
  {
    hide Missing, Parses;
    if Parses(w, fs) {
      LastIsThere(w, MAX_FILE_SIZE, fs);
    }
  }

  /** The branch of line 294 at the first of several blocks: the blocks of the indirect block are gone. */
  lemma LostAtOnce(v: Vol, w: Vol, es: seq<Dirent>, mid: Vol, lo: nat, ret: int, left: int, fs: seq<Dirent>)
    requires IsLog(v, es) && Good(v) && lo < MAX_FILE_SIZE && v.d.size / BLOCK_SIZE == lo && w.d.size == v.d.size
    requires Grown(v, mid, {}) && left < |Missing(mid, lo)|
    requires AllocationOutcome(mid, w, lo, ret, left) && Leaks(mid, lo, left)
    ensures !Parses(w, fs)
  {
    hide Missing, Parses, Encode, Good, Grown;
    LogEntries(v, es);
    GrownBeside(v, mid, {}, Dind);
    GrownBeside(v, mid, {}, Ind);
    RootIsDindirect(v);
    RootIsDindirect(mid);
    EndsBelowRoot(v, lo);
    if Parses(w, fs) {
      LastIsThere(w, lo, fs);
      IndirectIsGone(mid, w);
    }
  }

  lemma RootIsDindirect(v: Vol)
    requires |v.d.direct| == NR_DIRECT_BLOCKS
    ensures At(v.disk, v.d, Dind) == v.d.dindirect && At(v.disk, v.d, Ind) == v.d.indirect
  {
  }

  /** A dense file that goes on with a doubly indirect block, but has no double indirect block, ends right before. */
  lemma EndsBelowRoot(v: Vol, lo: nat)
    requires Good(v) && |v.d.direct| == NR_DIRECT_BLOCKS && v.d.dindirect == 0 && v.d.size >= 0 && Dense(v)
    requires FIRST_DOUBLE <= lo == v.d.size / BLOCK_SIZE && lo < MAX_FILE_SIZE
    ensures lo == FIRST_DOUBLE && v.d.size == lo * BLOCK_SIZE && v.d.indirect != 0
  {
    if SizeBlocks(v.d) > FIRST_DOUBLE {
      DenseAt(v, FIRST_DOUBLE);
    }
    DenseAt(v, FIRST_DOUBLE - 1);
    assert PathOf(FIRST_DOUBLE - 1).IndLeaf?;
  }

  lemma IndirectIsGone(mid: Vol, w: Vol)
    requires Leaked(mid, w) && mid.d.indirect != 0 && |mid.d.direct| == NR_DIRECT_BLOCKS && Good(mid)
    ensures |w.d.direct| == NR_DIRECT_BLOCKS && Phys(w.disk, w.d, FIRST_DOUBLE - 1) == 0
  {
    RootIsDindirect(mid);
    assert DataBlock(mid.d.indirect);
    assert w.disk[w.d.indirect] == ZERO_BLOCK;
    assert PathOf(FIRST_DOUBLE - 1) == IndLeaf(NR_INDIRECT_BLOCKS - 1);
  }

  /** On a full device an entry in a block of its own loses all entries of the directory. */
  lemma FullDeviceLosesEntries(v: Vol, w: Vol, es: seq<Dirent>, e: Dirent, ret: int, stop: nat, mid: Vol, fs: seq<Dirent>)
    requires IsLog(v, es) && FileOk(v) && EntryOk(e) && |Encode(es)| + |Bytes(e)| < INT_LIMIT
    requires |Encode(es)| % BLOCK_SIZE == 0 && |Bytes(e)| <= BLOCK_SIZE
    requires WriteOutcome(v, w, Bytes(e), |Encode(es)|, ret, stop, mid, 0)
    ensures ret == -ENOSPC && w.d.size == MAX_BYTES && !Parses(w, fs)
  {
    hide Encode, Bytes, FileOk, Parses, Dense, Good, MissingRange, AllocationOutcome, Wrote;
    LogEntries(v, es);
    OkIsGood(v);
    var start := |Encode(es)|;
    EndsIff(v, w, Bytes(e), start, ret, stop, mid, 0);
    assert SizeBlocks(v.d) == start / BLOCK_SIZE;
    NextIsMissing(v);
    EmptyFits(v, start, 0);
    FailedAddIff(v, w, es, e, ret, stop, mid, 0);
  }

  /** The block behind the end of a file is not there. */
  lemma NextIsMissing(v: Vol)
    requires FileOk(v) && |v.d.direct| == NR_DIRECT_BLOCKS && SizeBlocks(v.d) < MAX_FILE_SIZE
    ensures |Missing(v, SizeBlocks(v.d))| > 0
  {
    var log := SizeBlocks(v.d);
    PathsAreLogicalBlocks(log, PathOf(log));
    assert !InUse(v, PathOf(log));
    assert PathOf(log) in Missing(v, log);
  }

  lemma NothingWrittenYet(v: Vol, mid: Vol, start: nat, data: seq<byte>, lo: nat)
    requires Wrote(v, mid, start, data, lo, lo) && data == []
    ensures Wrote(v, mid, lo * BLOCK_SIZE, [], lo, lo)
  {
  }

  /** An entry that fits into the last block in use needs no room. */
  lemma FitsInLastBlock(v: Vol, w: Vol, es: seq<Dirent>, e: Dirent, ret: int, stop: nat, mid: Vol, room: nat)
    requires IsLog(v, es) && Good(v) && EntryOk(e) && |Encode(es)| + |Bytes(e)| < INT_LIMIT
    requires |Encode(es)| % BLOCK_SIZE > 0 && |Encode(es)| % BLOCK_SIZE + |Bytes(e)| <= BLOCK_SIZE
    requires WriteOutcome(v, w, Bytes(e), |Encode(es)|, ret, stop, mid, room)
    ensures ret >= 0 && |w.alloc| == |v.alloc|
  {
    hide Good, Written, MissingRange, AllocationOutcome, Dense, Encode, Bytes, Parses;
    LogEntries(v, es);
    var lo := |Encode(es)| / BLOCK_SIZE;
    NothingMissingWithin(v, lo, lo + 1);
  }

  // ---- removing entries

  /** Whether the file or directory may be removed: a directory only if it is empty. */
  method RemoveDirentAllowed(child: Inode, ghost es: seq<Dirent>) returns (ret: int)
    requires child.d.kind == I_DIR ==> Sound(child.sb.disk, child.d) && IsLog(child.V(), es)
    ensures ret == if child.d.kind == I_DIR && !Bare(es) then -ENOTEMPTY else 0
  {
    hide IsLog, Encode, Sound;
    ret := 0;
    if child.d.kind != I_DIR {
      return;
    }
    LogEntries(child.V(), es);
    var offset := 0;
    ghost var i := 0;
    while ret == 0
      invariant i <= |es| && offset == Pos(es, i)
      invariant if ret == 0 then forall j | 0 <= j < i && es[j].nr >= 0 :: es[j].name == DOT || es[j].name == DOTDOT
                else ret == -ENOTEMPTY && !Bare(es)
      decreases |es| - i, ret == 0
    {
      var d;
      d, offset := NextDirent(child, offset, es, i);
      if d == None {
        break;
      }
      i := i + 1;
      NameOfEntry(es[i - 1], DOT);
      NameOfEntry(es[i - 1], DOTDOT);
      if d.value.nr < 0 || NameIs(d.value.buf, DOT) || NameIs(d.value.buf, DOTDOT) {
        continue;
      }
      ret := -ENOTEMPTY;
    }
  }

  /** The inodes a directory refers to exist, and the directories among them hold the entries `logs`. */
  ghost predicate Refers(es: seq<Dirent>, inodes: seq<Inode>, logs: seq<seq<Dirent>>)
    reads inodes, set k | 0 <= k < |inodes| :: inodes[k].sb
  {
    forall i | 0 <= i < |es| && es[i].nr >= 0 ::
      var k := es[i].nr;
      k < |inodes| && k < |logs| &&
      (inodes[k].d.kind == I_DIR ==> Sound(inodes[k].sb.disk, inodes[k].d) && IsLog(inodes[k].V(), logs[k]))
  }

  /** What testfs_remove_dirent answers. */
  ghost function RemovalResult(es: seq<Dirent>, name: seq<byte>, inodes: seq<Inode>, logs: seq<seq<Dirent>>): int
    requires Refers(es, inodes, logs)
    reads inodes, set k | 0 <= k < |inodes| :: inodes[k].sb
  {
    if name == DOT || name == DOTDOT then -EINVAL
    else if !Bound(es, name) then -ENOENT
    else
      var nr := es[Index(es, name)].nr;
      if inodes[nr].d.kind == I_DIR && !Bare(logs[nr]) then -ENOTEMPTY else nr
  }

  /** Unbinds a name, unless it names a directory that is not empty. The write never fails. */
  method RemoveDirent(dir: Inode, name: seq<byte>, inodes: seq<Inode>, ghost es: seq<Dirent>,
                      ghost logs: seq<seq<Dirent>>)
    returns (ret: int, ghost stop: nat, ghost mid: Vol)
    requires dir.sb.Valid() && dir.sb.Room() >= 0 && Good(dir.V()) && IsLog(dir.V(), es) && IsName(name)
    requires |dir.d.direct| == NR_DIRECT_BLOCKS && Refers(es, inodes, logs)
    modifies dir, dir.sb, dir.sb.blockFreemap, dir.sb.blockFreemap.v
    ensures dir.sb.Valid() && dir.sb.sb.maxFsBlocks == old(dir.sb.sb.maxFsBlocks)
    ensures ret == old(RemovalResult(es, name, inodes, logs))
    ensures ret < 0 ==> dir.V() == old(dir.V()) && dir.sb.sb == old(dir.sb.sb) && dir.dirty == old(dir.dirty)
    ensures ret >= 0 ==>
              var i := Index(es, name);
              && i < |es| && es[i].nr == ret && IsLog(dir.V(), Removed(es, i))
              && WriteOutcome(old(dir.V()), dir.V(), Bytes(es[i].(nr := -1)), Pos(es, i), |Bytes(es[i])|, stop, mid,
                              old(dir.sb.Room()))
  {
    hide SuperBlock.Valid, WriteOutcome, IsLog, Encode, Good, Sound, Bare, Bytes;
    stop, mid := 0, dir.V();
    if name == DOT || name == DOTDOT {
      return -EINVAL, stop, mid;
    }
    ghost var v := dir.V();
    ghost var room := dir.sb.Room();
    GoodIsSound(v);
    LogEntries(v, es);
    var pOffset, d;
    ret, pOffset, d := FindToRemove(dir, name, inodes, es, logs);
    if ret < 0 {
      return;
    }
    ghost var i := Index(es, name);
    ghost var e := es[i].(nr := -1);
    var nr := ret;
    EntryFields(es[i], Bytes(es[i])[0..HEADER]);
    var outside;
    ret, outside, stop, mid := dir.WriteData(PutInts(Zeros(HEADER), 0, [d.len, Unsigned(-1)]) + d.buf, pOffset);
    ItemBytes(e);
    Overwritten(es, i, e);
    OverwriteSucceeds(v, dir.V(), Bytes(e), Pos(es, i), ret, stop, mid, room);
    EntryWritten(v, dir.V(), es, i, e, ret, stop, mid, room);
    if ret >= 0 {
      ret := nr;
    }
  }

  lemma ItemBytes(e: Dirent)
    requires EntryOk(e)
    ensures Bytes(e) == PutInts(Zeros(HEADER), 0, [ItemOf(e).len, Unsigned(e.nr)]) + ItemOf(e).buf
  {
  }

  /** The scan of testfs_remove_dirent: the entry of the name, if what it names may be removed. */
  method FindToRemove(dir: Inode, name: seq<byte>, inodes: seq<Inode>, ghost es: seq<Dirent>,
                      ghost logs: seq<seq<Dirent>>)
    returns (ret: int, pOffset: nat, item: Item)
    requires Sound(dir.sb.disk, dir.d) && IsLog(dir.V(), es) && IsName(name) && name != DOT && name != DOTDOT
    requires Refers(es, inodes, logs)
    ensures ret == RemovalResult(es, name, inodes, logs)
    ensures ret >= 0 ==>
              var i := Index(es, name);
              i < |es| && es[i].nr == ret && pOffset == Pos(es, i) && item == ItemOf(es[i])
  {
    hide IsLog, Encode, Sound, Bare;
    LogEntries(dir.V(), es);
    var inodeNr, offset := -1, 0;
    ghost var i := 0;
    ret, pOffset, item := -ENOENT, 0, Item(0, 0, []);
    while inodeNr == -1
      invariant i <= |es| && offset == Pos(es, i)
      invariant if inodeNr == -1 then ret == -ENOENT && forall j | 0 <= j < i :: !Live(es[j], name)
                else
                  && i > 0 && Index(es, name) == i - 1 && inodeNr == es[i - 1].nr >= 0
                  && ret == RemovalResult(es, name, inodes, logs)
                  && pOffset == Pos(es, i - 1) && item == ItemOf(es[i - 1])
      decreases |es| - i, inodeNr == -1
    {
      pOffset := offset;
      var d;
      d, offset := NextDirent(dir, offset, es, i);
      if d == None {
        break;
      }
      i := i + 1;
      NameOfEntry(es[i - 1], name);
      item := d.value;
      if item.nr < 0 || !NameIs(item.buf, name) {
        continue;
      }
      inodeNr := item.nr;
      FirstIs(es, name, i - 1);
      ret := RemoveDirentAllowed(inodes[inodeNr], logs[inodeNr]);
      if ret < 0 {
        continue;
      }
      ret := inodeNr;
    }
  }
}
