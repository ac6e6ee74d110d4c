/** The table of inodes on the device: 128 inodes of 64 bytes to a block (fs/inode.h, fs/inode.c). */
module InodeTables {
  import opened Layout
  import opened Codec
  import opened Supers
  import opened BlockMap

  const DINODE_SIZE := 64

  predicate AllS32(vs: seq<int>)
  {
    forall i | 0 <= i < |vs| :: -INT_LIMIT <= vs[i] < INT_LIMIT
  }

  /** The fields fit into struct dinode. */
  ghost predicate Fits(d: Dinode)
  {
    |d.direct| == NR_DIRECT_BLOCKS && AllS32(Ints(d)) && 0 <= d.size < Pow256(8)
  }

  /** The 32-bit fields in their order. */
  function Ints(d: Dinode): (vs: seq<int>)
    requires |d.direct| == NR_DIRECT_BLOCKS
    ensures |vs| == 14
  {
    [d.kind] + d.direct + [d.indirect, d.dindirect, d.blockCount]
  }

  function Unsigneds(vs: seq<int>): (us: seq<nat>)
    requires AllS32(vs)
    ensures |us| == |vs| && forall i | 0 <= i < |vs| :: us[i] == Unsigned(vs[i])
  {
    seq(|vs|, i requires 0 <= i < |vs| => Unsigned(vs[i]))
  }

  function Encode(d: Dinode): (b: seq<byte>)
    requires Fits(d)
    ensures |b| == DINODE_SIZE
  {
    Put(PutInts(Zeros(DINODE_SIZE), 0, Unsigneds(Ints(d))), 56, 8, d.size)
  }

  function Decode(b: seq<byte>): Dinode
    requires |b| == DINODE_SIZE
  {
    var f := GetInts(b, 0, 14);
    Dinode(Signed(f[0]), seq(NR_DIRECT_BLOCKS, i requires 0 <= i < NR_DIRECT_BLOCKS => Signed(f[1 + i])),
           Signed(f[11]), Signed(f[12]), Signed(f[13]), Get(b, 56, 8))
  }

  /** What is copied into the table is what is copied out of it. */
  lemma RoundTrip(d: Dinode)
    requires Fits(d)
    ensures Decode(Encode(d)) == d
  {
    hide GetInts, PutInts, Get, Put;
    var vs := Ints(d);
    var us := Unsigneds(vs);
    var b := PutInts(Zeros(DINODE_SIZE), 0, us);
    forall u | u in us ensures u < 2 * INT_LIMIT {
      var i :| 0 <= i < |us| && us[i] == u;
    }
    GetPutInts(Zeros(DINODE_SIZE), 0, us);
    GetPut(b, 56, 8, d.size);
    GetIntsDependsOnBytes(Encode(d), b, 0, 14);
    FieldsOf(d, Decode(Encode(d)), us);
  }

  lemma FieldsOf(d: Dinode, e: Dinode, us: seq<nat>)
    requires Fits(d) && us == Unsigneds(Ints(d)) && |e.direct| == NR_DIRECT_BLOCKS && e.size == d.size
    requires e.kind == Signed(us[0]) && e.indirect == Signed(us[11]) && e.dindirect == Signed(us[12])
    requires e.blockCount == Signed(us[13]) && forall i | 0 <= i < NR_DIRECT_BLOCKS :: e.direct[i] == Signed(us[1 + i])
    ensures e == d
  {
    hide Signed, Unsigned;
    var vs := Ints(d);
    forall i | 0 <= i < 14 ensures Signed(us[i]) == vs[i] {
      SignedOfUnsigned(vs[i]);
    }
    assert forall i | 0 <= i < NR_DIRECT_BLOCKS :: e.direct[i] == vs[1 + i];
    assert e.direct == d.direct;
  }

  lemma SignedOfUnsigned(i: int)
    requires -INT_LIMIT <= i < INT_LIMIT
    ensures Signed(Unsigned(i)) == i
  {
  }

  lemma DecodeFits(b: seq<byte>)
    requires |b| == DINODE_SIZE
    ensures Fits(Decode(b))
  {
    hide Get, GetInts;
    InRange(b, 0, 14);
    assert Ints(Decode(b)) == Signeds(GetInts(b, 0, 14));
  }

  function Signeds(us: seq<nat>): seq<int>
  {
    seq(|us|, i requires 0 <= i < |us| => Signed(us[i]))
  }

  lemma {:induction false} InRange(b: seq<byte>, off: nat, n: nat)
    requires off + 4 * n <= |b|
    ensures forall i | 0 <= i < n :: GetInts(b, off, n)[i] < 2 * INT_LIMIT
    decreases n
  {
    assert Pow256(4) == 2 * INT_LIMIT;
    if n > 0 {
      InRange(b, off + 4, n - 1);
    }
  }

  // ---- slots

  function BlockOf(nr: nat): nat
  {
    nr / INODES_PER_BLOCK
  }

  function OffsetOf(nr: nat): (off: nat)
    ensures off + DINODE_SIZE <= BLOCK_SIZE
  {
    nr % INODES_PER_BLOCK * DINODE_SIZE
  }

  /** The bytes of inode `nr` on the device. */
  ghost function Slot(disk: Disk, nr: nat): (b: seq<byte>)
    requires nr < NR_INODES
    ensures |b| == DINODE_SIZE
  {
    disk[INODE_BLOCKS_START + BlockOf(nr)][OffsetOf(nr)..OffsetOf(nr) + DINODE_SIZE]
  }

  /** Slot `nr` lies at byte 64 * nr of the table, inside one block, and the table has no other slots. */
  lemma SlotPlace(nr: nat)
    ensures BlockOf(nr) * BLOCK_SIZE + OffsetOf(nr) == DINODE_SIZE * nr && OffsetOf(nr) < BLOCK_SIZE
    ensures nr < NR_INODES <==> BlockOf(nr) < NR_INODE_BLOCKS
  {
    assert BLOCK_SIZE == INODES_PER_BLOCK * DINODE_SIZE;
  }

  lemma SlotIs(disk: Disk, nr: nat)
    requires nr < NR_INODES
    ensures Slot(disk, nr) == disk[INODE_BLOCKS_START + BlockOf(nr)][OffsetOf(nr)..OffsetOf(nr) + DINODE_SIZE]
  {
  }

  ghost predicate SameTable(d: Disk, e: Disk)
  {
    forall b | INODE_BLOCKS_START <= b < DATA_START :: d[b] == e[b]
  }

  lemma SameSlots(d: Disk, e: Disk)
    requires SameTable(d, e)
    ensures forall nr: nat | nr < NR_INODES :: Slot(d, nr) == Slot(e, nr)
  {
  }

  /** Copying one inode into its slot changes no other slot. */
  lemma SlotWritten(disk: Disk, nr: nat, data: seq<byte>)
    requires nr < NR_INODES && |data| == DINODE_SIZE
    ensures var b := INODE_BLOCKS_START + BlockOf(nr);
            var e: Disk := disk[b := Splice(disk[b], OffsetOf(nr), data)];
            forall m: nat | m < NR_INODES :: Slot(e, m) == if m == nr then data else Slot(disk, m)
  {
    var b := INODE_BLOCKS_START + BlockOf(nr);
    var block := Splice(disk[b], OffsetOf(nr), data);
    var e: Disk := disk[b := block];
    forall m: nat | m < NR_INODES ensures Slot(e, m) == if m == nr then data else Slot(disk, m) {
      if m == nr {
        assert block[OffsetOf(nr)..OffsetOf(nr) + DINODE_SIZE] == data;
      } else if BlockOf(m) == BlockOf(nr) {
        OtherOffset(nr, m);
        assert block[OffsetOf(m)..OffsetOf(m) + DINODE_SIZE] == disk[b][OffsetOf(m)..OffsetOf(m) + DINODE_SIZE];
      }
    }
  }

  lemma OtherOffset(nr: nat, m: nat)
    requires BlockOf(nr) == BlockOf(m) && nr != m
    ensures OffsetOf(m) + DINODE_SIZE <= OffsetOf(nr) || OffsetOf(nr) + DINODE_SIZE <= OffsetOf(m)
  {
  }

  lemma GetZero(off: nat, n: nat)
    requires off + n <= DINODE_SIZE
    ensures Get(Zeros(DINODE_SIZE), off, n) == 0
  {
    GetDependsOnBytes(Zeros(DINODE_SIZE), ZERO_BLOCK, off, n);
    GetZeros(off, n);
  }

  lemma {:induction false} GetIntsZero(off: nat, n: nat)
    requires off + 4 * n <= DINODE_SIZE
    ensures forall i | 0 <= i < n :: GetInts(Zeros(DINODE_SIZE), off, n)[i] == 0
    decreases n
  {
    if n > 0 {
      GetZero(off, 4);
      GetIntsZero(off + 4, n - 1);
    }
  }

  /** A zeroed slot is a free inode. */
  lemma ZeroSlot()
    ensures Decode(Zeros(DINODE_SIZE)) == ZERO_DINODE && Fits(ZERO_DINODE)
  {
    hide GetInts, Get;
    GetIntsZero(0, 14);
    GetZero(56, 8);
    assert Decode(Zeros(DINODE_SIZE)).direct == ZERO_DINODE.direct;
  }

  lemma ZeroTable(disk: Disk)
    ensures (forall b | INODE_BLOCKS_START <= b < DATA_START :: disk[b] == ZERO_BLOCK) ==>
              forall nr: nat | nr < NR_INODES :: Decode(Slot(disk, nr)) == ZERO_DINODE
  {
    hide Decode;
    ZeroSlot();
    if forall b | INODE_BLOCKS_START <= b < DATA_START :: disk[b] == ZERO_BLOCK {
      forall nr: nat | nr < NR_INODES ensures Slot(disk, nr) == Zeros(DINODE_SIZE) {}
    }
  }
}
