/** Little-endian integers inside byte blocks: the casts `(int *) block` and the struct copies of testfs. */
module Codec {
  import opened Layout

  type byte = x: int | 0 <= x < 256

  const ADDRS_PER_BLOCK := 2048
  const INT_LIMIT := 0x8000_0000

  function Zeros(n: nat): (s: seq<byte>)
    ensures |s| == n && forall i | 0 <= i < n :: s[i] == 0
  {
    seq(n, _ => 0)
  }

  type Block = b: seq<byte> | |b| == BLOCK_SIZE witness Zeros(BLOCK_SIZE)

  const ZERO_BLOCK: Block := Zeros(BLOCK_SIZE)

  function Pow256(n: nat): (r: nat)
    ensures r > 0
  {
    if n == 0 then 1 else 256 * Pow256(n - 1)
  }

  /** The unsigned number in the `n` bytes at `off`, least significant byte first. */
  function Get(b: seq<byte>, off: nat, n: nat): (r: nat)
    requires off + n <= |b|
    ensures r < Pow256(n)
    decreases n
  {
    if n == 0 then 0 else b[off] + 256 * Get(b, off + 1, n - 1)
  }

  /** Stores `v` in the `n` bytes at `off`. */
  function Put(b: seq<byte>, off: nat, n: nat, v: nat): (r: seq<byte>)
    requires off + n <= |b|
    ensures |r| == |b|
    ensures forall i | 0 <= i < |b| && !(off <= i < off + n) :: r[i] == b[i]
    decreases n
  {
    if n == 0 then b else Put(b[off := v % 256], off + 1, n - 1, v / 256)
  }

  lemma {:induction false} GetDependsOnBytes(b: seq<byte>, c: seq<byte>, off: nat, n: nat)
    requires off + n <= |b| && off + n <= |c|
    requires forall i | off <= i < off + n :: b[i] == c[i]
    ensures Get(b, off, n) == Get(c, off, n)
    decreases n
  {
    if n > 0 {
      GetDependsOnBytes(b, c, off + 1, n - 1);
    }
  }

  /** What was stored is what is read back. */
  lemma {:induction false} GetPut(b: seq<byte>, off: nat, n: nat, v: nat)
    requires off + n <= |b| && v < Pow256(n)
    ensures Get(Put(b, off, n, v), off, n) == v
    decreases n
  {
    if n > 0 {
      GetPut(b[off := v % 256], off + 1, n - 1, v / 256);
    }
  }

  /** Equal numbers come from equal bytes. */
  lemma {:induction false} GetInjective(b: seq<byte>, c: seq<byte>, off: nat, n: nat)
    requires off + n <= |b| && off + n <= |c|
    requires Get(b, off, n) == Get(c, off, n)
    ensures forall i | off <= i < off + n :: b[i] == c[i]
    decreases n
  {
    if n > 0 {
      GetInjective(b, c, off + 1, n - 1);
    }
  }

  // ---- records of 32-bit fields

  /** Stores the numbers `vs` as consecutive 32-bit fields starting at `off`. */
  function PutInts(b: seq<byte>, off: nat, vs: seq<nat>): (r: seq<byte>)
    requires off + 4 * |vs| <= |b|
    ensures |r| == |b|
    ensures forall i | 0 <= i < |b| && !(off <= i < off + 4 * |vs|) :: r[i] == b[i]
    decreases |vs|
  {
    if vs == [] then b else PutInts(Put(b, off, 4, vs[0]), off + 4, vs[1..])
  }

  function GetInts(b: seq<byte>, off: nat, n: nat): (r: seq<nat>)
    requires off + 4 * n <= |b|
    ensures |r| == n
    decreases n
  {
    if n == 0 then [] else [Get(b, off, 4)] + GetInts(b, off + 4, n - 1)
  }

  lemma {:induction false} GetPutInts(b: seq<byte>, off: nat, vs: seq<nat>)
    requires off + 4 * |vs| <= |b| && forall v | v in vs :: v < 2 * INT_LIMIT
    ensures GetInts(PutInts(b, off, vs), off, |vs|) == vs
    decreases |vs|
  {
    if vs != [] {
      assert Pow256(4) == 2 * INT_LIMIT && vs[0] in vs;
      assert forall v | v in vs[1..] :: v in vs;
      var c := Put(b, off, 4, vs[0]);
      GetPut(b, off, 4, vs[0]);
      GetDependsOnBytes(PutInts(c, off + 4, vs[1..]), c, off, 4);
      GetPutInts(c, off + 4, vs[1..]);
    }
  }

  lemma {:induction false} GetIntsDependsOnBytes(b: seq<byte>, c: seq<byte>, off: nat, n: nat)
    requires off + 4 * n <= |b| && off + 4 * n <= |c|
    requires forall i | off <= i < off + 4 * n :: b[i] == c[i]
    ensures GetInts(b, off, n) == GetInts(c, off, n)
    decreases n
  {
    if n > 0 {
      GetDependsOnBytes(b, c, off, 4);
      GetIntsDependsOnBytes(b, c, off + 4, n - 1);
    }
  }

  // ---- signed integers

  /** A 32-bit integer as an unsigned number, and back. */
  function Unsigned(i: int): nat
    requires -INT_LIMIT <= i < INT_LIMIT
  {
    if i < 0 then i + 2 * INT_LIMIT else i
  }

  function Signed(u: nat): int
  {
    if u < INT_LIMIT then u else u - 2 * INT_LIMIT
  }

  // ---- block addresses

  /** `((int *) block)[k]`, a signed 32-bit integer. */
  function Ptr(block: Block, k: nat): int
    requires k < ADDRS_PER_BLOCK
  {
    Signed(Get(block, 4 * k, 4))
  }

  /** `((int *) block)[k] = v` for a value that is not negative. */
  function SetPtr(block: Block, k: nat, v: nat): Block
    requires k < ADDRS_PER_BLOCK && v < INT_LIMIT
  {
    Put(block, 4 * k, 4, v)
  }

  lemma PtrZero(k: nat)
    requires k < ADDRS_PER_BLOCK
    ensures Ptr(ZERO_BLOCK, k) == 0
  {
    GetZeros(4 * k, 4);
  }

  lemma {:induction false} GetZeros(off: nat, n: nat)
    requires off + n <= BLOCK_SIZE
    ensures Get(ZERO_BLOCK, off, n) == 0
    decreases n
  {
    if n > 0 {
      GetZeros(off + 1, n - 1);
    }
  }

  /** A stored address is read back, and the other addresses of the block stay. */
  lemma PtrOfSetPtr(block: Block, k: nat, v: nat, j: nat)
    requires k < ADDRS_PER_BLOCK && j < ADDRS_PER_BLOCK && v < INT_LIMIT
    ensures Ptr(SetPtr(block, k, v), j) == if j == k then v else Ptr(block, j)
  {
    if j == k {
      assert Pow256(4) == 2 * INT_LIMIT;
      GetPut(block, 4 * k, 4, v);
    } else {
      GetDependsOnBytes(SetPtr(block, k, v), block, 4 * j, 4);
    }
  }

  lemma OtherPtrsStay(block: Block, k: nat, v: nat)
    requires k < ADDRS_PER_BLOCK && v < INT_LIMIT
    ensures forall j: nat | j < ADDRS_PER_BLOCK && j != k :: Ptr(SetPtr(block, k, v), j) == Ptr(block, j)
  {
    forall j: nat | j < ADDRS_PER_BLOCK && j != k {
      PtrOfSetPtr(block, k, v, j);
    }
  }

  /** Clearing an address that was stored over a null one restores the block, byte for byte. */
  lemma SetPtrUndone(block: Block, k: nat, v: nat)
    requires k < ADDRS_PER_BLOCK && v < INT_LIMIT && Ptr(block, k) == 0
    ensures SetPtr(SetPtr(block, k, v), k, 0) == block
  {
    var c := SetPtr(SetPtr(block, k, v), k, 0);
    PtrOfSetPtr(SetPtr(block, k, v), k, 0, k);
    GetInjective(c, block, 4 * k, 4);
    assert forall i | 0 <= i < BLOCK_SIZE :: c[i] == block[i];
  }

  // ---- copying part of a block, memcpy(block + off, data, |data|)

  function Splice(block: Block, off: nat, data: seq<byte>): Block
    requires off + |data| <= BLOCK_SIZE
  {
    block[..off] + data + block[off + |data|..]
  }
}
