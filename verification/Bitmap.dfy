/** Bit arrays for storage management (fs/bitmap.c): one bit per inode or per block. */
module Bitmaps {
  import opened Layout

  /** The word with only bit `offset` set, as `((WORD_TYPE) 1) << offset`. */
  function Mask(offset: nat): bv8
    requires offset < BITS_PER_WORD
  {
    (1 as bv8) << (offset as bv4)
  }

  predicate Bit(v: seq<bv8>, i: nat)
    requires i < BITS_PER_WORD * |v|
  {
    v[i / BITS_PER_WORD] & Mask(i % BITS_PER_WORD) != 0
  }

  /** The indices below `nbits` whose bit is set. */
  ghost function BitSet(v: seq<bv8>, nbits: nat): set<nat>
    requires nbits <= BITS_PER_WORD * |v|
  {
    set i: nat | i < nbits && Bit(v, i)
  }

  // ---- word-level facts

  /** Index `i` is bit i % 8, counted from the least significant one, of word i / 8. */
  lemma BitPlace(v: seq<bv8>, i: nat)
    requires i < BITS_PER_WORD * |v|
    ensures var masks: seq<bv8> := [1, 2, 4, 8, 16, 32, 64, 128];
            Bit(v, i) <==> v[i / BITS_PER_WORD] & masks[i % BITS_PER_WORD] != 0
  {
    match i % BITS_PER_WORD
    case 0 => assert Mask(0) == 1;
    case 1 => assert Mask(1) == 2;
    case 2 => assert Mask(2) == 4;
    case 3 => assert Mask(3) == 8;
    case 4 => assert Mask(4) == 16;
    case 5 => assert Mask(5) == 32;
    case 6 => assert Mask(6) == 64;
    case _ => assert Mask(7) == 128;
  }

  lemma OrSetsOneBit(w: bv8, o: nat, p: nat)
    requires o < BITS_PER_WORD && p < BITS_PER_WORD
    ensures ((w | Mask(o)) & Mask(p) != 0) == (o == p || w & Mask(p) != 0)
  {
  }

  lemma AndNotClearsOneBit(w: bv8, o: nat, p: nat)
    requires o < BITS_PER_WORD && p < BITS_PER_WORD
    ensures ((w & !Mask(o)) & Mask(p) != 0) == (o != p && w & Mask(p) != 0)
  {
  }

  /** The word the scan skips, WORD_ALLBITS, is exactly the word with no clear bit. */
  lemma AllBitsWord(w: bv8)
    ensures w == WORD_ALLBITS <==> forall o: nat | o < BITS_PER_WORD :: w & Mask(o) != 0
  {
    if forall o: nat | o < BITS_PER_WORD :: w & Mask(o) != 0 {
      assert w & Mask(0) != 0 && w & Mask(1) != 0 && w & Mask(2) != 0 && w & Mask(3) != 0;
      assert w & Mask(4) != 0 && w & Mask(5) != 0 && w & Mask(6) != 0 && w & Mask(7) != 0;
    }
  }

  /** The array after or-ing in the mask of bit `k`, and after and-ing its complement. */
  function WithBit(v: seq<bv8>, k: nat): (r: seq<bv8>)
    requires k < BITS_PER_WORD * |v|
    ensures |r| == |v|
  {
    v[k / BITS_PER_WORD := v[k / BITS_PER_WORD] | Mask(k % BITS_PER_WORD)]
  }

  function WithoutBit(v: seq<bv8>, k: nat): (r: seq<bv8>)
    requires k < BITS_PER_WORD * |v|
    ensures |r| == |v|
  {
    v[k / BITS_PER_WORD := v[k / BITS_PER_WORD] & !Mask(k % BITS_PER_WORD)]
  }

  lemma SetBit(v: seq<bv8>, k: nat)
    requires k < BITS_PER_WORD * |v|
    ensures forall i: nat | i < BITS_PER_WORD * |v| :: Bit(WithBit(v, k), i) == (i == k || Bit(v, i))
  {
    forall i: nat | i < BITS_PER_WORD * |v| ensures Bit(WithBit(v, k), i) == (i == k || Bit(v, i)) {
      if i / BITS_PER_WORD == k / BITS_PER_WORD {
        OrSetsOneBit(v[k / BITS_PER_WORD], k % BITS_PER_WORD, i % BITS_PER_WORD);
      }
    }
  }

  lemma ClearBit(v: seq<bv8>, k: nat)
    requires k < BITS_PER_WORD * |v|
    ensures forall i: nat | i < BITS_PER_WORD * |v| :: Bit(WithoutBit(v, k), i) == (i != k && Bit(v, i))
  {
    forall i: nat | i < BITS_PER_WORD * |v| ensures Bit(WithoutBit(v, k), i) == (i != k && Bit(v, i)) {
      if i / BITS_PER_WORD == k / BITS_PER_WORD {
        AndNotClearsOneBit(v[k / BITS_PER_WORD], k % BITS_PER_WORD, i % BITS_PER_WORD);
      }
    }
  }

  // ---- cardinality

  ghost function UpTo(n: nat): (s: set<nat>)
    ensures |s| == n
    ensures forall i: nat :: i in s <==> i < n
  {
    if n == 0 then {} else UpTo(n - 1) + {n - 1}
  }

  lemma SubsetSize(a: set<nat>, b: set<nat>)
    requires a <= b
    ensures |a| <= |b|
    ensures |a| == |b| ==> a == b
  {
    assert b == a + (b - a);
  }

  /** Every index is in use exactly when as many bits are set as there are indices. */
  lemma FullIffCount(v: seq<bv8>, nbits: nat)
    requires nbits <= BITS_PER_WORD * |v|
    ensures |BitSet(v, nbits)| <= nbits
    ensures |BitSet(v, nbits)| == nbits <==> forall i: nat | i < nbits :: Bit(v, i)
  {
    SubsetSize(BitSet(v, nbits), UpTo(nbits));
    if |BitSet(v, nbits)| == nbits {
      forall i: nat | i < nbits ensures Bit(v, i) { assert i in UpTo(nbits); }
    }
    if forall i: nat | i < nbits :: Bit(v, i) {
      assert BitSet(v, nbits) == UpTo(nbits);
    }
  }

  lemma BitSetGrows(v: seq<bv8>, i: nat)
    requires i < BITS_PER_WORD * |v|
    ensures |BitSet(v, i + 1)| == |BitSet(v, i)| + if Bit(v, i) then 1 else 0
  {
    assert BitSet(v, i + 1) == BitSet(v, i) + if Bit(v, i) then {i} else {};
  }

  // ---- the array invariant

  ghost predicate Padded(v: seq<bv8>, nbits: nat)
  {
    forall i: nat | nbits <= i < BITS_PER_WORD * |v| :: Bit(v, i)
  }

  /** Between `nbits` and `upto` everything is in use, below `nbits` nothing. */
  ghost predicate OnlyPadding(v: seq<bv8>, nbits: nat, upto: nat)
    requires nbits <= BITS_PER_WORD * |v| && upto <= BITS_PER_WORD * |v|
  {
    && (forall i: nat | i < nbits :: !Bit(v, i))
    && (forall i: nat | nbits <= i < upto :: Bit(v, i))
  }

  lemma PadOne(v: seq<bv8>, nbits: nat, ix: nat, j: nat)
    requires ix < |v| && j < BITS_PER_WORD && nbits <= ix * BITS_PER_WORD + j
    requires OnlyPadding(v, nbits, ix * BITS_PER_WORD + j)
    ensures OnlyPadding(v[ix := v[ix] | Mask(j)], nbits, ix * BITS_PER_WORD + j + 1)
  {
    var k := ix * BITS_PER_WORD + j;
    assert k / BITS_PER_WORD == ix && k % BITS_PER_WORD == j;
    SetBit(v, k);
    assert v[ix := v[ix] | Mask(j)] == WithBit(v, k);
    assert Bit(WithBit(v, k), k);
  }

  lemma ZeroWords(v: seq<bv8>)
    requires forall w | 0 <= w < |v| :: v[w] == 0
    ensures forall i: nat | i < BITS_PER_WORD * |v| :: !Bit(v, i)
  {
  }

  lemma TakeBit(v: seq<bv8>, nbits: nat, k: nat)
    requires k < nbits <= BITS_PER_WORD * |v| && Padded(v, nbits)
    ensures Padded(WithBit(v, k), nbits) && BitSet(WithBit(v, k), nbits) == BitSet(v, nbits) + {k}
  {
    SetBit(v, k);
  }

  lemma DropBit(v: seq<bv8>, nbits: nat, k: nat)
    requires k < nbits <= BITS_PER_WORD * |v| && Padded(v, nbits)
    ensures Padded(WithoutBit(v, k), nbits) && BitSet(WithoutBit(v, k), nbits) == BitSet(v, nbits) - {k}
  {
    ClearBit(v, k);
  }

  // ---- the word-skipping scan

  /** Every bit of the words before `ix` is set. */
  ghost predicate FullBelow(v: seq<bv8>, ix: nat)
    requires ix <= |v|
  {
    forall i: nat | i < ix * BITS_PER_WORD :: Bit(v, i)
  }

  lemma FullWord(v: seq<bv8>, ix: nat)
    requires ix < |v| && FullBelow(v, ix) && v[ix] == WORD_ALLBITS
    ensures FullBelow(v, ix + 1)
  {
    AllBitsWord(v[ix]);
  }

  /** The clear bit the scan stops at is the least free index; the rest is as for any taken bit. */
  lemma FirstFree(v: seq<bv8>, nbits: nat, ix: nat, offset: nat)
    requires ix < |v| && FullBelow(v, ix) && offset < BITS_PER_WORD
    requires nbits <= BITS_PER_WORD * |v| && Padded(v, nbits)
    requires v[ix] & Mask(offset) == 0
    requires forall o: nat | o < offset :: v[ix] & Mask(o) != 0
    ensures var k := ix * BITS_PER_WORD + offset;
            && LeastFree(BitSet(v, nbits), nbits, k)
            && WithBit(v, k) == v[ix := v[ix] | Mask(offset)]
            && |BitSet(v, nbits)| < nbits
  {
    hide Bit, Mask, WithBit;
    var first, k := ix * BITS_PER_WORD, ix * BITS_PER_WORD + offset;
    BitAt(v, ix, offset);
    forall i: nat | i < k ensures Bit(v, i) {
      if i >= first { BitAt(v, ix, i - first); }
    }
    FullIffCount(v, nbits);
  }

  /** The bit at an offset of a word. */
  lemma BitAt(v: seq<bv8>, ix: nat, o: nat)
    requires ix < |v| && o < BITS_PER_WORD
    ensures Bit(v, ix * BITS_PER_WORD + o) <==> v[ix] & Mask(o) != 0
    ensures WithBit(v, ix * BITS_PER_WORD + o) == v[ix := v[ix] | Mask(o)]
  {
    hide Mask;
    Position(ix, o);
  }

  lemma Position(ix: nat, o: nat)
    requires o < BITS_PER_WORD
    ensures (ix * BITS_PER_WORD + o) / BITS_PER_WORD == ix && (ix * BITS_PER_WORD + o) % BITS_PER_WORD == o
  {
  }

  ghost predicate LeastFree(bits: set<nat>, nbits: nat, k: int)
  {
    0 <= k < nbits && k !in bits && forall i: nat | i < k :: i in bits
  }

  lemma ScanFailed(v: seq<bv8>, nbits: nat)
    requires FullBelow(v, |v|) && nbits <= BITS_PER_WORD * |v|
    ensures |BitSet(v, nbits)| == nbits
  {
    FullIffCount(v, nbits);
  }

  /** The inner scan of bitmap_alloc over the offsets of one word that is not full. */
  method FirstClear(w: bv8) returns (offset: nat)
    requires w != WORD_ALLBITS
    ensures offset < BITS_PER_WORD && w & Mask(offset) == 0
    ensures forall o: nat | o < offset :: w & Mask(o) != 0
  {
    AllBitsWord(w);
    offset := 0;
    while w & Mask(offset) != 0
      invariant offset < BITS_PER_WORD
      invariant forall o: nat | o < offset :: w & Mask(o) != 0
      decreases BITS_PER_WORD - offset
    {
      offset := offset + 1;
    }
  }

  class Bitmap {
    const nbits: nat
    const v: array<bv8>
    ghost var bits: set<nat>  // the indices in use

    /** The word array covers the indices, and the bits left over in the last word are in use. */
    ghost predicate Valid()
      reads this, v
    {
      && v.Length == DivRoundUp(nbits, BITS_PER_WORD)
      && Padded(v[..], nbits)
      && bits == BitSet(v[..], nbits)
    }

    constructor (nbits: nat)
      ensures this.nbits == nbits && fresh(v)
      ensures Valid() && bits == {}
      ensures nbits % BITS_PER_WORD == 0 ==> forall w | 0 <= w < v.Length :: v[w] == 0
    {
      var words := DivRoundUp(nbits, BITS_PER_WORD);
      this.nbits := nbits;
      v := new bv8[words](_ => 0);
      bits := {};
      new;
      ZeroWords(v[..]);
      if nbits / BITS_PER_WORD < words {
        var ix := words - 1;
        var overbits := nbits - ix * BITS_PER_WORD;
        for j := overbits to BITS_PER_WORD
          invariant bits == {} && OnlyPadding(v[..], nbits, ix * BITS_PER_WORD + j)
        {
          PadOne(v[..], nbits, ix, j);
          ghost var padded := v[..][ix := v[ix] | Mask(j)];
          v[ix] := v[ix] | Mask(j);
          assert v[..] == padded;
        }
      }
      assert BitSet(v[..], nbits) == {};
    }

    /** The scan of bitmap_alloc: skip the full words, then take the first clear bit of a word. */
    method FindFree() returns (ret: int, index: nat)
      requires Valid()
      ensures ret == if |bits| < nbits then 0 else -ENOSPC
      ensures ret == 0 ==> LeastFree(bits, nbits, index)
    {
      for ix := 0 to v.Length
        invariant FullBelow(v[..], ix)
      {
        if v[ix] != WORD_ALLBITS {
          var offset := FirstClear(v[ix]);
          FirstFree(v[..], nbits, ix, offset);
          return 0, ix * BITS_PER_WORD + offset;
        }
        FullWord(v[..], ix);
      }
      ScanFailed(v[..], nbits);
      return -ENOSPC, 0;
    }

    /** Takes the least free index; fails, changing nothing, exactly when every bit is set. */
    method Alloc() returns (ret: int, index: nat)
      requires Valid()
      modifies this`bits, v
      ensures Valid()
      ensures ret == if |old(bits)| < nbits then 0 else -ENOSPC
      ensures ret == 0 ==> LeastFree(old(bits), nbits, index) && bits == old(bits) + {index}
      ensures ret == 0 ==> v[..] == WithBit(old(v[..]), index)
      ensures ret != 0 ==> v[..] == old(v[..])
    {
      ret, index := FindFree();
      if ret == 0 {
        var ix := index / BITS_PER_WORD;
        v[ix] := v[ix] | Mask(index % BITS_PER_WORD);
        assert v[..] == WithBit(old(v[..]), index);
        TakeBit(old(v[..]), nbits, index);
        bits := bits + {index};
      }
    }

    /** Fills the words from a freemap read from the device. */
    method Load(words: seq<bv8>)
      requires |words| == v.Length && v.Length == DivRoundUp(nbits, BITS_PER_WORD) && Padded(words, nbits)
      modifies this`bits, v
      ensures Valid() && v[..] == words
    {
      for i := 0 to v.Length
        invariant forall k | 0 <= k < i :: v[k] == words[k]
      {
        v[i] := words[i];
      }
      assert v[..] == words;
      bits := BitSet(words, nbits);
    }

    method Mark(index: nat)
      requires Valid() && index < nbits && index !in bits
      modifies this`bits, v
      ensures Valid() && bits == old(bits) + {index}
    {
      var ix := index / BITS_PER_WORD;
      v[ix] := v[ix] | Mask(index % BITS_PER_WORD);
      assert v[..] == WithBit(old(v[..]), index);
      TakeBit(old(v[..]), nbits, index);
      bits := bits + {index};
    }

    method Unmark(index: nat)
      requires Valid() && index < nbits && index in bits
      modifies this`bits, v
      ensures Valid() && bits == old(bits) - {index}
      ensures v[..] == WithoutBit(old(v[..]), index)
    {
      var ix := index / BITS_PER_WORD;
      v[ix] := v[ix] & !Mask(index % BITS_PER_WORD);
      assert v[..] == WithoutBit(old(v[..]), index);
      DropBit(old(v[..]), nbits, index);
      bits := bits - {index};
    }

    /** The number of set bits is the cardinality of the set they denote. */
    method NrAllocated() returns (nr: nat)
      requires Valid()
      ensures nr == |bits|
    {
      nr := 0;
      assert BitSet(v[..], 0) == {};
      for i := 0 to nbits
        invariant nr == |BitSet(v[..], i)|
      {
        BitSetGrows(v[..], i);
        if v[i / BITS_PER_WORD] & Mask(i % BITS_PER_WORD) != 0 {
          nr := nr + 1;
        }
      }
    }
  }
}
