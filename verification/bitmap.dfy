/** The general bitmap of `kernel/lib/ds/bitmap.cpp`: a view of words that the caller owns. */
module Bitmaps {
  import opened Word64
  import opened BitWords

  function WordCountForBits(bitCount: nat): nat {
    (bitCount + 63) / 64
  }

  /** The least set bit of a word, or 64. */
  method FirstSetBitOffset(word: u64) returns (offset: nat)
    ensures offset <= 64
    ensures offset < 64 ==> Bit(word, offset)
    ensures forall k: nat :: k < offset ==> !Bit(word, k)
  {
    offset := 0;
    while offset < 64
      invariant offset <= 64
      invariant forall k: nat :: k < offset ==> !Bit(word, k)
    {
      TestBit(word, offset);
      if And(word, Shl(1, offset)) != 0 {
        return;
      }
      offset := offset + 1;
    }
  }

  /** Bits at or above `validBits` of a masked tail word read as set, whatever they hold. */
  lemma TailMask(word: u64, validBits: nat, k: nat)
    requires 0 < validBits < 64 && k < 64
    ensures Shl(1, validBits) >= 1
    ensures Bit(Or64(word, Not(Shl(1, validBits) - 1)), k) == (Bit(word, k) || validBits <= k)
  {
    ShlPow2(0, validBits);
    var mask: u64 := Shl(1, validBits) - 1;
    OrBit(word, Not(mask), k);
    NotBit(mask, k);
    MaskBit(validBits, k);
  }

  /** A word other than all ones has a clear bit. */
  lemma NotAllOnes(word: u64)
    requires word != ALL_ONES
    ensures exists k: nat :: k < 64 && !Bit(word, k)
  {
    if forall k: nat :: k < 64 ==> Bit(word, k) {
      forall k: nat | k < 64
        ensures Bit(word, k) == Bit(ALL_ONES, k)
      {
        NotBit(0, k);
        ZeroBit(k);
      }
      Pow2Of64();
      SameBits(word, ALL_ONES, 64);
    }
  }

  /** The word that find_first_zero examines: bits at or past the bit count read as set. */
  ghost predicate Masked(words: seq<u64>, bitCount: nat, index: nat, word: u64)
    requires index < |words|
  {
    forall k: nat :: k < 64 ==> Bit(word, k) == (Bit(words[index], k) || bitCount <= 64 * index + k)
  }

  lemma MaskedBits(words: seq<u64>, bitCount: nat, index: nat, word: u64)
    requires index < WordCountForBits(bitCount) <= |words|
    requires if index == WordCountForBits(bitCount) - 1 && bitCount % 64 != 0
             then Shl(1, bitCount % 64) >= 1 && word == Or64(words[index], Not(Shl(1, bitCount % 64) - 1))
             else word == words[index]
    ensures Masked(words, bitCount, index, word)
  {
    hide Or64, Shl, Bit;
    forall k: nat | k < 64
      ensures Bit(word, k) == (Bit(words[index], k) || bitCount <= 64 * index + k)
    {
      if index == WordCountForBits(bitCount) - 1 && bitCount % 64 != 0 {
        TailMask(words[index], bitCount % 64, k);
      }
    }
  }

  lemma InvertedBits(word: u64)
    ensures forall k: nat :: k < 64 ==> Bit(Not(word), k) == !Bit(word, k)
  {
    forall k: nat | k < 64
      ensures Bit(Not(word), k) == !Bit(word, k)
    {
      NotBit(word, k);
    }
  }

  lemma ClearAt(words: seq<u64>, index: nat, k: nat)
    requires index < |words| && k < 64
    ensures 64 * index + k in ClearBits(words) <==> !Bit(words[index], k)
  {
    assert (64 * index + k) / 64 == index && (64 * index + k) % 64 == k;
  }

  lemma FoundFirst(words: seq<u64>, bitCount: nat, index: nat, word: u64, offset: nat)
    requires index < |words| && Masked(words, bitCount, index, word)
    requires offset < 64 && !Bit(word, offset) && 64 * index + offset < bitCount
    requires forall k: nat :: k < offset ==> Bit(word, k)
    requires forall i: nat :: i < 64 * index && i < bitCount ==> i !in ClearBits(words)
    ensures IsFirstClear(words, bitCount, 64 * index + offset)
  {
    hide Bit, ClearBits;
    ClearAt(words, index, offset);
    forall i: nat | i < 64 * index + offset
      ensures i !in ClearBits(words)
    {
      if 64 * index <= i {
        ClearAt(words, index, i - 64 * index);
      }
    }
  }

  lemma AllOnesSkipped(words: seq<u64>, bitCount: nat, index: nat, word: u64)
    requires index < |words| && Masked(words, bitCount, index, word) && word == ALL_ONES
    requires forall i: nat :: i < 64 * index && i < bitCount ==> i !in ClearBits(words)
    ensures forall i: nat :: i < 64 * index + 64 && i < bitCount ==> i !in ClearBits(words)
  {
    hide Bit, ClearBits;
    forall i: nat | i < 64 * index + 64 && i < bitCount
      ensures i !in ClearBits(words)
    {
      if 64 * index <= i {
        AllOnesBit(i - 64 * index);
        ClearAt(words, index, i - 64 * index);
      }
    }
  }

  lemma AllOnesBit(k: nat)
    requires k < 64
    ensures Bit(ALL_ONES, k)
  {
    NotBit(0, k);
    ZeroBit(k);
  }

  class Bitmap {
    const words: array<u64>
    const bitCount: nat

    ghost predicate Valid() {
      // find_first_zero returns an index as a ptrdiff_t
      bitCount <= 64 * words.Length && bitCount < 0x8000_0000_0000_0000
    }

    constructor (words: array<u64>, bitCount: nat)
      requires bitCount <= 64 * words.Length && bitCount < 0x8000_0000_0000_0000
      ensures Valid() && this.words == words && this.bitCount == bitCount
    {
      this.words, this.bitCount := words, bitCount;
    }

    /** Clears whole words, so the unused tail of the last word is cleared as well. */
    method ClearAll()
      requires Valid()
      modifies words
      ensures forall w :: 0 <= w < words.Length ==>
                words[w] == if w < WordCountForBits(bitCount) then 0 else old(words[w])
      ensures forall i: nat :: i < bitCount ==> i in ClearBits(words[..])
    {
      var i := 0;
      while i < WordCountForBits(bitCount)
        invariant i <= WordCountForBits(bitCount)
        invariant forall w :: 0 <= w < words.Length ==> words[w] == if w < i then 0 else old(words[w])
      {
        words[i] := 0;
        i := i + 1;
      }
      forall i: nat | i < bitCount
        ensures i in ClearBits(words[..])
      {
        ZeroBit(i % 64);
        assert words[..][i / 64] == 0;
      }
    }

    method Set(bit: nat)
      requires Valid()
      modifies words
      ensures ClearBits(words[..]) == old(ClearBits(words[..])) - (if bit < bitCount then {bit} else {})
    {
      if bit >= bitCount {
        return;
      }
      SetBitEffect(words[..], bit);
      words[bit / 64] := Or64(words[bit / 64], Shl(1, bit % 64));
      assert words[..] == SetBit(old(words[..]), bit);
    }

    method Clear(bit: nat)
      requires Valid()
      modifies words
      ensures ClearBits(words[..]) == old(ClearBits(words[..])) + (if bit < bitCount then {bit} else {})
    {
      if bit >= bitCount {
        return;
      }
      ClearBitEffect(words[..], bit);
      words[bit / 64] := And(words[bit / 64], Not(Shl(1, bit % 64)));
      assert words[..] == ClearBit(old(words[..]), bit);
    }

    method Test(bit: nat) returns (r: bool)
      requires Valid()
      ensures r <==> bit < bitCount && bit !in ClearBits(words[..])
    {
      if bit >= bitCount {
        return false;
      }
      TestBit(words[bit / 64], bit % 64);
      r := And(words[bit / 64], Shl(1, bit % 64)) != 0;
    }

    /** Word-at-a-time search.  The result does not depend on the unused tail bits, and neither of
        the two guards that skip a word after its masked value was not all ones ever fires. */
    method FindFirstZero() returns (r: int)
      requires Valid()
      ensures IsFirstClear(words[..], bitCount, r)
    {
      var wordCount := WordCountForBits(bitCount);
      var index := 0;
      while index < wordCount
        invariant index <= wordCount
        invariant forall i: nat :: i < 64 * index && i < bitCount ==> i !in ClearBits(words[..])
      {
        var word := words[index];
        if index == wordCount - 1 && bitCount % 64 != 0 {
          TailMask(word, bitCount % 64, 0);
          word := Or64(word, Not(Shl(1, bitCount % 64) - 1));
        }
        MaskedBits(words[..], bitCount, index, word);

        if word != ALL_ONES {
          NotAllOnes(word);
          InvertedBits(word);
          var offset := FirstSetBitOffset(Not(word));
          if offset == 64 {
            assert false;
          }
          var globalBit := index * 64 + offset;
          if globalBit < bitCount {
            FoundFirst(words[..], bitCount, index, word, offset);
            return globalBit;
          }
          assert false;
        }
        AllOnesSkipped(words[..], bitCount, index, word);
        index := index + 1;
      }
      r := -1;
    }
  }
}
