/** Bit i of an array of 64-bit words, as both the page allocator and the general bitmap number it:
    bit `i % 64` of word `i / 64`. */
module BitWords {
  import opened Word64

  predicate IsSet(words: seq<u64>, i: nat)
    requires i < 64 * |words|
  {
    Bit(words[i / 64], i % 64)
  }

  /** The positions of all clear bits: the abstract value of the words. */
  function ClearBits(words: seq<u64>): set<nat> {
    set i: nat | i < 64 * |words| && !IsSet(words, i)
  }

  function SetBit(words: seq<u64>, i: nat): (r: seq<u64>)
    requires i < 64 * |words|
    ensures |r| == |words|
  {
    words[i / 64 := Or64(words[i / 64], Shl(1, i % 64))]
  }

  function ClearBit(words: seq<u64>, i: nat): (r: seq<u64>)
    requires i < 64 * |words|
    ensures |r| == |words|
  {
    words[i / 64 := And(words[i / 64], Not(Shl(1, i % 64)))]
  }

  lemma SetBitAt(words: seq<u64>, i: nat, j: nat)
    requires i < 64 * |words| && j < 64 * |words|
    ensures IsSet(SetBit(words, i), j) == (j == i || IsSet(words, j))
  {
    if j / 64 == i / 64 {
      OrBit(words[i / 64], Shl(1, i % 64), j % 64);
      OneBit(i % 64, j % 64);
    }
  }

  lemma ClearBitAt(words: seq<u64>, i: nat, j: nat)
    requires i < 64 * |words| && j < 64 * |words|
    ensures IsSet(ClearBit(words, i), j) == (j != i && IsSet(words, j))
  {
    if j / 64 == i / 64 {
      AndBit(words[i / 64], Not(Shl(1, i % 64)), j % 64);
      NotBit(Shl(1, i % 64), j % 64);
      OneBit(i % 64, j % 64);
    }
  }

  /** Setting a bit removes its position from the clear ones and touches no other bit. */
  lemma SetBitEffect(words: seq<u64>, i: nat)
    requires i < 64 * |words|
    ensures ClearBits(SetBit(words, i)) == ClearBits(words) - {i}
  {
    forall j: nat | j < 64 * |words|
      ensures j in ClearBits(SetBit(words, i)) <==> j in ClearBits(words) - {i}
    {
      SetBitAt(words, i, j);
    }
  }

  /** Clearing a bit adds its position to the clear ones and touches no other bit. */
  lemma ClearBitEffect(words: seq<u64>, i: nat)
    requires i < 64 * |words|
    ensures ClearBits(ClearBit(words, i)) == ClearBits(words) + {i}
  {
    forall j: nat | j < 64 * |words|
      ensures j in ClearBits(ClearBit(words, i)) <==> j in ClearBits(words) + {i}
    {
      ClearBitAt(words, i, j);
    }
  }

  lemma OnesHaveNoClearBit(words: seq<u64>)
    requires forall w :: 0 <= w < |words| ==> words[w] == ALL_ONES
    ensures ClearBits(words) == {}
  {
    forall i: nat | i < 64 * |words|
      ensures IsSet(words, i)
    {
      NotBit(0, i % 64);
      ZeroBit(i % 64);
    }
  }

  /** r is the least clear position below n, or -1 when every position below n is set. */
  ghost predicate IsFirstClear(words: seq<u64>, n: nat, r: int) {
    if r == -1 then
      forall i: nat :: i < n ==> i !in ClearBits(words)
    else
      && 0 <= r < n
      && r in ClearBits(words)
      && forall i: nat :: i < r ==> i !in ClearBits(words)
  }
}
