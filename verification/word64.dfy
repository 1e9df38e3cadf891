/** Unsigned 64-bit words, as the kernel's `uint64_t` and `uintptr_t` use them.

    Addresses are added, compared and divided far more often than they are masked, so a word is
    the number it stands for.  The bitwise operators are defined from the bottom bit up, and the
    lemmas `AndBit`, `OrBit`, `NotBit`, `ShlBit` and `ShrBit` say that they are the bitwise operators:
    each fixes every bit of the result, and `SameBits` says that the bits fix the word. */
module Word64 {

  const WORD_LIMIT: int := 0x1_0000_0000_0000_0000

  type u64 = x: int | 0 <= x < WORD_LIMIT

  const ALL_ONES: u64 := 0xffff_ffff_ffff_ffff

  /** The unsigned result of an addition that may carry out of bit 63. */
  function Wrap(x: nat): (r: u64)
    ensures x < WORD_LIMIT ==> r == x
    ensures WORD_LIMIT <= x < 2 * WORD_LIMIT ==> r == x - WORD_LIMIT
  {
    x % WORD_LIMIT
  }

  function Pow2(k: nat): (r: nat)
    ensures 0 < r
  {
    if k == 0 then 1 else 2 * Pow2(k - 1)
  }

  predicate Odd(x: nat) {
    x % 2 == 1
  }

  function Digit(b: bool): nat {
    if b then 1 else 0
  }

  predicate Bit(x: nat, k: nat) {
    if k == 0 then Odd(x) else Bit(x / 2, k - 1)
  }

  function And(x: nat, y: nat): (r: nat)
    ensures r <= x && r <= y
  {
    if x == 0 || y == 0 then 0 else 2 * And(x / 2, y / 2) + Digit(Odd(x) && Odd(y))
  }

  function Or(x: nat, y: nat): nat
    decreases x + y
  {
    if x == 0 then y
    else if y == 0 then x
    else 2 * Or(x / 2, y / 2) + Digit(Odd(x) || Odd(y))
  }

  /** C's `~` on a 64-bit operand. */
  function Not(x: u64): u64 {
    ALL_ONES - x
  }

  /** C's `<<` on a 64-bit operand: bits shifted past bit 63 are lost. */
  function Shl(x: u64, k: nat): u64
    decreases k
  {
    if k == 0 then x else Shl(Wrap(2 * x), k - 1)
  }

  /** C's `>>` on an unsigned operand. */
  function Shr(x: u64, k: nat): (r: u64)
    ensures r <= x
  {
    if k == 0 then x else Shr(x / 2, k - 1)
  }

  /** The number that the n low bits of x stand for. */
  function Low(x: nat, n: nat): (r: nat)
    ensures r <= x
  {
    if n == 0 then 0 else 2 * Low(x / 2, n - 1) + Digit(Odd(x))
  }

  // ---- powers of two

  lemma {:induction false} Pow2Add(a: nat, b: nat)
    ensures Pow2(a + b) == Pow2(a) * Pow2(b)
  {
    if a != 0 {
      Pow2Add(a - 1, b);
      assert a - 1 + b == a + b - 1;
      assert 2 * (Pow2(a - 1) * Pow2(b)) == (2 * Pow2(a - 1)) * Pow2(b);
    }
  }

  lemma {:induction false} Pow2Grows(a: nat, b: nat)
    requires a < b
    ensures Pow2(a) < Pow2(b)
  {
    if a < b - 1 {
      Pow2Grows(a, b - 1);
    }
  }

  lemma Pow2Of64()
    ensures Pow2(64) == WORD_LIMIT
  {
    hide Pow2;
    Pow2Of8();
    Pow2Add(8, 8);
    Pow2Add(16, 16);
    Pow2Add(32, 32);
  }

  lemma Pow2Of8()
    ensures Pow2(8) == 0x100
  {}

  // ---- the operators, bit by bit

  lemma {:induction false} ZeroBit(k: nat)
    ensures !Bit(0, k)
  {
    if k != 0 {
      ZeroBit(k - 1);
    }
  }

  lemma {:induction false} AndBit(x: nat, y: nat, k: nat)
    ensures Bit(And(x, y), k) == (Bit(x, k) && Bit(y, k))
  {
    if x == 0 || y == 0 {
      ZeroBit(k);
    } else if k != 0 {
      AndBit(x / 2, y / 2, k - 1);
      assert And(x, y) / 2 == And(x / 2, y / 2);
    }
  }

  lemma {:induction false} OrBit(x: nat, y: nat, k: nat)
    ensures Bit(Or(x, y), k) == (Bit(x, k) || Bit(y, k))
  {
    hide Or;
    if x == 0 || y == 0 {
      OrZero(x + y);
      ZeroBit(k);
    } else {
      OrStep(x, y);
      if k != 0 {
        OrBit(x / 2, y / 2, k - 1);
      }
    }
  }

  lemma OrZero(x: nat)
    ensures Or(0, x) == x && Or(x, 0) == x
  {}

  lemma {:induction false} ComplementBit(n: nat, x: nat, k: nat)
    requires k < n && x < Pow2(n)
    ensures Bit(Pow2(n) - 1 - x, k) == !Bit(x, k)
  {
    var c := Pow2(n) - 1 - x;
    if k != 0 {
      ComplementBit(n - 1, x / 2, k - 1);
      assert c / 2 == Pow2(n - 1) - 1 - x / 2;
    }
  }

  lemma NotBit(x: u64, k: nat)
    requires k < 64
    ensures Bit(Not(x), k) == !Bit(x, k)
  {
    Pow2Of64();
    ComplementBit(64, x, k);
  }

  lemma {:induction false} ShrBit(x: u64, s: nat, k: nat)
    ensures Bit(Shr(x, s), k) == Bit(x, k + s)
  {
    if s != 0 {
      ShrBit(x / 2, s - 1, k);
    }
  }

  /** Removing the top bit of an (n+1)-bit number keeps the bits below it. */
  lemma {:induction false} DropTopBit(x: nat, n: nat, k: nat)
    requires Pow2(n) <= x && k < n
    ensures Bit(x - Pow2(n), k) == Bit(x, k)
  {
    if k != 0 {
      DropTopBit(x / 2, n - 1, k - 1);
      assert (x - Pow2(n)) / 2 == x / 2 - Pow2(n - 1);
    }
  }

  lemma DoubleBit(x: u64, k: nat)
    ensures Bit(Wrap(2 * x), k) == (1 <= k < 64 && Bit(x, k - 1))
  {
    Pow2Of64();
    if k >= 64 {
      HighBit(Wrap(2 * x), 64, k);
    } else if k != 0 {
      assert (2 * x) / 2 == x;
      if 2 * x >= WORD_LIMIT {
        DropTopBit(2 * x, 64, k);
      }
    }
  }

  lemma {:induction false} ShlBit(x: u64, s: nat, k: nat)
    ensures Bit(Shl(x, s), k) == (s <= k && (s == 0 || k < 64) && Bit(x, k - s))
    decreases s
  {
    if s != 0 {
      ShlBit(Wrap(2 * x), s - 1, k);
      if s - 1 <= k {
        DoubleBit(x, k - (s - 1));
      }
    }
  }

  // ---- a word is its bits

  lemma {:induction false} HighBit(x: nat, n: nat, k: nat)
    requires x < Pow2(n) && n <= k
    ensures !Bit(x, k)
  {
    if n == 0 {
      ZeroBit(k);
    } else {
      HighBit(x / 2, n - 1, k - 1);
    }
  }

  lemma {:induction false} SameBits(x: nat, y: nat, n: nat)
    requires x < Pow2(n) && y < Pow2(n)
    requires forall k: nat :: k < n ==> Bit(x, k) == Bit(y, k)
    ensures x == y
  {
    if n != 0 {
      assert Bit(x, 0) == Bit(y, 0);
      forall k: nat | k < n - 1
        ensures Bit(x / 2, k) == Bit(y / 2, k)
      {
        assert Bit(x, k + 1) == Bit(y, k + 1);
      }
      SameBits(x / 2, y / 2, n - 1);
    }
  }

  lemma {:induction false} OrBound(x: nat, y: nat, n: nat)
    requires x < Pow2(n) && y < Pow2(n)
    ensures Or(x, y) < Pow2(n)
  {
    if n != 0 && x != 0 && y != 0 {
      OrBound(x / 2, y / 2, n - 1);
    }
  }

  lemma OrFits(x: u64, y: u64)
    ensures Or(x, y) < WORD_LIMIT
  {
    Pow2Of64();
    OrBound(x, y, 64);
  }

  function Or64(x: u64, y: u64): u64 {
    OrFits(x, y);
    Or(x, y)
  }

  // ---- masks and single bits

  /** The bits of 2^k - 1 are those below k. */
  lemma {:induction false} MaskBit(n: nat, k: nat)
    ensures Bit(Pow2(n) - 1, k) == (k < n)
  {
    if n == 0 {
      ZeroBit(k);
    } else if k != 0 {
      MaskBit(n - 1, k - 1);
      assert (Pow2(n) - 1) / 2 == Pow2(n - 1) - 1;
    }
  }

  /** Masking with 2^n - 1 keeps the n low bits. */
  lemma {:induction false} MaskIsLow(x: nat, n: nat)
    ensures And(x, Pow2(n) - 1) == Low(x, n)
  {
    if n != 0 {
      var half := Pow2(n - 1);
      assert (2 * half - 1) / 2 == half - 1 && Odd(2 * half - 1);
      MaskIsLow(x / 2, n - 1);
      if x == 0 {
        assert Low(x / 2, n - 1) == 0;
      }
    }
  }

  lemma {:induction false} LowOfSmall(x: nat, n: nat)
    requires x < Pow2(n)
    ensures Low(x, n) == x
  {
    if n != 0 {
      LowOfSmall(x / 2, n - 1);
    }
  }

  lemma {:induction false} LowOfPow2(m: nat, n: nat)
    requires n <= m
    ensures Low(Pow2(m), n) == 0
  {
    if n != 0 {
      LowOfPow2(m - 1, n - 1);
    }
  }

  lemma {:induction false} LowOfOr(x: nat, y: nat, n: nat)
    ensures Low(Or(x, y), n) == Or(Low(x, n), Low(y, n))
  {
    hide Or, Low;
    if n == 0 {
      NothingLow(x, y);
    } else {
      LowOfOr(x / 2, y / 2, n - 1);
      OrStep(x, y);
      LowStep(x, n);
      LowStep(y, n);
      LowStep(Or(x, y), n);
      OrOfSteps(Low(x / 2, n - 1), Odd(x), Low(y / 2, n - 1), Odd(y));
    }
  }

  lemma NothingLow(x: nat, y: nat)
    ensures Low(Or(x, y), 0) == Or(Low(x, 0), Low(y, 0))
  {}

  lemma LowStep(x: nat, n: nat)
    requires n > 0
    ensures Low(x, n) == 2 * Low(x / 2, n - 1) + Digit(Odd(x))
  {}

  lemma OrOfSteps(x: nat, a: bool, y: nat, b: bool)
    ensures Or(2 * x + Digit(a), 2 * y + Digit(b)) == 2 * Or(x, y) + Digit(a || b)
  {
    var p, q := 2 * x + Digit(a), 2 * y + Digit(b);
    assert p / 2 == x && q / 2 == y;
    OrStep(p, q);
  }

  lemma OrStep(x: nat, y: nat)
    ensures Or(x, y) / 2 == Or(x / 2, y / 2) && Odd(Or(x, y)) == (Odd(x) || Odd(y))
  {}

  lemma {:induction false} ShlBound(x: u64, k: nat, n: nat)
    requires x < Pow2(n) && n + k <= 64
    ensures Shl(x, k) < Pow2(n + k)
    decreases k
  {
    if k != 0 {
      Pow2Of64();
      if n + 1 < 64 {
        Pow2Grows(n + 1, 64);
      }
      ShlBound(Wrap(2 * x), k - 1, n + 1);
    }
  }

  lemma Low3(x: nat, n: nat)
    ensures Low(x, n + 3) == 8 * Low(x / 8, n) + x % 8
  {
    assert Low(x, n + 3) == 2 * Low(x / 2, n + 2) + x % 2;
    assert Low(x / 2, n + 2) == 2 * Low(x / 2 / 2, n + 1) + x / 2 % 2;
    assert x / 2 / 2 / 2 == x / 8;
  }

  lemma ModuloBy8(x: nat)
    ensures x % 64 == 8 * (x / 8 % 8) + x % 8
    ensures x % 512 == 8 * (x / 8 % 64) + x % 8
    ensures x % 4096 == 8 * (x / 8 % 512) + x % 8
  {
    Modulo64(x);
    Modulo512(x);
    Modulo4096(x);
  }

  lemma Modulo64(x: nat)
    ensures x % 64 == 8 * (x / 8 % 8) + x % 8
  {}

  lemma Modulo512(x: nat)
    ensures x % 512 == 8 * (x / 8 % 64) + x % 8
  {}

  lemma Modulo4096(x: nat)
    ensures x % 4096 == 8 * (x / 8 % 512) + x % 8
  {}

  lemma Low6Is(x: nat, n: nat)
    requires n == 6
    ensures Low(x, n) == x % 64
  {
    Low3(x, n - 3);
    Low3(x / 8, n - 6);
    ModuloBy8(x);
  }

  lemma Low9Is(x: nat, n: nat)
    requires n == 9
    ensures Low(x, n) == x % 512
  {
    Low3(x, n - 3);
    Low6Is(x / 8, n - 3);
    ModuloBy8(x);
  }

  lemma Low12Is(x: nat, n: nat)
    requires n == 12
    ensures Low(x, n) == x % 4096
  {
    Low3(x, n - 3);
    Low9Is(x / 8, n - 3);
    ModuloBy8(x);
  }

  lemma Shr3(x: u64, k: nat)
    ensures Shr(x, k + 3) == Shr(x / 8, k)
  {
    assert Shr(x, k + 3) == Shr(x / 2, k + 2) == Shr(x / 2 / 2, k + 1);
  }

  lemma Shr9(x: u64, k: nat)
    ensures Shr(x, k + 9) == Shr(x / 512, k)
  {
    Shr3(x, k + 6);
    Shr3(x / 8, k + 3);
    assert x / 8 / 8 == x / 64;
    Shr3(x / 64, k);
    assert x / 64 / 8 == x / 512;
  }

  lemma Shr18(x: u64, k: nat)
    ensures Shr(x, k + 18) == Shr(x / 0x4_0000, k)
  {
    Shr9(x, k + 9);
    Shr9(x / 512, k);
    assert x / 512 / 512 == x / 0x4_0000;
  }

  lemma Shr10Is(x: u64)
    ensures Shr(x, 10) == x / 0x400
  {
    Shr9(x, 1);
    assert Shr(x / 512, 1) == Shr(x / 512 / 2, 0);
  }

  lemma Shr12Is(x: u64)
    ensures Shr(x, 12) == x / 0x1000
  {
    Shr9(x, 3);
    Shr3(x / 512, 0);
  }

  lemma Shr21Is(x: u64)
    ensures Shr(x, 21) == x / 0x20_0000
  {
    Shr18(x, 3);
    Shr3(x / 0x4_0000, 0);
  }

  lemma Shr30Is(x: u64)
    ensures Shr(x, 30) == x / 0x4000_0000
  {
    Shr18(x, 12);
    Shr12Is(x / 0x4_0000);
  }

  /** The mask `1 << k` of a bit number below 64 has exactly bit k. */
  lemma OneBit(k: nat, j: nat)
    requires k < 64
    ensures Bit(Shl(1, k), j) == (j == k)
  {
    ShlBit(1, k, j);
    if k <= j && j != k {
      assert 1 < Pow2(1);
      HighBit(1, 1, j - k);
    }
  }

  lemma {:induction false} ShlPow2(j: nat, k: nat)
    requires j + k < 64
    ensures Pow2(j) < WORD_LIMIT && Shl(Pow2(j), k) == Pow2(j + k)
    decreases k
  {
    Pow2Of64();
    Pow2Grows(j, 64);
    if k != 0 {
      Pow2Grows(j + 1, 64);
      ShlPow2(j + 1, k - 1);
    }
  }

  /** A word is zero exactly when it has no bit. */
  lemma {:induction false} NonZeroHasBit(x: nat)
    requires x != 0
    ensures exists k: nat :: Bit(x, k)
  {
    if Odd(x) {
      assert Bit(x, 0);
    } else {
      NonZeroHasBit(x / 2);
      var k: nat :| Bit(x / 2, k);
      assert Bit(x, k + 1);
    }
  }

  /** Testing a word against `1 << k` reads bit k. */
  lemma TestBit(x: nat, k: nat)
    requires k < 64
    ensures And(x, Shl(1, k)) != 0 <==> Bit(x, k)
  {
    var t := And(x, Shl(1, k));
    AndBit(x, Shl(1, k), k);
    OneBit(k, k);
    if t == 0 {
      ZeroBit(k);
    } else {
      NonZeroHasBit(t);
      var j: nat :| Bit(t, j);
      AndBit(x, Shl(1, k), j);
      OneBit(k, j);
    }
  }

  /** Shifting left without losing bits multiplies. */
  lemma {:induction false} ShlTimes(x: u64, k: nat)
    requires x * Pow2(k) < WORD_LIMIT
    ensures Shl(x, k) == x * Pow2(k)
    decreases k
  {
    if k != 0 {
      HalfTheShift(x, Pow2(k - 1));
      ShlTimes(Wrap(2 * x), k - 1);
    }
  }

  lemma HalfTheShift(x: nat, p: nat)
    requires p > 0
    ensures x * (2 * p) == (2 * x) * p && 2 * x <= (2 * x) * p
  {
    assert x * (2 * p) == (x * 2) * p;
    TimesGrows(2 * x, p);
  }

  lemma TimesGrows(a: nat, p: nat)
    requires p > 0
    ensures a <= a * p
  {
    assert a * p == a * (p - 1) + a;
  }

  /** Numbers without common bits are added by `|`. */
  lemma {:induction false} OrApart(x: nat, y: nat, n: nat)
    requires y < Pow2(n)
    ensures Or(Pow2(n) * x, y) == Pow2(n) * x + y
  {
    hide Or;
    if n == 0 {
      OrZero(x);
    } else {
      OrApart(x, y / 2, n - 1);
      assert Pow2(n) * x == 2 * (Pow2(n - 1) * x);
      OrOfSteps(Pow2(n - 1) * x, false, y / 2, Odd(y));
    }
  }
}
