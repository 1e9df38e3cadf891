/** Page arithmetic of `kernel/mm/page.h`.  The bodies are the masks and shifts of the source; the
    postconditions say which numbers they compute, including what happens when a sum leaves 64 bits. */
module Page {
  import opened Word64

  const PAGE_SHIFT: nat := 12
  const PAGE_SIZE: u64 := 0x1000
  const PAGE_MASK: u64 := 0xfff

  predicate IsPageAligned(addr: u64)
    ensures IsPageAligned(addr) <==> addr % 0x1000 == 0
  {
    MaskIsRemainder(addr);
    And(addr, PAGE_MASK) == 0
  }

  function AlignDown(addr: u64): (r: u64)
    ensures r % 0x1000 == 0 && r <= addr < r + 0x1000
  {
    ClearMask(addr);
    And(addr, Not(PAGE_MASK))
  }

  /** The least aligned address not below `addr`, or 0 when that address would be 2^64. */
  function AlignUp(addr: u64): (r: u64)
    ensures r % 0x1000 == 0
    ensures addr <= WORD_LIMIT - 0x1000 ==> addr <= r < addr + 0x1000
    ensures addr > WORD_LIMIT - 0x1000 ==> r == 0
  {
    ClearMask(Wrap(addr + PAGE_MASK));
    And(Wrap(addr + PAGE_MASK), Not(PAGE_MASK))
  }

  function PageOffset(addr: u64): (r: u64)
    ensures r == addr % 0x1000
  {
    MaskIsRemainder(addr);
    And(addr, PAGE_MASK)
  }

  /** The number of pages that hold `bytes` bytes, unless rounding up leaves 64 bits. */
  function BytesToPages(bytes: u64): (r: u64)
    ensures bytes <= WORD_LIMIT - 0x1000 ==> bytes <= 0x1000 * r < bytes + 0x1000
    ensures bytes > WORD_LIMIT - 0x1000 ==> r == 0
  {
    Shr12Is(Wrap(bytes + PAGE_MASK));
    Shr(Wrap(bytes + PAGE_MASK), PAGE_SHIFT)
  }

  lemma MaskIsRemainder(addr: u64)
    ensures And(addr, PAGE_MASK) == addr % 0x1000
  {
    Pow2Of12();
    MaskIsLow(addr, 12);
    Low12Is(addr, 12);
  }

  lemma Pow2Of12()
    ensures Pow2(12) == 0x1000
  {
    assert Pow2(6) == 64;
    Pow2Add(6, 6);
  }

  /** A number is the part under a mask plus the part outside it. */
  lemma {:induction false} SplitByMask(x: nat, m: nat, n: nat)
    requires x < Pow2(n) && m < Pow2(n)
    ensures And(x, m) + And(x, Pow2(n) - 1 - m) == x
  {
    if n != 0 && x != 0 {
      var c := Pow2(n) - 1 - m;
      assert c / 2 == Pow2(n - 1) - 1 - m / 2;
      SplitByMask(x / 2, m / 2, n - 1);
      AndStep(x, m);
      AndStep(x, c);
    }
  }

  lemma AndStep(x: nat, y: nat)
    ensures And(x, y) == 2 * And(x / 2, y / 2) + Digit(Odd(x) && Odd(y))
  {}

  lemma ClearMask(addr: u64)
    ensures And(addr, Not(PAGE_MASK)) == addr - addr % 0x1000
    ensures And(addr, Not(PAGE_MASK)) % 0x1000 == 0
  {
    Pow2Of64();
    SplitByMask(addr, PAGE_MASK, 64);
    MaskIsRemainder(addr);
  }
}
