/** Sv39 page table entries and virtual page numbers, `kernel/arch/riscv/mm/sv39.h`. */
module Sv39 {
  import opened Word64
  import Page

  type Pte = u64

  const PTE_V: u64 := 0x01
  const PTE_R: u64 := 0x02
  const PTE_W: u64 := 0x04
  const PTE_X: u64 := 0x08
  const PTE_U: u64 := 0x10
  const PTE_G: u64 := 0x20
  const PTE_A: u64 := 0x40
  const PTE_D: u64 := 0x80

  const VPN_MASK: u64 := 0x1ff
  const PTE_PPN_SHIFT: nat := 10
  const SATP_MODE_SV39: u64 := 0x8000_0000_0000_0000

  /** The number of virtual pages of one address space: 27-bit virtual page numbers. */
  const VPN_LIMIT: int := 0x800_0000

  function VpnIndex(va: u64, level: nat): (r: nat)
    requires level <= 2
    ensures r < 512
    ensures r == VpnDigit(Vpn(va), level)
  {
    VpnIndexIsDigit(va, level);
    And(Shr(va, Page.PAGE_SHIFT + 9 * level), VPN_MASK)
  }

  function MakePte(pa: u64, flags: u64): Pte {
    Or64(Shl(Shr(pa, Page.PAGE_SHIFT), PTE_PPN_SHIFT), flags)
  }

  function PteToPa(pte: Pte): u64 {
    Shl(Shr(pte, PTE_PPN_SHIFT), Page.PAGE_SHIFT)
  }

  predicate PteValid(pte: Pte) {
    And(pte, PTE_V) != 0
  }

  predicate PteLeaf(pte: Pte) {
    And(pte, Or64(PTE_R, Or64(PTE_W, PTE_X))) != 0
  }

  // ---- virtual page numbers

  /** The virtual page of an address; bits 39 and up are ignored, as by the source. */
  function Vpn(va: u64): (r: nat)
    ensures r < VPN_LIMIT
  {
    va / 0x1000 % VPN_LIMIT
  }

  function VpnDigit(vpn: nat, level: nat): (r: nat)
    requires level <= 2
    ensures r < 512
  {
    if level == 0 then vpn % 512 else if level == 1 then vpn / 512 % 512 else vpn / 0x4_0000 % 512
  }

  lemma VpnIndexIsDigit(va: u64, level: nat)
    requires level <= 2
    ensures And(Shr(va, Page.PAGE_SHIFT + 9 * level), VPN_MASK) == VpnDigit(Vpn(va), level)
  {
    Shr12Is(va);
    Shr21Is(va);
    Shr30Is(va);
    var x := Shr(va, Page.PAGE_SHIFT + 9 * level);
    assert Pow2(9) == 512;
    MaskIsLow(x, 9);
    Low9Is(x, 9);
    VpnDigits(va);
  }

  lemma VpnDigits(va: u64)
    ensures VpnDigit(Vpn(va), 0) == va / 0x1000 % 512
    ensures VpnDigit(Vpn(va), 1) == va / 0x20_0000 % 512
    ensures VpnDigit(Vpn(va), 2) == va / 0x4000_0000 % 512
  {
    VpnDigit0(va / 0x1000);
    VpnDigit1(va / 0x1000);
    VpnDigit2(va / 0x1000);
    assert va / 0x1000 / 512 == va / 0x20_0000;
    assert va / 0x1000 / 0x4_0000 == va / 0x4000_0000;
  }

  lemma VpnDigit0(p: nat)
    ensures p % VPN_LIMIT % 512 == p % 512
  {
    var q := p / VPN_LIMIT;
    assert p == 512 * (0x4_0000 * q) + p % VPN_LIMIT;
  }

  lemma VpnDigit1(p: nat)
    ensures p % VPN_LIMIT / 512 % 512 == p / 512 % 512
  {
    DropLow9(p);
    ModuloTwice(p / 512);
  }

  lemma VpnDigit2(p: nat)
    ensures p % VPN_LIMIT / 0x4_0000 % 512 == p / 0x4_0000 % 512
  {
    DropLow18(p);
  }

  lemma DropLow9(p: nat)
    ensures p % VPN_LIMIT / 512 == p / 512 % 0x4_0000
  {}

  lemma DropLow18(p: nat)
    ensures p % VPN_LIMIT / 0x4_0000 == p / 0x4_0000 % 512
  {}

  lemma ModuloTwice(a: nat)
    ensures a % 0x4_0000 % 512 == a % 512
  {}

  /** The three indices of a walk name a virtual page and no other. */
  lemma DigitsFixVpn(v: nat, w: nat)
    requires v < VPN_LIMIT && w < VPN_LIMIT
    ensures v == w <==> VpnDigit(v, 0) == VpnDigit(w, 0) && VpnDigit(v, 1) == VpnDigit(w, 1) && VpnDigit(v, 2) == VpnDigit(w, 2)
  {
    if VpnDigit(v, 0) == VpnDigit(w, 0) && VpnDigit(v, 1) == VpnDigit(w, 1) && VpnDigit(v, 2) == VpnDigit(w, 2) {
      assert v / 512 / 512 == v / 0x4_0000 && w / 512 / 512 == w / 0x4_0000;
    }
  }

  // ---- entries

  lemma AlignedBits(pa: u64)
    ensures pa % 0x1000 == 0 <==> forall k: nat :: k < 12 ==> !Bit(pa, k)
  {
    Page.MaskIsRemainder(pa);
    Page.Pow2Of12();
    if pa % 0x1000 == 0 {
      forall k: nat | k < 12
        ensures !Bit(pa, k)
      {
        AndBit(pa, 0xfff, k);
        MaskBit(12, k);
        ZeroBit(k);
      }
    } else {
      NonZeroHasBit(And(pa, 0xfff));
      var k: nat :| Bit(And(pa, 0xfff), k);
      AndBit(pa, 0xfff, k);
      MaskBit(12, k);
    }
  }

  lemma MakePteBit(pa: u64, flags: u64, k: nat)
    requires k < 64
    ensures Bit(MakePte(pa, flags), k) == ((10 <= k && Bit(pa, k + 2)) || Bit(flags, k))
  {
    var ppn := Shr(pa, 12);
    OrBit(Shl(ppn, 10), flags, k);
    ShlBit(ppn, 10, k);
    if 10 <= k {
      ShrBit(pa, 12, k - 10);
    }
  }

  lemma PteToPaBit(pte: Pte, k: nat)
    ensures Bit(PteToPa(pte), k) == (12 <= k < 64 && Bit(pte, k - 2))
  {
    ShlBit(Shr(pte, 10), 12, k);
    if 12 <= k {
      ShrBit(pte, 10, k - 12);
    }
  }

  /** Decoding always yields a page base. */
  lemma PteToPaAligned(pte: Pte)
    ensures PteToPa(pte) % 0x1000 == 0
  {
    forall k: nat | k < 12
      ensures !Bit(PteToPa(pte), k)
    {
      PteToPaBit(pte, k);
    }
    AlignedBits(PteToPa(pte));
  }

  /** Flag bits 10..61, moved to where the decoder will put them. */
  function StrayFlags(flags: u64): u64 {
    Shl(Shr(flags, PTE_PPN_SHIFT), Page.PAGE_SHIFT)
  }

  lemma StrayFlagsBit(pa: u64, flags: u64, k: nat)
    requires k < 64
    ensures Bit(And(StrayFlags(flags), Not(pa)), k) == (12 <= k && Bit(flags, k - 2) && !Bit(pa, k))
  {
    AndBit(StrayFlags(flags), Not(pa), k);
    PteToPaBit(flags, k);
    NotBit(pa, k);
  }

  /** An entry decodes to the address it was made from exactly when that address is a page base
      and no flag above bit 9 falls on a clear address bit. */
  lemma DecodeMadePte(pa: u64, flags: u64)
    ensures PteToPa(MakePte(pa, flags)) == pa <==>
            (Page.IsPageAligned(pa) && And(StrayFlags(flags), Not(pa)) == 0)
  {
    var back := PteToPa(MakePte(pa, flags));
    forall k: nat | k < 64
      ensures Bit(back, k) == (12 <= k && (Bit(pa, k) || Bit(And(StrayFlags(flags), Not(pa)), k)))
    {
      PteToPaBit(MakePte(pa, flags), k);
      StrayFlagsBit(pa, flags, k);
      if 12 <= k {
        MakePteBit(pa, flags, k - 2);
      }
    }
    var stray := And(StrayFlags(flags), Not(pa));
    if back == pa {
      PteToPaAligned(MakePte(pa, flags));
      if stray != 0 {
        BelowWord(stray);
        var k: nat :| k < 64 && Bit(stray, k);
        StrayFlagsBit(pa, flags, k);
      }
    } else if Page.IsPageAligned(pa) && stray == 0 {
      AlignedBits(pa);
      forall k: nat | k < 64
        ensures Bit(back, k) == Bit(pa, k)
      {
        ZeroBit(k);
      }
      Pow2Of64();
      SameBits(back, pa, 64);
    }
  }

  lemma BelowWord(x: u64)
    requires x != 0
    ensures exists k: nat :: k < 64 && Bit(x, k)
  {
    NonZeroHasBit(x);
    var k: nat :| Bit(x, k);
    Pow2Of64();
    if k >= 64 {
      HighBit(x, 64, k);
    }
  }

  /** Flags that stay below bit 10 never disturb the address. */
  lemma LowFlagsDecode(pa: u64, flags: u64)
    requires Page.IsPageAligned(pa) && flags < 0x400
    ensures PteToPa(MakePte(pa, flags)) == pa
  {
    Shr10Is(flags);
    assert Shr(flags, 10) == 0;
    ShlZero(12);
    DecodeMadePte(pa, flags);
  }

  lemma {:induction false} ShlZero(k: nat)
    ensures Shl(0, k) == 0
  {
    if k != 0 {
      ShlZero(k - 1);
    }
  }

  lemma ValidIsBit(pte: Pte)
    ensures PteValid(pte) <==> Bit(pte, 0)
  {
    assert Shl(1, 0) == 1;
    TestBit(pte, 0);
  }

  lemma LeafIsBits(pte: Pte)
    ensures PteLeaf(pte) <==> Bit(pte, 1) || Bit(pte, 2) || Bit(pte, 3)
  {
    assert Or64(PTE_R, Or64(PTE_W, PTE_X)) == 14;
    AndStepDown(pte);
  }

  lemma AndStepDown(pte: nat)
    ensures And(pte, 14) != 0 <==> Bit(pte, 1) || Bit(pte, 2) || Bit(pte, 3)
  {
    Page.AndStep(pte, 14);
    Page.AndStep(pte / 2, 7);
    Page.AndStep(pte / 2 / 2, 3);
    Page.AndStep(pte / 2 / 2 / 2, 1);
    assert Bit(pte, 1) == Odd(pte / 2);
    assert Bit(pte, 2) == Bit(pte / 2, 1) == Odd(pte / 2 / 2);
    assert Bit(pte, 3) == Bit(pte / 2, 2) == Bit(pte / 2 / 2, 1) == Odd(pte / 2 / 2 / 2);
  }

  /** The low ten bits of a made entry are exactly the flags: in particular the entry is valid, or a
      leaf, exactly when the flags say so. */
  lemma MadePteFlags(pa: u64, flags: u64)
    ensures PteValid(MakePte(pa, flags)) <==> PteValid(flags)
    ensures PteLeaf(MakePte(pa, flags)) <==> PteLeaf(flags)
  {
    var pte := MakePte(pa, flags);
    ValidIsBit(pte);
    ValidIsBit(flags);
    LeafIsBits(pte);
    LeafIsBits(flags);
    MakePteBit(pa, flags, 0);
    MakePteBit(pa, flags, 1);
    MakePteBit(pa, flags, 2);
    MakePteBit(pa, flags, 3);
  }

  /** The entry map_page writes for a missing table: valid, not a leaf, and it points to the table. */
  lemma PointerPte(next: u64)
    requires Page.IsPageAligned(next)
    ensures PteToPa(MakePte(next, PTE_V)) == next
    ensures PteValid(MakePte(next, PTE_V)) && !PteLeaf(MakePte(next, PTE_V))
    ensures MakePte(next, PTE_V) != 0
  {
    LowFlagsDecode(next, PTE_V);
    MadePteFlags(next, PTE_V);
    LeafIsBits(PTE_V);
    ValidIsBit(PTE_V);
    assert Bit(1, 1) == Bit(0, 0);
    assert Bit(1, 2) == Bit(0, 1);
    assert Bit(1, 3) == Bit(0, 2);
    ZeroBit(0);
    ZeroBit(1);
    ZeroBit(2);
    ZeroPte();
  }

  lemma ZeroPte()
    ensures !PteValid(0) && !PteLeaf(0)
  {}

  /** The entry map_page writes at level 0 is always valid. */
  lemma LeafPteValid(pa: u64, flags: u64)
    ensures PteValid(MakePte(pa, Or64(flags, PTE_V)))
    ensures PteLeaf(MakePte(pa, Or64(flags, PTE_V))) <==> PteLeaf(flags)
  {
    MadePteFlags(pa, Or64(flags, PTE_V));
    ValidIsBit(Or64(flags, PTE_V));
    OrBit(flags, PTE_V, 0);
    LeafIsBits(Or64(flags, PTE_V));
    LeafIsBits(flags);
    OrBit(flags, PTE_V, 1);
    OrBit(flags, PTE_V, 2);
    OrBit(flags, PTE_V, 3);
    assert Bit(1, 1) == Bit(0, 0);
    assert Bit(1, 2) == Bit(0, 1);
    assert Bit(1, 3) == Bit(0, 2);
    ZeroBit(0);
    ZeroBit(1);
    ZeroBit(2);
  }

  // ---- entries in numbers

  /** The entry for virtual or physical page v with flags below bit 10. */
  lemma EntryInNumbers(v: nat, flags: u64)
    requires v < 0x1000_0000_0000 && flags < 0x400
    ensures MakePte(0x1000 * v, flags) == 0x400 * v + flags
    ensures PteToPa(MakePte(0x1000 * v, flags)) == 0x1000 * v
    ensures forall b: nat :: b < 10 ==> Bit(MakePte(0x1000 * v, flags), b) == Bit(flags, b)
  {
    hide PteToPa, Or, Shl, Shr, Pow2, Page.IsPageAligned;
    PageTimes(v);
    Shr12Is(0x1000 * v);
    Pow2Of10();
    ShlTimes(v, 10);
    OrApart(v, flags, 10);
    LowFlagsDecode(0x1000 * v, flags);
    forall b: nat | b < 10
      ensures Bit(MakePte(0x1000 * v, flags), b) == Bit(flags, b)
    {
      MakePteBit(0x1000 * v, flags, b);
    }
  }

  lemma PageTimes(v: nat)
    ensures 0x1000 * v % 0x1000 == 0 && 0x1000 * v / 0x1000 == v
  {}

  lemma Pow2Of10()
    ensures Pow2(10) == 0x400
  {}
}
