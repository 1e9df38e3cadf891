/** The address part of the virtual address translation process of section 4.3.2 of the RISC-V
    Privileged Architecture, version 20211203, for Sv39, and make_satp of
    `kernel/arch/riscv/mm/mmu.cpp`.  Permissions, access faults and the A and D bits are not part
    of this model. */
module Sv39Walk {
  import opened Word64
  import opened Sv39
  import opened PageTree
  import Page

  datatype Outcome = PageFault | Physical(address: u64)

  const PPN_BITS: nat := 44

  function MakeSatp(root: u64): u64 {
    Or64(SATP_MODE_SV39, Shr(root, 12))
  }

  /** satp.PPN, bits 43..0, as a page address. */
  function SatpRoot(satp: u64): u64 {
    Shl(Low(satp, PPN_BITS), 12)
  }

  /** Bits 53..10 of an entry, as a page address. */
  function PpnAddress(pte: Pte): u64 {
    Shl(Low(Shr(pte, 10), PPN_BITS), 12)
  }

  predicate Flag(pte: Pte, bit: nat) {
    Bit(pte, bit)
  }

  /** Step 3: the entry raises a page fault.  Bits 63..54 are reserved. */
  predicate Faults(pte: Pte) {
    !Flag(pte, 0) || (!Flag(pte, 1) && Flag(pte, 2)) || pte >= 0x40_0000_0000_0000
  }

  /** Bits 63..39 of the address equal bit 38. */
  predicate Canonical(va: u64) {
    va < 0x40_0000_0000 || va >= WORD_LIMIT - 0x40_0000_0000
  }

  function RegionSize(level: nat): nat
    requires level <= 2
  {
    if level == 0 then 0x1000 else if level == 1 then 0x20_0000 else 0x4000_0000
  }

  /** Steps 2 to 8 from the table at address a on. */
  function WalkTable(frames: Frames, a: u64, va: u64, level: nat): Outcome
    requires level <= 2
    decreases level
  {
    var pte := Entry(frames, a, VpnIndex(va, level));
    if Faults(pte) then PageFault
    else if Flag(pte, 1) || Flag(pte, 3) then
      var base := PpnAddress(pte);
      // step 6: a misaligned superpage
      if base % RegionSize(level) != 0 then PageFault
      else Physical(Wrap(base + va % RegionSize(level)))
    else if level == 0 then PageFault
    else WalkTable(frames, PpnAddress(pte), va, level - 1)
  }

  function Walk(frames: Frames, satp: u64, va: u64): Outcome {
    if !Canonical(va) then PageFault else WalkTable(frames, SatpRoot(satp), va, 2)
  }

  // ---- the root register

  lemma Pow2Of44And54()
    ensures Pow2(44) == 0x1000_0000_0000 && Pow2(54) == 0x40_0000_0000_0000
  {
    hide Pow2;
    Pow2Of10();
    Page.Pow2Of12();
    Pow2Add(10, 12);
    Pow2Add(22, 22);
    Pow2Add(44, 10);
  }

  /** Bit 63 is the mode 8, and the page number of the root fills the bits from 0 on. */
  lemma MakeSatpBit(root: u64, k: nat)
    requires k < 64
    ensures Bit(MakeSatp(root), k) == (k == 63 || Bit(root, k + 12))
  {
    hide Or, Shr;
    OrBit(SATP_MODE_SV39, Shr(root, 12), k);
    ShrBit(root, 12, k);
    ModeIsPow2();
    ShlPow2(0, 63);
    OneBit(63, k);
  }

  /** The register written by enable_sv39 selects Sv39 and the root table.  Bits 44 to 59, the ASID, are
      zero. */
  lemma SatpSelectsRoot(root: u64)
    requires root % 0x1000 == 0 && root < 0x100_0000_0000_0000
    ensures SatpRoot(MakeSatp(root)) == root
    ensures forall k: nat :: k < 64 ==> Bit(MakeSatp(root), k) == (k == 63 || (k < 44 && Bit(root, k + 12)))
  {
    Pow2Of44And54();
    Shr12Is(root);
    var ppn := Shr(root, 12);
    ModeIsPow2();
    LowOfOr(SATP_MODE_SV39, ppn, PPN_BITS);
    LowOfPow2(63, PPN_BITS);
    LowOfSmall(ppn, PPN_BITS);
    PageAddressBack(root);
    forall k: nat | k < 64
      ensures Bit(MakeSatp(root), k) == (k == 63 || (k < 44 && Bit(root, k + 12)))
    {
      MakeSatpBit(root, k);
      if 44 <= k {
        HighBit(ppn, 44, k);
        ShrBit(root, 12, k);
      }
    }
  }

  lemma ModeIsPow2()
    ensures SATP_MODE_SV39 == Pow2(63)
  {
    Pow2Of64();
  }

  lemma PageAddressBack(pa: u64)
    requires pa % 0x1000 == 0
    ensures Shl(Shr(pa, 12), 12) == pa
  {
    hide Shl, Shr, Bit;
    forall k: nat | k < 64
      ensures Bit(Shl(Shr(pa, 12), 12), k) == Bit(pa, k)
    {
      ShlBit(Shr(pa, 12), 12, k);
      if 12 <= k {
        ShrBit(pa, 12, k - 12);
      } else {
        AlignedBits(pa);
      }
    }
    Pow2Of64();
    SameBits(Shl(Shr(pa, 12), 12), pa, 64);
  }

  // ---- entries

  lemma PpnIsPteToPa(pte: Pte)
    requires pte < 0x40_0000_0000_0000
    ensures PpnAddress(pte) == PteToPa(pte)
  {
    Pow2Of44And54();
    Shr10Is(pte);
    LowOfSmall(Shr(pte, 10), PPN_BITS);
  }

  /** A level-0 entry that the hardware accepts as a leaf. */
  predicate HardwareLeaf(pte: Pte) {
    !Faults(pte) && (Flag(pte, 1) || Flag(pte, 3))
  }

  /** The tables of an address space lie below 2^56, the end of the physical address space. */
  ghost predicate TablesBelow(shape: Shape, root: u64) {
    forall n :: n in shape && n.root == root ==> shape[n] < 0x100_0000_0000_0000
  }

  /** One hardware step down through an upper entry. */
  lemma HardwareStep(frames: Frames, shape: Shape, root: u64, va: u64, level: nat)
    requires Tree(frames, shape) && 1 <= level <= 2
    requires TablesBelow(shape, root)
    requires NodeAt(root, Vpn(va), level) in shape
    ensures var a := shape[NodeAt(root, Vpn(va), level)];
            var next := NodeAt(root, Vpn(va), level - 1);
            WalkTable(frames, a, va, level) ==
            if next in shape then WalkTable(frames, shape[next], va, level - 1) else PageFault
  {
    hide Tree, MakePte, PteToPa, PpnAddress, Vpn;
    var v := Vpn(va);
    var next := NodeAt(root, v, level - 1);
    var pte := Entry(frames, shape[NodeAt(root, v, level)], VpnIndex(va, level));
    StepDown(frames, shape, root, v, level);
    ValidIsBit(pte);
    LeafIsBits(pte);
    if next in shape {
      UpperEntryIs(frames, shape, root, v, level);
      MadePteInRange(shape[next], PTE_V);
      PpnIsPteToPa(pte);
    }
  }

  lemma UpperEntryIs(frames: Frames, shape: Shape, root: u64, v: nat, level: nat)
    requires Tree(frames, shape) && 1 <= level <= 2
    requires NodeAt(root, v, level) in shape && NodeAt(root, v, level - 1) in shape
    ensures Entry(frames, shape[NodeAt(root, v, level)], VpnDigit(v, level)) ==
            MakePte(shape[NodeAt(root, v, level - 1)], PTE_V)
  {
    hide Separate, Rooted, LeavesValid, MakePte, VpnDigit;
    var n := NodeAt(root, v, level);
    assert Entry(frames, shape[n], VpnDigit(v, level)) == Pointer(shape, Child(n, VpnDigit(v, level)));
  }

  /** The hardware walk of a tree below 2^56 computes a lookup in the abstract map as well. */
  lemma WalkIsHardwareLookup(frames: Frames, shape: Shape, root: u64, va: u64)
    requires Tree(frames, shape) && Top(root) in shape
    requires TablesBelow(shape, root)
    requires Canonical(va)
    ensures var view := View(frames, shape, root);
            Walk(frames, MakeSatp(root), va) ==
            if Vpn(va) in view && HardwareLeaf(view[Vpn(va)]) then Physical(Translated(view[Vpn(va)], va)) else PageFault
  {
    hide Tree, MakePte, PteToPa, PpnAddress, Vpn, VpnDigit, MakeSatp, SatpRoot, PteValid, Translated, View, LeafEntry;
    var v := Vpn(va);
    RootFacts(frames, shape, root, v);
    SatpSelectsRoot(root);
    HardwareStep(frames, shape, root, va, 2);
    if NodeAt(root, v, 1) in shape {
      HardwareStep(frames, shape, root, va, 1);
      if NodeAt(root, v, 0) in shape {
        LastStep(frames, shape, root, va);
      } else {
        NotMapped(frames, shape, root, v);
      }
    } else {
      NoOrphan(frames, shape, root, v);
      NotMapped(frames, shape, root, v);
    }
  }

  lemma RootFacts(frames: Frames, shape: Shape, root: u64, v: nat)
    requires Tree(frames, shape) && Top(root) in shape
    ensures shape[Top(root)] == root && root % 0x1000 == 0 && NodeAt(root, v, 2) == Top(root)
  {}

  lemma NotMapped(frames: Frames, shape: Shape, root: u64, v: nat)
    requires NodeAt(root, v, 0) !in shape
    ensures v !in View(frames, shape, root)
  {}

  lemma LastStep(frames: Frames, shape: Shape, root: u64, va: u64)
    requires Tree(frames, shape) && NodeAt(root, Vpn(va), 0) in shape
    ensures var view := View(frames, shape, root);
            WalkTable(frames, shape[NodeAt(root, Vpn(va), 0)], va, 0) ==
            if Vpn(va) in view && HardwareLeaf(view[Vpn(va)]) then Physical(Translated(view[Vpn(va)], va)) else PageFault
  {
    hide Tree, MakePte, PteToPa, PpnAddress, PteValid, Vpn, VpnDigit;
    var v := Vpn(va);
    var pte := Entry(frames, shape[NodeAt(root, v, 0)], VpnIndex(va, 0));
    BottomEntry(frames, shape, root, v);
    ValidIsBit(pte);
    if !Faults(pte) {
      PpnIsPteToPa(pte);
      PteToPaAligned(pte);
      PageSumFits(PteToPa(pte), va % 0x1000);
    }
  }

  /** What virt_to_phys tells its caller. */
  function Reported(pa: u64): Outcome {
    if pa == 0 then PageFault else Physical(pa)
  }

  /** For every canonical address, virt_to_phys and the hardware agree exactly when the page is not
      mapped by a leaf, or the hardware accepts its entry and the physical address is not 0, or the
      hardware rejects its entry (W without R, or an address beyond 56 bits) and the physical address
      is 0. */
  lemma SoftwareAgreesExactly(frames: Frames, shape: Shape, root: u64, va: u64)
    requires Tree(frames, shape) && Top(root) in shape
    requires TablesBelow(shape, root)
    requires Canonical(va)
    ensures var view := View(frames, shape, root);
            Reported(WalkFrom(frames, root, va, 2)) == Walk(frames, MakeSatp(root), va)
            <==> (Vpn(va) in view && PteLeaf(view[Vpn(va)]) ==>
                    (HardwareLeaf(view[Vpn(va)]) <==> PteToPa(view[Vpn(va)]) + va % 0x1000 != 0))
  {
    hide Tree, MakePte, PteToPa, PpnAddress, Vpn, MakeSatp, SatpRoot, PteValid, View, WalkFrom, Walk;
    WalkIsLookup(frames, shape, root, va);
    WalkIsHardwareLookup(frames, shape, root, va);
    var view := View(frames, shape, root);
    if Vpn(va) in view {
      LeafIsBits(view[Vpn(va)]);
    }
  }

  /** Every entry is a leaf that the hardware accepts, and none maps physical page 0. */
  ghost predicate HardwareMap(view: map<nat, Pte>) {
    forall v :: v in view ==> HardwareLeaf(view[v]) && PteToPa(view[v]) != 0
  }

  /** An address space whose entries the hardware accepts translates alike in software and hardware at
      every canonical address. */
  lemma HardwareMapAgrees(frames: Frames, shape: Shape, root: u64, va: u64)
    requires Tree(frames, shape) && Top(root) in shape && TablesBelow(shape, root)
    requires Canonical(va) && HardwareMap(View(frames, shape, root))
    ensures Reported(WalkFrom(frames, root, va, 2)) == Walk(frames, MakeSatp(root), va)
  {
    hide Tree, View, WalkFrom, Walk, HardwareLeaf, PteLeaf, PteToPa;
    SoftwareAgreesExactly(frames, shape, root, va);
  }

  /** Entries made from a physical page below 2^56 with legal flags are accepted by the hardware. */
  lemma LegalFlagsAccepted(pa: u64, flags: u64)
    requires Page.IsPageAligned(pa) && pa < 0x100_0000_0000_0000 && flags < 0x400
    requires Bit(flags, 1) || (Bit(flags, 3) && !Bit(flags, 2))
    ensures HardwareLeaf(MakePte(pa, Or64(flags, PTE_V)))
    ensures PteToPa(MakePte(pa, Or64(flags, PTE_V))) == pa
  {
    hide MakePte, PteToPa, Or;
    assert Pow2(10) == 0x400;
    OrBound(flags, PTE_V, 10);
    LowFlagsDecode(pa, Or64(flags, PTE_V));
    MadePteInRange(pa, Or64(flags, PTE_V));
    LegalFlagBits(pa, flags, 0);
    LegalFlagBits(pa, flags, 1);
    LegalFlagBits(pa, flags, 2);
    LegalFlagBits(pa, flags, 3);
  }

  /** No reserved bit is set in an entry made from an address below 2^56 and flags below bit 10. */
  lemma MadePteInRange(pa: u64, flags: u64)
    requires pa < 0x100_0000_0000_0000 && flags < 0x400
    ensures MakePte(pa, flags) < 0x40_0000_0000_0000
  {
    Pow2Of44And54();
    Shr12Is(pa);
    ShlBound(Shr(pa, 12), 10, 44);
    OrBound(Shl(Shr(pa, 12), 10), flags, 54);
  }

  lemma LegalFlagBits(pa: u64, flags: u64, k: nat)
    requires k < 10
    ensures Bit(MakePte(pa, Or64(flags, PTE_V)), k) == (Bit(flags, k) || k == 0)
  {
    MakePteBit(pa, Or64(flags, PTE_V), k);
    OrBit(flags, PTE_V, k);
    assert Shl(1, 0) == 1;
    OneBit(0, k);
  }
}
