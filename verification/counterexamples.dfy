/** Inputs at which the code does not do what its tests, comments or callers expect.  The exact
    conditions are proved beside the functions; here each of them is seen to fail. */
module Counterexamples {
  import opened Word64
  import opened Sv39
  import opened PageTree
  import opened PageRange
  import opened Pmm
  import opened PmmProperties
  import opened PageSupply
  import opened PageTables
  import opened PageTableRuns
  import opened HardwareRuns
  import opened KernelAddressSpaces
  import opened Sv39Walk
  import Scheduling
  import SchedulingProperties
  import Page

  // ---- pmm.cpp

  /** ManagedExactly: an empty range at the top of the address space manages 32768 pages from address 0
      on, and the last 16 pages of the address space are not managed at all. */
  lemma WrappedManagedRanges()
    ensures var empty := Range(0xffff_ffff_ffff_ffff, 0);
            WholePages(empty) == 0 && ManagedBase(empty) == 0 && ManagedPages(empty) == 32768
    ensures var top := Range(0xffff_ffff_ffff_0000, 0x1_0000);
            WholePages(top) == 16 && ManagedPages(top) == 0
  {
    hide ManagedPages, ManagedBase;
    var empty, top := Range(0xffff_ffff_ffff_ffff, 0), Range(0xffff_ffff_ffff_0000, 0x1_0000);
    ManagedPagesIs(empty, Page.AlignUp(empty.base), Page.AlignDown(Wrap(empty.base + empty.size)));
    WrappedBaseManages(empty, Page.AlignDown(Wrap(empty.base + empty.size)));
    ManagedPagesIs(top, Page.AlignUp(top.base), Page.AlignDown(Wrap(top.base + top.size)));
    WrappedEndManages(top, Page.AlignUp(top.base), Page.AlignDown(Wrap(top.base + top.size)));
  }

  lemma SmallPool(managed: Range, pages: nat)
    requires managed.base % 0x1000 == 0 && managed.base < 0x1_0000_0000 && pages <= MAX_MANAGED_PAGES
    requires managed.size == 0x1000 * pages
    ensures ManagedBase(managed) == managed.base && ManagedPages(managed) == pages
  {
    hide ManagedPages, ManagedBase;
    AlignedDown(managed.base + managed.size);
    assert Page.AlignUp(managed.base) == managed.base;
    ManagedPagesIs(managed, managed.base, managed.base + managed.size);
  }

  lemma NothingReserved(mask: FreeMask, managed: Range)
    ensures AfterInit(mask, managed, []).free == InitialFree(mask, ManagedPages(managed))
  {
    NoRangeReserved(ManagedBase(managed), ManagedPages(managed));
  }

  /** CounterExact, ExhaustedExactly: with 65 managed pages free_pages() is 2, one page can be allocated, and
      free_pages() is 1 when nothing is left. */
  lemma CountedPastEnd()
    ensures var p := AfterInit(ByWord, Range(0x8000_0000, 0x4_1000), []);
            && p.free == {0, 65} && p.total == 65 && p.CountsPastEnd()
            && p.Lowest(0) == 0 && Taken(p).free == {65} && Taken(p).Lowest(0) == -1
  {
    hide ManagedPages, ManagedBase, AllReserved;
    SmallPool(Range(0x8000_0000, 0x4_1000), 65);
    NothingReserved(ByWord, Range(0x8000_0000, 0x4_1000));
    SixtyFivePages();
    TakenOf65(AfterInit(ByWord, Range(0x8000_0000, 0x4_1000), []));
  }

  lemma SixtyFivePages()
    ensures InitialFree(ByWord, 65) == {0, 65}
  {
    forall j: nat | j < 65
      ensures ReleasedPage(ByWord, j) == if j < 64 then 0 else 65
    {}
    assert ReleasedPage(ByWord, 0) in InitialFree(ByWord, 65);
    assert ReleasedPage(ByWord, 64) in InitialFree(ByWord, 65);
  }

  lemma TakenOf65(p: Pool)
    requires p.free == {0, 65} && p.total == 65
    ensures p.Lowest(0) == 0 && Taken(p).free == {65} && Taken(p).Lowest(0) == -1
  {
    assert 0 in p.free;
  }

  /** FreedExactly: page 1 of a fresh pool is used, free_page(page 1) succeeds, and page 1 stays used. */
  lemma FreedButUsed()
    ensures var p := AfterInit(ByWord, Range(0x8000_0000, 0x2000), []);
            1 < p.total && 1 !in p.free && 1 !in p.free + {ReleasedPage(ByWord, 1)}
  {
    hide ManagedPages, ManagedBase, AllReserved;
    SmallPool(Range(0x8000_0000, 0x2000), 2);
    FreeAfterInit(ByWord, Range(0x8000_0000, 0x2000), [], 1);
  }

  /** ReservedExactly: a range up to the end of the address space touches the first managed page and
      reserves nothing. */
  lemma WrappedReserve()
    ensures var r := Range(0x8000_0000, 0xffff_ffff_8000_0000);
            Touches(0x8000_0000, r) && ReservedPages(0x8000_0000, 16, r) == {}
  {
    assert Page.AlignUp(Wrap(WORD_LIMIT)) == 0;
  }

  /** ReturnsNull: the only page of a pool based at 0 is free, and the caller of alloc_page sees null. */
  lemma PageZeroIsNull()
    ensures var p := AfterInit(ByIndex, Range(0, 0x1000), []);
            0 in p.free && p.Lowest(0) == 0 && ReturnsNull(p, ManagedBase(Range(0, 0x1000)))
  {
    hide ManagedPages, ManagedBase, AllReserved;
    SmallPool(Range(0, 0x1000), 1);
    FreeAfterInit(ByIndex, Range(0, 0x1000), [], 0);
    NoRangeReserved(0, 1);
  }

  // ---- page_table.cpp

  /** PageCountExact: mapping the last page of the address space visits no page, so the call succeeds
      without mapping it. */
  lemma LastPageNotVisited()
    ensures PageCount(0xffff_ffff_ffff_f000, 0x1000) == 0
  {}

  /** MapThenTranslate: without R, W or X the mapped page reads as unmapped and is not a leaf, so
      unmap_page refuses it. */
  lemma MappedWithoutPermission(view: map<nat, Pte>, va: u64)
    ensures var mapped := view[Vpn(va) := MakePte(0x8000_0000, Or64(0, PTE_V))];
            Lookup(mapped, va) == 0 && !PteLeaf(mapped[Vpn(va)])
  {
    hide MakePte, PteToPa, PteLeaf, Or64;
    LeafPteValid(0x8000_0000, 0);
    ZeroPte();
  }

  /** MapThenTranslate: flag bit 10 changes the address. */
  lemma MappedElsewhere(view: map<nat, Pte>, va: u64)
    ensures var mapped := view[Vpn(va) := MakePte(0x8000_0000, Or64(0x402, PTE_V))];
            Lookup(mapped, va) != 0x8000_0000 + va % 0x1000
  {
    hide MakePte, PteToPa, PteLeaf, StrayFlags, And, Not, Or64, Vpn, Lookup, Page.IsPageAligned;
    MapThenTranslate(view, va, 0x8000_0000, 0x402);
    StrayBit();
    StrayLeaf();
  }

  lemma StrayLeaf()
    ensures PteLeaf(0x402)
  {
    hide PteLeaf;
    LeafIsBits(0x402);
    assert Bit(0x402, 1) == Bit(0x201, 0);
  }

  lemma StrayBit()
    ensures And(StrayFlags(Or64(0x402, PTE_V)), Not(0x8000_0000)) != 0
  {
    hide StrayFlags, And, Or, Not, Shr, Bit;
    var flags := Or64(0x402, PTE_V);
    StrayFlagsBit(0x8000_0000, flags, 12);
    OrBit(0x402, PTE_V, 10);
    ShiftedBits();
    ZeroBit(12);
  }

  lemma ShiftedBits()
    ensures Bit(0x402, 10) && !Bit(0x8000_0000, 12)
  {
    hide Shr;
    Shr10Is(0x402);
    ShrBit(0x402, 10, 0);
    Shr12Is(0x8000_0000);
    ShrBit(0x8000_0000, 12, 0);
  }

  // ---- one mapping

  /** A pool of the four pages from 0x8000_0000 on. */
  lemma FourPages()
    ensures var p := AfterInit(ByIndex, Range(0x8000_0000, 0x4000), []);
            p.total == 4 && p.free == {0, 1, 2, 3} && ManagedBase(Range(0x8000_0000, 0x4000)) == 0x8000_0000
    ensures 0x8000_0000 + 0x1000 * 4 <= PHYSICAL_LIMIT
  {
    hide ManagedPages, ManagedBase, AllReserved;
    SmallPool(Range(0x8000_0000, 0x4000), 4);
    NothingReserved(ByIndex, Range(0x8000_0000, 0x4000));
    assert InitialFree(ByIndex, 4) == {0, 1, 2, 3} by {
      assert ReleasedPage(ByIndex, 0) == 0 && ReleasedPage(ByIndex, 1) == 1;
      assert ReleasedPage(ByIndex, 2) == 2 && ReleasedPage(ByIndex, 3) == 3;
    }
  }

  lemma PoolOf(pmm: PageAllocator)
    requires pmm.Valid()
    ensures pmm.Abs().total == pmm.totalPages && pmm.usedBitmap.Length == BITMAP_WORDS
  {}

  /** The first page becomes the root, and two pages are left for its tables. */
  lemma RootOfFour(p: Pool)
    requires p.total == 4 && p.free == {0, 1, 2, 3}
    ensures p.Lowest(0) == 0 && !ReturnsNull(p, 0x8000_0000)
    ensures Grants(Taken(p), 0x8000_0000, 2)
  {
    TakenIs(p, 0x8000_0000);
    assert 0 in p.Available();
    assert Taken(p).Available() == {1, 2, 3};
  }

  lemma FewMissing(p: Pool, s: Shape, root: u64, v: nat)
    requires Grants(p, 0x8000_0000, 2)
    ensures Grants(p, 0x8000_0000, Missing(s, root, v))
  {}

  function FourFrames(page: Table): (memory: Frames)
    ensures forall i: nat :: i < 4 ==> PageAt(0x8000_0000, i) in memory
  {
    map[0x8000_0000 := page, 0x8000_1000 := page, 0x8000_2000 := page, 0x8000_3000 := page]
  }

  lemma PageZero()
    ensures Vpn(0) == 0 && Page.IsPageAligned(0) && Canonical(0)
  {}

  lemma NoTables(root: u64)
    ensures TablesBelow(map[], root)
  {}

  /** A kernel with four pages maps virtual page 0 once and asks for its translation. */
  method OneMapping(pa: u64, flags: u64) returns (spaces: AddressSpaces, root: u64, reported: u64)
    requires Page.IsPageAligned(pa)
    ensures Tree(spaces.frames, spaces.shape) && Top(root) in spaces.shape && TablesBelow(spaces.shape, root)
    ensures View(spaces.frames, spaces.shape, root) == map[0 := MakePte(pa, Or64(flags, PTE_V))]
    ensures reported == Lookup(View(spaces.frames, spaces.shape, root), 0)
  {
    hide *;
    FourPages();
    PageZero();
    var pmm := new PageAllocator(ByIndex);
    PoolOf(pmm);
    pmm.PmmInit(Range(0x8000_0000, 0x4000), []);
    PoolOf(pmm);
    ghost var p0 := pmm.Abs();
    RootOfFour(p0);
    var page: Table := seq(512, _ => 0);
    var memory := FourFrames(page);
    spaces := new AddressSpaces(pmm, memory);
    root := spaces.AllocPageTable();
    ghost var s1, p1 := spaces.shape, pmm.Abs();
    SpaceAdded(memory, map[], p0, spaces.frames, s1, p1, 0x8000_0000, root);
    FewMissing(p1, s1, root, Vpn(0));
    var ok := spaces.MapPage(root, 0, pa, flags);
    assert ok;
    GrownKeeps(map[], s1, spaces.shape, root, Vpn(0));
    assert Top(root) in spaces.shape;
    reported := spaces.VirtToPhys(root, 0);
    spaces.ValidParts();
    PaidChain(p0, map[], p1, s1, pmm.Abs(), spaces.shape, 0x8000_0000);
    PaidParts(p0, map[], pmm.Abs(), spaces.shape, 0x8000_0000);
    NoTables(root);
    BuiltBelow(p0, map[], pmm.Abs(), spaces.shape, 0x8000_0000, root);
  }

  /** W without R is a leaf for the source and a fault for the hardware. */
  lemma WriteOnlyEntry()
    ensures var pte := MakePte(0x9000_0000, Or64(PTE_W, PTE_V));
            PteLeaf(pte) && PteToPa(pte) == 0x9000_0000 && !HardwareLeaf(pte)
  {
    hide MakePte, PteToPa, PteLeaf, Or64;
    FlagsBounded(PTE_W, PTE_V);
    PageBases();
    LowFlagsDecode(0x9000_0000, Or64(PTE_W, PTE_V));
    LeafPteValid(0x9000_0000, PTE_W);
    LeafIsBits(PTE_W);
    WriteBits();
    LegalFlagBits(0x9000_0000, PTE_W, 1);
    LegalFlagBits(0x9000_0000, PTE_W, 2);
  }

  lemma WriteBits()
    ensures Bit(PTE_W, 2) && !Bit(PTE_W, 1)
  {}

  lemma PageBases()
    ensures Page.IsPageAligned(0x9000_0000)
  {
    hide Page.IsPageAligned;
  }

  /** SoftwareAgreesExactly: a page mapped with W and without R.  The source reports its address, the
      hardware faults. */
  method WriteOnly() returns (spaces: AddressSpaces, root: u64, reported: u64)
    ensures reported == 0x9000_0000 && Walk(spaces.frames, MakeSatp(root), 0) == PageFault
  {
    hide *;
    PageZero();
    PageBases();
    WriteOnlyEntry();
    spaces, root, reported := OneMapping(0x9000_0000, PTE_W);
    OnlyLookup(MakePte(0x9000_0000, Or64(PTE_W, PTE_V)));
    WalkIsHardwareLookup(spaces.frames, spaces.shape, root, 0);
  }

  lemma ReadableEntry()
    ensures var pte := MakePte(0, Or64(PTE_R, PTE_V));
            PteLeaf(pte) && PteToPa(pte) == 0 && HardwareLeaf(pte)
  {
    hide MakePte, PteToPa, PteLeaf, Or, HardwareLeaf;
    assert Bit(PTE_R, 1);
    LegalFlagsAccepted(0, PTE_R);
    LeafPteValid(0, PTE_R);
    LeafIsBits(PTE_R);
  }

  /** SoftwareAgreesExactly: physical page 0 is mapped readable.  The source reports it as unmapped, the
      hardware finds it. */
  method PhysicalPageZero() returns (spaces: AddressSpaces, root: u64, reported: u64)
    ensures reported == 0 && Walk(spaces.frames, MakeSatp(root), 0) == Physical(0)
  {
    hide *;
    PageZero();
    ReadableEntry();
    spaces, root, reported := OneMapping(0, PTE_R);
    OnlyLookup(MakePte(0, Or64(PTE_R, PTE_V)));
    WalkIsHardwareLookup(spaces.frames, spaces.shape, root, 0);
  }

  lemma OnlyLookup(pte: Pte)
    ensures PteLeaf(pte) ==> Lookup(map[0 := pte], 0) == PteToPa(pte) && Translated(pte, 0) == PteToPa(pte)
  {
    hide PteLeaf, PteToPa;
  }

  // ---- kernel_address_space.cpp

  /** RegionCoveredExactly: the last half page of this region is not mapped; a smaller region from the
      same base is mapped, although the base is not a page. */
  lemma RegionNotCovered()
    ensures !RegionCovers(0x1000_0800, 0x1000, 0x1000_1000)
    ensures forall a: int :: 0x1000_0800 <= a < 0x1000_0900 ==> RegionCovers(0x1000_0800, 0x100, a)
  {
    hide Page.AlignDown, Page.AlignUp;
  }

  // ---- scheduler.cpp

  /** RescheduleLosesExactly: after boot, a task is created and pushed.  A reschedule now, before the
      scheduler is started, forgets it. */
  lemma RescheduledTooEarly(s: Scheduling.Sched, trampoline: u64, entry: u64)
    ensures var w := Scheduling.Booted(s, trampoline, entry, 0x8010_0000, 0x1000);
            var steps := [Scheduling.CreateTask(trampoline, entry, 0x8020_0000, 0x1000), Scheduling.PushTask(1)];
            && w.s.idle.Some? && Scheduling.AllowedRun(w, steps)
            && var s' := Scheduling.Run(w, steps).s;
               s'.queue == [1] && Scheduling.Reschedule(s').queue == [] && Scheduling.Reschedule(s').current.None?
  {
    hide Scheduling.Booted, Scheduling.InitialContext, Scheduling.Allowed, Scheduling.Take;
    var w := Scheduling.Booted(s, trampoline, entry, 0x8010_0000, 0x1000);
    JustBooted(s, trampoline, entry);
    var create := Scheduling.CreateTask(trampoline, entry, 0x8020_0000, 0x1000);
    CreateAfterBoot(w, trampoline, entry);
    var steps := [create, Scheduling.PushTask(1)];
    var created := Scheduling.Take(w, create);
    PushAfterBoot(created);
    TwoSteps(w, [create, Scheduling.PushTask(1)]);
  }

  lemma OneStep(w: Scheduling.World, steps: seq<Scheduling.Step>)
    requires w.s.idle.Some? && |steps| == 1
    ensures Scheduling.Run(w, steps) == Scheduling.Take(w, steps[0])
    ensures Scheduling.AllowedRun(w, steps) <==> Scheduling.Allowed(w, steps[0])
  {
    hide Scheduling.Take, Scheduling.Allowed;
    assert steps[1..] == [];
    assert Scheduling.Run(Scheduling.Take(w, steps[0]), []) == Scheduling.Take(w, steps[0]);
    assert Scheduling.AllowedRun(Scheduling.Take(w, steps[0]), []);
  }

  lemma TwoSteps(w: Scheduling.World, steps: seq<Scheduling.Step>)
    requires w.s.idle.Some? && |steps| == 2
    ensures Scheduling.Run(w, steps) == Scheduling.Take(Scheduling.Take(w, steps[0]), steps[1])
    ensures Scheduling.AllowedRun(w, steps) <==>
            Scheduling.Allowed(w, steps[0]) && Scheduling.Allowed(Scheduling.Take(w, steps[0]), steps[1])
  {
    hide Scheduling.Take, Scheduling.Allowed;
    OneStep(Scheduling.Take(w, steps[0]), steps[1..]);
  }

  lemma JustBooted(s: Scheduling.Sched, trampoline: u64, entry: u64)
    ensures var w := Scheduling.Booted(s, trampoline, entry, 0x8010_0000, 0x1000);
            && w.s.idle == Scheduling.Some(0) && w.s.current.None? && w.s.queue == [] && w.pushed == {}
            && Scheduling.FirstEmpty(w.s.slots, 0) == 1
  {
    hide Scheduling.InitialContext;
    var w := Scheduling.Booted(s, trampoline, entry, 0x8010_0000, 0x1000);
    assert Scheduling.FirstEmpty(Scheduling.Cleared(s).slots, 0) == 0;
    assert w.s.slots[0].state == Scheduling.Ready;
    assert Scheduling.FirstEmpty(w.s.slots, 0) == 1;
  }

  lemma CreateAfterBoot(w: Scheduling.World, trampoline: u64, entry: u64)
    requires w.s.idle == Scheduling.Some(0) && w.s.current.None? && w.s.queue == [] && w.pushed == {}
    requires Scheduling.FirstEmpty(w.s.slots, 0) == 1
    ensures var step := Scheduling.CreateTask(trampoline, entry, 0x8020_0000, 0x1000);
            var w' := Scheduling.Take(w, step);
            && Scheduling.Allowed(w, step)
            && w'.s.idle == Scheduling.Some(0) && w'.s.current.None? && w'.s.queue == [] && w'.pushed == {}
            && w'.s.Occupied(1)
  {
    hide Scheduling.InitialContext;
  }

  lemma PushAfterBoot(w: Scheduling.World)
    requires w.s.idle == Scheduling.Some(0) && w.s.current.None? && w.s.queue == [] && w.pushed == {}
    requires w.s.Occupied(1)
    ensures var w' := Scheduling.Take(w, Scheduling.PushTask(1));
            Scheduling.Allowed(w, Scheduling.PushTask(1)) && w'.s.queue == [1] && w'.s.current.None?
  {}
}
