/** `kernel/mm/kernel_address_space.cpp`: the address space the kernel boots with. */
module KernelAddressSpaces {
  import opened Word64
  import opened Sv39
  import opened PageTree
  import opened PageRange
  import opened Pmm
  import opened PageSupply
  import opened PageTables
  import opened PmmProperties
  import opened PageTableRuns
  import opened Sv39Walk
  import opened HardwareRuns
  import Page

  // platform/qemu/memmap.h
  const DRAM: Range := Range(0x8000_0000, 0x800_0000)
  const UART0: Range := Range(0x1000_0000, 0x100)
  const CLINT: Range := Range(0x200_0000, 0x1_0000)

  const DRAM_PAGES: nat := 0x8000
  const UART0_PAGES: nat := 1
  const CLINT_PAGES: nat := 16

  const DRAM_FLAGS: u64 := Or64(PTE_R, Or64(PTE_W, Or64(PTE_X, Or64(PTE_A, PTE_D))))
  const DEVICE_FLAGS: u64 := Or64(PTE_R, Or64(PTE_W, Or64(PTE_A, PTE_D)))

  /** The pages of the three regions. */
  predicate Booted(va: u64) {
    || DRAM.base <= va < DRAM.base + 0x1000 * DRAM_PAGES
    || UART0.base <= va < UART0.base + 0x1000 * UART0_PAGES
    || CLINT.base <= va < CLINT.base + 0x1000 * CLINT_PAGES
  }

  function WithDram(k: nat): map<nat, Pte> {
    Extend(map[], DRAM.base, DRAM.base, DRAM_FLAGS, k)
  }

  function WithUart(k: nat, l: nat): map<nat, Pte> {
    Extend(WithDram(k), UART0.base, UART0.base, DEVICE_FLAGS, l)
  }

  function WithClint(k: nat, l: nat, n: nat): map<nat, Pte> {
    Extend(WithUart(k, l), CLINT.base, CLINT.base, DEVICE_FLAGS, n)
  }

  /** The tables of the boot address space: 1 root, 1 + 64 for DRAM, 1 + 1 for the UART, 1 more for
      the CLINT. */
  const BOOT_TABLES: nat := 69

  predicate EnoughForBoot(p: Pool, base: u64) {
    |p.Available()| >= BOOT_TABLES && !ZeroPageFree(p, base)
  }

  class KernelAddressSpace {
    const spaces: AddressSpaces
    var kernelPageTable: u64

    constructor (spaces: AddressSpaces)
      ensures this.spaces == spaces && kernelPageTable == 0
    {
      this.spaces := spaces;
      kernelPageTable := 0;
    }

    /** Base and size are rounded independently.  A successful call below 2^39 makes exactly the bytes from
        the rounded base for the rounded size translate to themselves; RegionCoveredExactly says when
        these include the region asked for. */
    method MapDeviceRegion(root: u64, base: u64, size: u64) returns (ok: bool, ghost mapped: nat)
      requires spaces.Valid() && (root == 0 || Top(root) in spaces.shape)
      modifies spaces`frames, spaces`shape, spaces.pmm.usedBitmap, spaces.pmm`freePages
      ensures spaces.Valid()
      ensures RangeMapped(old(spaces.frames), old(spaces.shape), old(spaces.pmm.Abs()),
                          spaces.frames, spaces.shape, spaces.pmm.Abs(), spaces.pmm.managedBase, root,
                          Page.AlignDown(base), Page.AlignUp(size), DEVICE_FLAGS, ok, mapped)
      ensures ok && Page.AlignDown(base) + Page.AlignUp(size) <= 0x80_0000_0000 ==>
                forall a: u64 :: a < 0x80_0000_0000 ==>
                  Lookup(View(spaces.frames, spaces.shape, root), a) ==
                  if RegionCovers(base, size, a) then a else Lookup(View(old(spaces.frames), old(spaces.shape), root), a)
      ensures Page.AlignDown(base) + Page.AlignUp(size) <= 0x80_0000_0000 ==>
                forall v: nat ::
                  var before, after := View(old(spaces.frames), old(spaces.shape), root), View(spaces.frames, spaces.shape, root);
                  if Page.AlignDown(base) / 0x1000 <= v < Page.AlignDown(base) / 0x1000 + mapped
                  then v in after && after[v] == 0x400 * v + 0xC7 && MapsPage(after[v], v, {0, 1, 2, 6, 7})
                  else (v in after <==> v in before) && (v in after ==> after[v] == before[v])
    {
      hide *;
      AlignDownIs(base);
      ok, mapped := spaces.MapRange(root, Page.AlignDown(base), Page.AlignDown(base), Page.AlignUp(size), DEVICE_FLAGS);
      RangeMappedIs(old(spaces.frames), old(spaces.shape), old(spaces.pmm.Abs()),
                    spaces.frames, spaces.shape, spaces.pmm.Abs(), spaces.pmm.managedBase, root,
                    Page.AlignDown(base), Page.AlignUp(size), DEVICE_FLAGS, ok, mapped);
      if Page.AlignDown(base) + Page.AlignUp(size) <= 0x80_0000_0000 {
        if ok {
          RegionTranslates(View(old(spaces.frames), old(spaces.shape), root), base, size);
        }
        RegionEntries(View(old(spaces.frames), old(spaces.shape), root), Page.AlignDown(base), Page.AlignUp(size), mapped);
      }
    }

    /** The results of the three mapping calls are ignored, as in the source.  The root takes one page
        and the regions take the next ones in turn; every page of the three regions is mapped to itself
        exactly when the allocator has 69 pages to give.  DRAM entries have the flags V, R, W, X, A and D,
        device entries all of these but X. */
    method Init()
      requires spaces.Valid()
      modifies this`kernelPageTable, spaces`frames, spaces`shape, spaces.pmm.usedBitmap, spaces.pmm`freePages
      ensures spaces.Valid()
      ensures kernelPageTable == 0 <==> ReturnsNull(old(spaces.pmm.Abs()), spaces.pmm.managedBase)
      ensures kernelPageTable == 0 ==>
                spaces.frames == old(spaces.frames) && spaces.shape == old(spaces.shape) && spaces.pmm.Abs() == Taken(old(spaces.pmm.Abs()))
      ensures kernelPageTable != 0 ==>
                && Top(kernelPageTable) in spaces.shape && Top(kernelPageTable) !in old(spaces.shape)
                && BootHolds(View(spaces.frames, spaces.shape, kernelPageTable), old(spaces.pmm.Abs()), spaces.pmm.Abs(),
                             spaces.pmm.managedBase)
      ensures Kept(old(spaces.shape), spaces.shape)
      ensures Paid(old(spaces.pmm.Abs()), old(spaces.shape), spaces.pmm.Abs(), spaces.shape, spaces.pmm.managedBase)
      ensures forall r: u64 :: Top(r) in old(spaces.shape) ==>
                View(spaces.frames, spaces.shape, r) == View(old(spaces.frames), old(spaces.shape), r)
      ensures DataKept(old(spaces.frames), spaces.frames, spaces.shape)
      ensures EnoughForBoot(old(spaces.pmm.Abs()), spaces.pmm.managedBase) ==>
                && kernelPageTable != 0
                && |spaces.pmm.Abs().Available()| == |old(spaces.pmm.Abs()).Available()| - BOOT_TABLES
      ensures EnoughForBoot(old(spaces.pmm.Abs()), spaces.pmm.managedBase)
              && spaces.pmm.managedBase + 0x1000 * old(spaces.pmm.Abs()).total <= PHYSICAL_LIMIT ==>
                forall a: u64 :: a < 0x40_0000_0000 ==>
                  Walk(spaces.frames, MakeSatp(kernelPageTable), a) == if Booted(a) then Physical(a) else PageFault
    {
      hide *;
      ghost var p0, base := spaces.pmm.Abs(), spaces.pmm.managedBase;
      BootRanges();
      spaces.ValidParts();
      kernelPageTable := spaces.AllocPageTable();
      RootTaken(p0, base);
      SpaceAdded(old(spaces.frames), old(spaces.shape), p0, spaces.frames, spaces.shape, spaces.pmm.Abs(), base, kernelPageTable);
      if kernelPageTable == 0 {
        return;
      }
      ghost var root := kernelPageTable;
      ghost var f1, s1, p1 := spaces.frames, spaces.shape, spaces.pmm.Abs();
      var ok1, k := spaces.MapRange(kernelPageTable, DRAM.base, DRAM.base, DRAM.size, DRAM_FLAGS);
      ghost var f2, s2, p2 := spaces.frames, spaces.shape, spaces.pmm.Abs();
      RangeMappedIs(f1, s1, p1, f2, s2, p2, base, root, DRAM.base, DRAM.size, DRAM_FLAGS, ok1, k);
      StillThere(f1, s1, p1, f2, s2, p2, base, root, DRAM.base, DRAM.size, DRAM_FLAGS, ok1, k);
      var ok2, l := MapDeviceRegion(kernelPageTable, UART0.base, UART0.size);
      ghost var f3, s3, p3 := spaces.frames, spaces.shape, spaces.pmm.Abs();
      StillThere(f2, s2, p2, f3, s3, p3, base, root, UART0.base, 0x1000, DEVICE_FLAGS, ok2, l);
      var ok3, n := MapDeviceRegion(kernelPageTable, CLINT.base, CLINT.size);
      ghost var f4, s4, p4 := spaces.frames, spaces.shape, spaces.pmm.Abs();
      StillThere(f3, s3, p3, f4, s4, p4, base, root, CLINT.base, CLINT.size, DEVICE_FLAGS, ok3, n);
      spaces.ValidParts();
      OnlyRoot(old(spaces.frames), old(spaces.shape), root);
      BootDone(old(spaces.frames), old(spaces.shape), p0, f1, s1, p1, f2, s2, p2, f3, s3, p3, f4, s4, p4, base, root,
               ok1, k, ok2, l, ok3, n);
      if EnoughForBoot(p0, base) && base + 0x1000 * p0.total <= PHYSICAL_LIMIT {
        NoTablesYet(old(spaces.frames), old(spaces.shape), root);
        BootWalks(old(spaces.shape), p0, f4, s4, p4, base, root);
      }
    }
  }

  /** The bytes that map_device_region maps for a region. */
  predicate RegionCovers(base: u64, size: u64, a: int) {
    Page.AlignDown(base) <= a < Page.AlignDown(base) + Page.AlignUp(size)
  }

  /** Every byte of the region is among them exactly when the part of the first page below the base fits
      in what rounding the size up adds: in particular for page-aligned bases, unless rounding the size
      leaves 64 bits. */
  lemma RegionCoveredExactly(base: u64, size: u64)
    requires size > 0
    ensures (forall a: int :: base <= a < base + size ==> RegionCovers(base, size, a)) <==>
            base % 0x1000 + size <= Page.AlignUp(size)
    ensures base % 0x1000 == 0 && size <= WORD_LIMIT - 0x1000 ==> base % 0x1000 + size <= Page.AlignUp(size)
  {
    assert Page.AlignDown(base) == base - base % 0x1000 by { BaseOfPage(base); }
    if base % 0x1000 + size > Page.AlignUp(size) {
      assert !RegionCovers(base, size, base + size - 1);
    }
  }

  lemma BaseOfPage(base: u64)
    ensures Page.AlignDown(base) == base - base % 0x1000
  {
    hide Page.AlignDown;
  }

  lemma RegionTranslates(m: map<nat, Pte>, base: u64, size: u64)
    requires Page.AlignDown(base) + Page.AlignUp(size) <= 0x80_0000_0000
    ensures var down := Page.AlignDown(base);
            forall a: u64 :: a < 0x80_0000_0000 ==>
              Lookup(Extend(m, down, down, DEVICE_FLAGS, PageCount(down, Page.AlignUp(size))), a) ==
              if RegionCovers(base, size, a) then a else Lookup(m, a)
  {
    hide Extend, Lookup, PageCount;
    var down, up := Page.AlignDown(base), Page.AlignUp(size);
    BootFlagsLegal();
    PagesOf(down, up);
    forall a: u64 | a < 0x80_0000_0000
      ensures Lookup(Extend(m, down, down, DEVICE_FLAGS, PageCount(down, up)), a) ==
              if RegionCovers(base, size, a) then a else Lookup(m, a)
    {
      IdentityRange(m, down, DEVICE_FLAGS, PageCount(down, up), a);
    }
  }

  lemma PagesOf(va: u64, size: u64)
    requires va % 0x1000 == 0 && size % 0x1000 == 0 && va + size <= 0x80_0000_0000
    ensures 0x1000 * PageCount(va, size) == size
  {
    hide PageCount, Page.AlignUp;
    PageCountExact(va, size);
    assert size == 0x1000 * (size / 0x1000);
  }

  /** What map_range did, for an identity mapping from page `va` on. */
  ghost predicate RangeMapped(f: Frames, s: Shape, p: Pool, f': Frames, s': Shape, p': Pool, base: u64, root: u64,
                              va: u64, size: u64, flags: u64, ok: bool, mapped: nat) {
    var m, count := View(f, s, root), PageCount(va, size);
    && mapped <= count
    && View(f', s', root) == Extend(m, va, va, flags, mapped)
    && OthersKept(f, s, f', s', root)
    && Kept(s, s') && Paid(p, s, p', s', base)
    && (ok ==> mapped == count && GrownBy(s, s', root, va, mapped))
    && (ok ==> (ZeroPageFree(p, base) <==> ZeroPageFree(p', base)))
    && Mappable(m, s, p, base, root, va, mapped)
    && (mapped < count ==> root == 0 || !Mappable(m, s, p, base, root, va, mapped + 1))
    && (ok <==> size == 0 || count == 0 || (root != 0 && Mappable(m, s, p, base, root, va, count)))
    && GrownWithin(s, s', root, va, count)
    && (if root == 0 || count == 0 then f' == f && s' == s && p' == p
        else Took(p, s, p', s', base, |Needed(s, root, va, Attempted(View(f', s', root), va, mapped, count))|))
    && DataKept(f, f', s')
  }

  lemma RangeMappedIs(f: Frames, s: Shape, p: Pool, f': Frames, s': Shape, p': Pool, base: u64, root: u64,
                      va: u64, size: u64, flags: u64, ok: bool, mapped: nat)
    requires mapped <= PageCount(va, size)
    requires View(f', s', root) == Extend(View(f, s, root), va, va, flags, mapped)
    requires OthersKept(f, s, f', s', root) && Kept(s, s') && Paid(p, s, p', s', base)
    requires ok ==> mapped == PageCount(va, size) && GrownBy(s, s', root, va, mapped)
    requires ok ==> (ZeroPageFree(p, base) <==> ZeroPageFree(p', base))
    requires Mappable(View(f, s, root), s, p, base, root, va, mapped)
    requires ok <==> || size == 0
                     || PageCount(va, size) == 0
                     || (root != 0 && Mappable(View(f, s, root), s, p, base, root, va, PageCount(va, size)))
    requires Page.IsPageAligned(va) && GrownWithin(s, s', root, va, PageCount(va, size)) && DataKept(f, f', s')
    requires mapped < PageCount(va, size) ==>
               root == 0 || !Page.IsPageAligned(va) || !Mappable(View(f, s, root), s, p, base, root, va, mapped + 1)
    requires if root == 0 || !Page.IsPageAligned(va) || PageCount(va, size) == 0 then f' == f && s' == s && p' == p
             else Took(p, s, p', s', base,
                       |Needed(s, root, va, Attempted(View(f', s', root), va, mapped, PageCount(va, size)))|)
    ensures RangeMapped(f, s, p, f', s', p', base, root, va, size, flags, ok, mapped)
  {
    hide Mappable, View, Extend, PageCount, OthersKept, GrownBy, GrownWithin, ZeroPageFree, Paid, Kept, Took, Needed,
      Attempted, DataKept, Page.IsPageAligned;
  }

  lemma AlignDownIs(base: u64)
    ensures Page.IsPageAligned(Page.AlignDown(base))
  {}

  lemma RootTaken(p: Pool, base: u64)
    ensures EnoughForBoot(p, base) <==> !ReturnsNull(p, base) && |Taken(p).Available()| >= BOOT_TABLES - 1
    ensures EnoughForBoot(p, base) ==> |p.Available()| >= BOOT_TABLES
    ensures !ReturnsNull(p, base) ==>
              && !ZeroPageFree(p, base) && !ZeroPageFree(Taken(p), base)
              && |Taken(p).Available()| == |p.Available()| - 1
  {
    TakenIs(p, base);
    GrantsStep(p, base, 0);
    if p.Available() == {} {
      assert |p.Available()| == 0;
    }
  }

  lemma StillThere(f: Frames, s: Shape, p: Pool, f': Frames, s': Shape, p': Pool, base: u64, root: u64,
                   va: u64, size: u64, flags: u64, ok: bool, mapped: nat)
    requires RangeMapped(f, s, p, f', s', p', base, root, va, size, flags, ok, mapped)
    ensures Top(root) in s ==> Top(root) in s'
  {
    hide Mappable, View, Extend, PageCount, GrownBy, ZeroPageFree, Paid;
  }

  lemma BootRanges()
    ensures Page.IsPageAligned(DRAM.base)
    ensures Page.AlignDown(UART0.base) == UART0.base && Page.AlignUp(UART0.size) == 0x1000
    ensures Page.AlignDown(CLINT.base) == CLINT.base && Page.AlignUp(CLINT.size) == CLINT.size
    ensures PageCount(DRAM.base, DRAM.size) == DRAM_PAGES
    ensures PageCount(UART0.base, 0x1000) == UART0_PAGES
    ensures PageCount(CLINT.base, CLINT.size) == CLINT_PAGES
  {
    hide PageCount;
    AlignedUp(UART0.size, 0x1000);
    AlignedUp(CLINT.size, CLINT.size);
    CountOf(DRAM.base, DRAM.size);
    CountOf(UART0.base, 0x1000);
    CountOf(CLINT.base, CLINT.size);
    AlignedDown(UART0.base);
    AlignedDown(CLINT.base);
  }

  lemma AlignedUp(x: u64, up: u64)
    requires up % 0x1000 == 0 && x <= up < x + 0x1000 && up < 0x1_0000_0000
    ensures Page.AlignUp(x) == up
  {}

  lemma AlignedDown(x: u64)
    requires x % 0x1000 == 0
    ensures Page.AlignDown(x) == x
  {}

  lemma CountOf(va: u64, size: u64)
    requires va % 0x1000 == 0 && size % 0x1000 == 0 && 0 < size && va + size < 0x1_0000_0000
    ensures PageCount(va, size) == size / 0x1000
  {
    AlignedUp(va + size, va + size);
  }

  // ---- the tables of the three regions

  /** The tables for the first k pages of DRAM: one for the gigabyte and one for every 512 pages. */
  function DramNodes(root: u64, k: nat): set<Node> {
    if k == 0 then {} else RegionNodes(root, 2, 3, 0x400, 0x400 + (k + 511) / 512)
  }

  function DramTables(k: nat): nat {
    if k == 0 then 0 else 1 + (k + 511) / 512
  }

  function UartNodes(root: u64): set<Node> {
    {Mid(root, 0), Bottom(root, 0, 128)}
  }

  function ClintNodes(root: u64): set<Node> {
    {Mid(root, 0), Bottom(root, 0, 16)}
  }

  lemma {:induction false} PathHas(root: u64, va: u64, k: nat, i: nat)
    requires i < k
    ensures NodeAt(root, NthVpn(va, i), 1) in PathNodes(root, va, k)
    ensures NodeAt(root, NthVpn(va, i), 0) in PathNodes(root, va, k)
  {
    hide NthVpn, NodeAt;
    if i != k - 1 {
      PathHas(root, va, k - 1, i);
    }
  }

  lemma DramPath(root: u64, k: nat)
    requires k <= DRAM_PAGES
    ensures PathNodes(root, DRAM.base, k) == DramNodes(root, k)
    ensures |DramNodes(root, k)| == DramTables(k) <= DramTables(DRAM_PAGES) == 65
  {
    hide PathNodes, RegionNodes, Vpn;
    assert Vpn(DRAM.base) == 0x8_0000 by { DramVpn(); }
    if k == 0 {
      NoPath(root, DRAM.base);
    } else {
      PathInRegions(root, DRAM.base, k, 0x8_0000 + k - 1);
      assert (0x8_0000 + k - 1) / 512 + 1 == 0x400 + (k + 511) / 512 && (0x8_0000 + k - 1) / 0x4_0000 + 1 == 3;
      RegionCount(root, 2, 3, 0x400, 0x400 + (k + 511) / 512);
      forall n | n in DramNodes(root, k)
        ensures n in PathNodes(root, DRAM.base, k)
      {
        DramNodeReached(root, n, k);
      }
    }
  }

  lemma DramVpn()
    ensures Vpn(DRAM.base) == 0x8_0000
  {}

  lemma NoPath(root: u64, va: u64)
    ensures PathNodes(root, va, 0) == {}
  {}

  lemma DramNodeReached(root: u64, n: Node, k: nat)
    requires 0 < k <= DRAM_PAGES && n in DramNodes(root, k)
    ensures n in PathNodes(root, DRAM.base, k)
  {
    hide PathNodes;
    if n.Mid? {
      assert n == Mid(root, 2);
      DramPageNodes(root, 0x400, k);
    } else {
      var j: nat :| 0x400 <= j < 0x400 + (k + 511) / 512 && n == Bottom(root, j / 512, j % 512);
      DramPageNodes(root, j, k);
    }
  }

  /** The tables of the first page of a 2 MiB region of DRAM. */
  lemma DramPageNodes(root: u64, j: nat, k: nat)
    requires 0 < k <= DRAM_PAGES && 0x400 <= j < 0x400 + (k + 511) / 512
    ensures Mid(root, 2) in PathNodes(root, DRAM.base, k) && Bottom(root, j / 512, j % 512) in PathNodes(root, DRAM.base, k)
  {
    hide PathNodes, Vpn, NodeAt, NthVpn;
    var i := 512 * (j - 0x400);
    assert i < k;
    DramVpn();
    PathHas(root, DRAM.base, k, i);
    NthVpnInSpace(DRAM.base, i);
    NodesByRegion(root, 512 * j);
    DramRegion(j);
  }

  lemma DramRegion(j: nat)
    requires 0x400 <= j < 0x440
    ensures 512 * j / 0x4_0000 == 2 && 512 * j / 512 == j
  {}

  lemma {:induction false} SamePath(root: u64, va: u64, k: nat, n1: Node, n0: Node)
    requires forall i: nat :: i < k ==> NodeAt(root, NthVpn(va, i), 1) == n1 && NodeAt(root, NthVpn(va, i), 0) == n0
    ensures PathNodes(root, va, k) == if k == 0 then {} else {n1, n0}
  {
    hide NthVpn, NodeAt;
    if k != 0 {
      SamePath(root, va, k - 1, n1, n0);
      assert k - 1 < k;
    }
  }

  lemma DevicePaths(root: u64, k: nat)
    ensures k <= UART0_PAGES ==> PathNodes(root, UART0.base, k) == if k == 0 then {} else UartNodes(root)
    ensures k <= CLINT_PAGES ==> PathNodes(root, CLINT.base, k) == if k == 0 then {} else ClintNodes(root)
  {
    hide PathNodes;
    assert Vpn(UART0.base) == 0x1_0000 && Vpn(CLINT.base) == 0x2000;
    if k <= UART0_PAGES {
      forall i: nat | i < k
        ensures NodeAt(root, NthVpn(UART0.base, i), 1) == Mid(root, 0)
        ensures NodeAt(root, NthVpn(UART0.base, i), 0) == Bottom(root, 0, 128)
      {
        NthVpnInSpace(UART0.base, i);
        NodesByRegion(root, 0x1_0000 + i);
      }
      SamePath(root, UART0.base, k, Mid(root, 0), Bottom(root, 0, 128));
    }
    if k <= CLINT_PAGES {
      forall i: nat | i < k
        ensures NodeAt(root, NthVpn(CLINT.base, i), 1) == Mid(root, 0)
        ensures NodeAt(root, NthVpn(CLINT.base, i), 0) == Bottom(root, 0, 16)
      {
        NthVpnInSpace(CLINT.base, i);
        NodesByRegion(root, 0x2000 + i);
      }
      SamePath(root, CLINT.base, k, Mid(root, 0), Bottom(root, 0, 16));
    }
  }

  // ---- the stages

  /** The root was just allocated: it has no tables below it. */
  ghost predicate Fresh(s: Shape, root: u64) {
    forall n :: n in s && n.root == root ==> n == Top(root)
  }

  lemma OnlyRoot(f: Frames, s: Shape, root: u64)
    requires Tree(f, s) && Top(root) !in s
    ensures Fresh(s[Top(root) := root], root)
  {
    hide Linked, LeavesValid, Placed, Separate;
  }

  /** The page after the last mapped one is not mapped either. */
  lemma NextUnmapped(m: map<nat, Pte>, va: u64, pa: u64, flags: u64, k: nat, count: nat)
    requires k < count <= VPN_LIMIT && forall i: nat :: i < count ==> NthVpn(va, i) !in m
    ensures Attempted(Extend(m, va, pa, flags, k), va, k, count) == k + 1
  {
    hide Extend, NthVpn;
    ExtendAt(m, va, pa, flags, k, NthVpn(va, k));
    forall i: nat | i < k
      ensures NthVpn(va, i) != NthVpn(va, k)
    {
      NthVpnDistinct(va, i, k);
    }
  }

  lemma AfterTook(p: Pool, s: Shape, p': Pool, s': Shape, base: u64, n: nat)
    requires Took(p, s, p', s', base, n) && !ZeroPageFree(p, base)
    ensures !ZeroPageFree(p', base) && |p'.Available()| == |p.Available()| - Min(n, |p.Available()|)
  {
    hide Taken, Pool.Available;
    TakenManyIs(p, base, n);
  }

  /** One range in a state where no page of it is mapped and `needed` tables are missing: it
      succeeds exactly when that many pages are left, and otherwise maps the pages whose tables are
      there and leaves no page. */
  lemma Stage(f: Frames, s: Shape, p: Pool, f': Frames, s': Shape, p': Pool, base: u64, root: u64,
              va: u64, size: u64, flags: u64, ok: bool, mapped: nat, needed: nat)
    requires RangeMapped(f, s, p, f', s', p', base, root, va, size, flags, ok, mapped)
    requires root != 0 && size != 0 && 0 < PageCount(va, size) <= VPN_LIMIT && !ZeroPageFree(p, base)
    requires forall i: nat :: i < PageCount(va, size) ==> NthVpn(va, i) !in View(f, s, root)
    requires |Needed(s, root, va, PageCount(va, size))| == needed
    ensures ok <==> |p.Available()| >= needed
    ensures ok <==> mapped == PageCount(va, size)
    ensures !ok ==> |Needed(s, root, va, mapped)| <= |p.Available()| < |Needed(s, root, va, mapped + 1)|
    ensures s.Keys <= s'.Keys <= s.Keys + PathNodes(root, va, PageCount(va, size))
    ensures ok ==> s'.Keys == s.Keys + PathNodes(root, va, PageCount(va, size))
    ensures !ZeroPageFree(p', base) && |p'.Available()| == |p.Available()| - Min(needed, |p.Available()|)
  {
    hide View, Extend, PageCount, PathNodes, Needed, ZeroPageFree, NthVpn, Paid, Took, Attempted, DataKept, OthersKept, Kept,
      Pool.Available;
    var count := PageCount(va, size);
    var m := View(f, s, root);
    AfterTook(p, s, p', s', base, |Needed(s, root, va, Attempted(View(f', s', root), va, mapped, count))|);
    NeededGrows(s, root, va, mapped, count);
    SubsetSize(Needed(s, root, va, mapped), Needed(s, root, va, count));
    if mapped < count {
      NextUnmapped(m, va, va, flags, mapped, count);
      NeededGrows(s, root, va, mapped + 1, count);
      SubsetSize(Needed(s, root, va, mapped + 1), Needed(s, root, va, count));
    } else {
      AllAttempted(View(f', s', root), va, count);
    }
  }

  /** With a pages left for its tables, this many pages of DRAM are mapped: the first table serves none,
      each other one 512. */
  function DramPages(a: nat): nat {
    if a == 0 then 0 else if a >= 65 then 0x8000 else 512 * (a - 1)
  }

  lemma DramPrefix(a: nat, k: nat)
    requires k <= DRAM_PAGES && DramTables(k) <= a
    requires k < DRAM_PAGES ==> a < DramTables(k + 1)
    requires k == DRAM_PAGES <==> a >= 65
    ensures k == DramPages(a)
  {}

  lemma DramStage(f: Frames, s: Shape, p: Pool, f': Frames, s': Shape, p': Pool, base: u64, root: u64, ok: bool, k: nat)
    requires root != 0 && Fresh(s, root) && View(f, s, root) == map[] && !ZeroPageFree(p, base)
    requires RangeMapped(f, s, p, f', s', p', base, root, DRAM.base, DRAM.size, DRAM_FLAGS, ok, k)
    ensures k == DramPages(|p.Available()|) <= DRAM_PAGES && View(f', s', root) == WithDram(k)
    ensures s.Keys <= s'.Keys <= s.Keys + DramNodes(root, DRAM_PAGES)
    ensures !ZeroPageFree(p', base) && |p'.Available()| == |p.Available()| - Min(65, |p.Available()|)
  {
    hide RangeMapped, Fresh, View, Extend, PageCount, PathNodes, Needed, ZeroPageFree, NthVpn, DramNodes, Or64, Pool.Available,
      DramPages, DramTables;
    BootRanges();
    DramPath(root, DRAM_PAGES);
    DramMissing(s, root, DRAM_PAGES);
    RangeView(f, s, p, f', s', p', base, root, DRAM.base, DRAM.size, DRAM_FLAGS, ok, k);
    DramMissing(s, root, k);
    Stage(f, s, p, f', s', p', base, root, DRAM.base, DRAM.size, DRAM_FLAGS, ok, k, 65);
    if k < DRAM_PAGES {
      DramMissing(s, root, k + 1);
    }
    DramPrefix(|p.Available()|, k);
  }

  lemma UartStage(s1: Shape, f: Frames, s: Shape, p: Pool, f': Frames, s': Shape, p': Pool, base: u64, root: u64,
                  k: nat, ok: bool, l: nat)
    requires root != 0 && Fresh(s1, root) && s.Keys <= s1.Keys + DramNodes(root, DRAM_PAGES) && k <= DRAM_PAGES
    requires View(f, s, root) == WithDram(k) && !ZeroPageFree(p, base)
    requires RangeMapped(f, s, p, f', s', p', base, root, UART0.base, 0x1000, DEVICE_FLAGS, ok, l)
    ensures l == (if |p.Available()| >= 2 then 1 else 0) && View(f', s', root) == WithUart(k, l)
    ensures s'.Keys <= s.Keys + UartNodes(root)
    ensures |p.Available()| >= 2 ==> s'.Keys == s.Keys + UartNodes(root)
    ensures !ZeroPageFree(p', base) && |p'.Available()| == |p.Available()| - Min(2, |p.Available()|)
  {
    hide RangeMapped, Fresh, View, WithDram, Extend, PageCount, PathNodes, ZeroPageFree, NthVpn, DramNodes, UartNodes, Or64,
      Pool.Available;
    BootRanges();
    DevicePaths(root, UART0_PAGES);
    UartMissing(s1, s, root);
    DevicesNotInDram(k);
    RangeView(f, s, p, f', s', p', base, root, UART0.base, 0x1000, DEVICE_FLAGS, ok, l);
    Stage(f, s, p, f', s', p', base, root, UART0.base, 0x1000, DEVICE_FLAGS, ok, l, 2);
  }

  lemma ClintStage(s1: Shape, s2: Shape, f: Frames, s: Shape, p: Pool, f': Frames, s': Shape, p': Pool, base: u64,
                   root: u64, k: nat, l: nat, ok: bool, n: nat)
    requires root != 0 && Fresh(s1, root) && s2.Keys <= s1.Keys + DramNodes(root, DRAM_PAGES)
    requires s.Keys <= s2.Keys + UartNodes(root) && (|p.Available()| > 0 ==> s.Keys == s2.Keys + UartNodes(root))
    requires k <= DRAM_PAGES && l <= UART0_PAGES && View(f, s, root) == WithUart(k, l) && !ZeroPageFree(p, base)
    requires RangeMapped(f, s, p, f', s', p', base, root, CLINT.base, CLINT.size, DEVICE_FLAGS, ok, n)
    ensures n == (if |p.Available()| >= 1 then 16 else 0) && View(f', s', root) == WithClint(k, l, n)
    ensures |p'.Available()| == |p.Available()| - Min(1, |p.Available()|)
  {
    hide RangeMapped, Fresh, View, WithUart, Extend, PageCount, PathNodes, ZeroPageFree, NthVpn, DramNodes, UartNodes, ClintNodes,
      Or64, Pool.Available;
    BootRanges();
    DevicePaths(root, CLINT_PAGES);
    ClintMissing(s1, s2, s, root);
    ClintNotInUart(k, l);
    RangeView(f, s, p, f', s', p', base, root, CLINT.base, CLINT.size, DEVICE_FLAGS, ok, n);
    Stage(f, s, p, f', s', p', base, root, CLINT.base, CLINT.size, DEVICE_FLAGS, ok, n, |ClintNodes(root) - s.Keys|);
    if !ok {
      DevicePaths(root, n);
      DevicePaths(root, n + 1);
      SameNeeded(s, root, n);
    }
  }

  /** All pages of the CLINT share their tables. */
  lemma SameNeeded(s: Shape, root: u64, n: nat)
    requires n < CLINT_PAGES
    ensures n > 0 ==> |Needed(s, root, CLINT.base, n)| == |Needed(s, root, CLINT.base, n + 1)|
  {
    hide PathNodes, ClintNodes;
    DevicePaths(root, n);
    DevicePaths(root, n + 1);
  }

  lemma RangeView(f: Frames, s: Shape, p: Pool, f': Frames, s': Shape, p': Pool, base: u64, root: u64,
                  va: u64, size: u64, flags: u64, ok: bool, mapped: nat)
    requires RangeMapped(f, s, p, f', s', p', base, root, va, size, flags, ok, mapped)
    ensures mapped <= PageCount(va, size) && View(f', s', root) == Extend(View(f, s, root), va, va, flags, mapped)
  {}

  /** The boot address space after the root was allocated, by the number of pages left: DRAM comes first
      and needs 65 tables, the UART needs two more and the CLINT one; a region that misses tables takes
      what is left. */
  lemma BootStages(f1: Frames, s1: Shape, p1: Pool, f2: Frames, s2: Shape, p2: Pool,
                   f3: Frames, s3: Shape, p3: Pool, f4: Frames, s4: Shape, p4: Pool, base: u64, root: u64,
                   ok1: bool, k: nat, ok2: bool, l: nat, ok3: bool, n: nat)
    requires root != 0 && Fresh(s1, root) && View(f1, s1, root) == map[] && !ZeroPageFree(p1, base)
    requires RangeMapped(f1, s1, p1, f2, s2, p2, base, root, DRAM.base, DRAM.size, DRAM_FLAGS, ok1, k)
    requires RangeMapped(f2, s2, p2, f3, s3, p3, base, root, UART0.base, 0x1000, DEVICE_FLAGS, ok2, l)
    requires RangeMapped(f3, s3, p3, f4, s4, p4, base, root, CLINT.base, CLINT.size, DEVICE_FLAGS, ok3, n)
    ensures k == DramPages(|p1.Available()|)
    ensures l == if |p1.Available()| >= 67 then 1 else 0
    ensures n == if |p1.Available()| >= 68 then 16 else 0
    ensures View(f4, s4, root) == WithClint(k, l, n)
    ensures |p4.Available()| == |p1.Available()| - Min(68, |p1.Available()|)
    ensures k == DRAM_PAGES && l == UART0_PAGES && n == CLINT_PAGES <==> |p1.Available()| >= BOOT_TABLES - 1
  {
    hide RangeMapped, Fresh, View, Extend, PageCount, ZeroPageFree, DramNodes, UartNodes, Or64, Pool.Available;
    DramStage(f1, s1, p1, f2, s2, p2, base, root, ok1, k);
    UartStage(s1, f2, s2, p2, f3, s3, p3, base, root, k, ok2, l);
    ClintStage(s1, s2, f3, s3, p3, f4, s4, p4, base, root, k, l, ok3, n);
  }

  lemma DramMissing(s: Shape, root: u64, k: nat)
    requires Fresh(s, root) && k <= DRAM_PAGES
    ensures |Needed(s, root, DRAM.base, k)| == DramTables(k)
  {
    hide PathNodes, DramTables;
    DramPath(root, k);
    assert DramNodes(root, k) - s.Keys == DramNodes(root, k);
  }

  lemma UartMissing(s1: Shape, s2: Shape, root: u64)
    requires Fresh(s1, root) && s2.Keys <= s1.Keys + DramNodes(root, DRAM_PAGES)
    ensures |UartNodes(root) - s2.Keys| == 2
  {
    hide DramNodes, Fresh;
    NewNode(s1, root, Mid(root, 0));
    NewNode(s1, root, Bottom(root, 0, 128));
    BothMissing(s2.Keys, Mid(root, 0), Bottom(root, 0, 128));
  }

  lemma BothMissing(keys: set<Node>, a: Node, b: Node)
    requires a != b && a !in keys && b !in keys
    ensures |{a, b} - keys| == 2
  {
    assert {a, b} - keys == {a, b};
  }

  lemma OneMissing(keys: set<Node>, a: Node, b: Node)
    requires a in keys && b !in keys
    ensures |{a, b} - keys| == 1
  {
    assert {a, b} - keys == {b};
  }

  /** A device table is neither in use when the root is fresh nor one of the DRAM tables. */
  lemma NewNode(s: Shape, root: u64, n: Node)
    requires Fresh(s, root) && (n == Mid(root, 0) || exists i :: n == Bottom(root, 0, i))
    ensures n !in s && n !in DramNodes(root, DRAM_PAGES)
  {}

  lemma ClintMissing(s1: Shape, s2: Shape, s3: Shape, root: u64)
    requires Fresh(s1, root) && s2.Keys <= s1.Keys + DramNodes(root, DRAM_PAGES) && s3.Keys <= s2.Keys + UartNodes(root)
    ensures |ClintNodes(root) - s3.Keys| >= 1
    ensures s3.Keys == s2.Keys + UartNodes(root) ==> |ClintNodes(root) - s3.Keys| == 1
  {
    hide DramNodes, Fresh;
    NewNode(s1, root, Bottom(root, 0, 16));
    assert Bottom(root, 0, 16) in ClintNodes(root) - s3.Keys;
    if s3.Keys == s2.Keys + UartNodes(root) {
      OneMissing(s3.Keys, Mid(root, 0), Bottom(root, 0, 16));
    }
  }

  lemma RegionVpns(i: nat)
    ensures i < DRAM_PAGES ==> NthVpn(DRAM.base, i) == 0x8_0000 + i
    ensures i < UART0_PAGES ==> NthVpn(UART0.base, i) == 0x1_0000
    ensures i < CLINT_PAGES ==> NthVpn(CLINT.base, i) == 0x2000 + i
  {}

  lemma DevicesNotInDram(k: nat)
    requires k <= DRAM_PAGES
    ensures forall i: nat :: i < UART0_PAGES ==> NthVpn(UART0.base, i) !in WithDram(k)
    ensures forall i: nat :: i < CLINT_PAGES ==> NthVpn(CLINT.base, i) !in WithDram(k)
  {
    hide Extend, NthVpn;
    forall i: nat, j: nat
      ensures j < DRAM_PAGES && i < UART0_PAGES ==> NthVpn(UART0.base, i) != NthVpn(DRAM.base, j)
      ensures j < DRAM_PAGES && i < CLINT_PAGES ==> NthVpn(CLINT.base, i) != NthVpn(DRAM.base, j)
    {
      RegionVpns(i);
      RegionVpns(j);
    }
    forall i: nat
      ensures i < UART0_PAGES ==> NthVpn(UART0.base, i) !in WithDram(k)
      ensures i < CLINT_PAGES ==> NthVpn(CLINT.base, i) !in WithDram(k)
    {
      ExtendAt(map[], DRAM.base, DRAM.base, DRAM_FLAGS, k, NthVpn(UART0.base, i));
      ExtendAt(map[], DRAM.base, DRAM.base, DRAM_FLAGS, k, NthVpn(CLINT.base, i));
    }
  }

  lemma ClintNotInUart(k: nat, l: nat)
    requires k <= DRAM_PAGES && l <= UART0_PAGES
    ensures forall i: nat :: i < CLINT_PAGES ==> NthVpn(CLINT.base, i) !in WithUart(k, l)
  {
    hide Extend, NthVpn, WithDram, Or64;
    DevicesNotInDram(k);
    forall i: nat | i < CLINT_PAGES
      ensures NthVpn(CLINT.base, i) !in WithUart(k, l)
    {
      RegionVpns(i);
      RegionVpns(0);
      ExtendAt(WithDram(k), UART0.base, UART0.base, DEVICE_FLAGS, l, NthVpn(CLINT.base, i));
    }
  }

  // ---- the boot address space

  /** Adding an identity range makes its addresses translate to themselves and changes no other. */
  lemma IdentityRange(m: map<nat, Pte>, base: u64, flags: u64, k: nat, va: u64)
    requires base % 0x1000 == 0 && base + 0x1000 * k <= 0x80_0000_0000 && va < 0x80_0000_0000
    requires flags < 0x400 && PteLeaf(flags)
    ensures Lookup(Extend(m, base, base, flags, k), va) ==
            if base <= va < base + 0x1000 * k then va else Lookup(m, va)
  {
    hide Extend, MakePte, PteToPa, PteLeaf, PteValid, NthVpn, Vpn, Wrap, Or64;
    ExtendAt(m, base, base, flags, k, Vpn(va));
    if base <= va < base + 0x1000 * k {
      var i := IdentityPage(base, k, va);
      ExtendMaps(m, base, base, flags, k, i);
      IdentityPte(Wrap(base + 0x1000 * i), flags, va);
    } else {
      OutsideRange(base, k, va);
    }
  }

  lemma IdentityPte(pa: u64, flags: u64, va: u64)
    requires Page.IsPageAligned(pa) && flags < 0x400 && PteLeaf(flags)
    requires va == pa + va % 0x1000
    ensures PteLeaf(MakePte(pa, Or64(flags, PTE_V))) && Translated(MakePte(pa, Or64(flags, PTE_V)), va) == va
  {
    hide MakePte, PteToPa, PteLeaf, PteValid, Or;
    LeafPteValid(pa, flags);
    FlagsBounded(flags, PTE_V);
    LowFlagsDecode(pa, Or64(flags, PTE_V));
  }

  lemma IdentityPage(base: u64, k: nat, va: u64) returns (i: nat)
    requires base % 0x1000 == 0 && base + 0x1000 * k <= 0x80_0000_0000 && base <= va < base + 0x1000 * k
    ensures i < k && NthVpn(base, i) == Vpn(va)
    ensures Page.IsPageAligned(Wrap(base + 0x1000 * i)) && va == Wrap(base + 0x1000 * i) + va % 0x1000
  {
    hide Vpn, NthVpn;
    i := va / 0x1000 - base / 0x1000;
    SmallVpn(va);
    SmallNthVpn(base, i);
    assert base == 0x1000 * (base / 0x1000);
    assert va == 0x1000 * (va / 0x1000) + va % 0x1000;
    assert base + 0x1000 * i == 0x1000 * (va / 0x1000);
  }

  lemma SmallVpn(va: u64)
    requires va < 0x80_0000_0000
    ensures Vpn(va) == va / 0x1000
  {}

  lemma SmallNthVpn(base: u64, i: nat)
    requires base / 0x1000 + i < VPN_LIMIT
    ensures NthVpn(base, i) == base / 0x1000 + i
  {}

  lemma OutsideRange(base: u64, k: nat, va: u64)
    requires base % 0x1000 == 0 && base + 0x1000 * k <= 0x80_0000_0000 && va < 0x80_0000_0000
    requires !(base <= va < base + 0x1000 * k)
    ensures forall i: nat :: i < k ==> NthVpn(base, i) != Vpn(va)
  {
    hide Vpn, NthVpn;
    SmallVpn(va);
    forall i: nat | i < k
      ensures NthVpn(base, i) != Vpn(va)
    {
      SmallNthVpn(base, i);
    }
  }

  lemma FlagsLegal(rest: u64)
    requires rest < 0x400
    ensures Or64(PTE_R, rest) < 0x400 && PteLeaf(Or64(PTE_R, rest)) && LegalFlags(Or64(PTE_R, rest))
  {
    assert Pow2(10) == 0x400;
    OrBound(PTE_R, rest, 10);
    LeafIsBits(Or64(PTE_R, rest));
    OrBit(PTE_R, rest, 1);
    assert Bit(PTE_R, 1);
  }

  lemma BootFlagsLegal()
    ensures DRAM_FLAGS < 0x400 && PteLeaf(DRAM_FLAGS) && LegalFlags(DRAM_FLAGS)
    ensures DEVICE_FLAGS < 0x400 && PteLeaf(DEVICE_FLAGS) && LegalFlags(DEVICE_FLAGS)
  {
    hide Or64, PteLeaf, LegalFlags;
    assert Pow2(10) == 0x400;
    FlagsBounded(PTE_A, PTE_D);
    FlagsBounded(PTE_X, Or64(PTE_A, PTE_D));
    FlagsBounded(PTE_W, Or64(PTE_X, Or64(PTE_A, PTE_D)));
    FlagsBounded(PTE_W, Or64(PTE_A, PTE_D));
    FlagsLegal(Or64(PTE_W, Or64(PTE_X, Or64(PTE_A, PTE_D))));
    FlagsLegal(Or64(PTE_W, Or64(PTE_A, PTE_D)));
  }

  lemma FlagsBounded(x: u64, y: u64)
    requires x < 0x400 && y < 0x400
    ensures Or64(x, y) < 0x400
  {
    assert Pow2(10) == 0x400;
    OrBound(x, y, 10);
  }

  /** A boot address space with the first k, l and n pages of the regions. */
  lemma PartialBoot(k: nat, l: nat, n: nat, va: u64)
    requires k <= DRAM_PAGES && l <= UART0_PAGES && n <= CLINT_PAGES && va < 0x80_0000_0000
    ensures Lookup(WithClint(k, l, n), va) ==
            if || DRAM.base <= va < DRAM.base + 0x1000 * k
               || UART0.base <= va < UART0.base + 0x1000 * l
               || CLINT.base <= va < CLINT.base + 0x1000 * n
            then va else 0
  {
    hide Extend, PteLeaf, Lookup, LegalFlags, Or64;
    BootFlagsLegal();
    IdentityRange(WithUart(k, l), CLINT.base, DEVICE_FLAGS, n, va);
    IdentityRange(WithDram(k), UART0.base, DEVICE_FLAGS, l, va);
    IdentityRange(map[], DRAM.base, DRAM_FLAGS, k, va);
    NoPages(va);
  }

  lemma FullBoot(va: u64)
    requires va < 0x80_0000_0000
    ensures Lookup(WithClint(DRAM_PAGES, UART0_PAGES, CLINT_PAGES), va) == if Booted(va) then va else 0
  {
    hide Lookup, WithClint;
    PartialBoot(DRAM_PAGES, UART0_PAGES, CLINT_PAGES, va);
  }

  /** The boot address space translates the DRAM, UART and CLINT pages to themselves and nothing else
      below 2^39 exactly when all their pages were mapped: by `Init`, exactly when the allocator had 69
      pages to give. */
  lemma BootTranslation(k: nat, l: nat, n: nat)
    requires k <= DRAM_PAGES && l <= UART0_PAGES && n <= CLINT_PAGES
    ensures (forall va: u64 :: va < 0x80_0000_0000 ==> Lookup(WithClint(k, l, n), va) == if Booted(va) then va else 0)
            <==> (k == DRAM_PAGES && l == UART0_PAGES && n == CLINT_PAGES)
  {
    hide Lookup, WithClint;
    if k == DRAM_PAGES && l == UART0_PAGES && n == CLINT_PAGES {
      forall va: u64 | va < 0x80_0000_0000
        ensures Lookup(WithClint(k, l, n), va) == if Booted(va) then va else 0
      {
        FullBoot(va);
      }
    } else {
      MissingPage(k, l, n);
    }
  }

  /** The first page that is not mapped. */
  lemma MissingPage(k: nat, l: nat, n: nat)
    requires k <= DRAM_PAGES && l <= UART0_PAGES && n <= CLINT_PAGES
    requires k < DRAM_PAGES || l < UART0_PAGES || n < CLINT_PAGES
    ensures exists va: u64 :: va < 0x80_0000_0000 && Booted(va) && Lookup(WithClint(k, l, n), va) != va
  {
    hide Lookup, WithClint;
    var va: u64 := if k < DRAM_PAGES then DRAM.base + 0x1000 * k
                   else if l < UART0_PAGES then UART0.base + 0x1000 * l else CLINT.base + 0x1000 * n;
    PartialBoot(k, l, n, va);
  }

  lemma RangeParts(f: Frames, s: Shape, p: Pool, f': Frames, s': Shape, p': Pool, base: u64, root: u64,
                   va: u64, size: u64, flags: u64, ok: bool, mapped: nat)
    requires RangeMapped(f, s, p, f', s', p', base, root, va, size, flags, ok, mapped)
    ensures Kept(s, s') && Paid(p, s, p', s', base) && DataKept(f, f', s') && OthersKept(f, s, f', s', root)
  {}

  /** What holds after the three calls, whatever they returned. */
  lemma BootDone(f0: Frames, s0: Shape, p0: Pool, f1: Frames, s1: Shape, p1: Pool, f2: Frames, s2: Shape, p2: Pool,
                 f3: Frames, s3: Shape, p3: Pool, f4: Frames, s4: Shape, p4: Pool, base: u64, root: u64,
                 ok1: bool, k: nat, ok2: bool, l: nat, ok3: bool, n: nat)
    requires root != 0 && Fresh(s1, root) && View(f1, s1, root) == map[] && !ReturnsNull(p0, base) && p1 == Taken(p0)
    requires Top(root) !in s0 && s1 == s0[Top(root) := root] && forall r :: View(f0, s0, r) == View(f1, s1, r)
    requires Kept(s0, s1) && Paid(p0, s0, p1, s1, base) && DataKept(f0, f1, s1)
    requires RangeMapped(f1, s1, p1, f2, s2, p2, base, root, DRAM.base, DRAM.size, DRAM_FLAGS, ok1, k)
    requires RangeMapped(f2, s2, p2, f3, s3, p3, base, root, UART0.base, 0x1000, DEVICE_FLAGS, ok2, l)
    requires RangeMapped(f3, s3, p3, f4, s4, p4, base, root, CLINT.base, CLINT.size, DEVICE_FLAGS, ok3, n)
    ensures BootHolds(View(f4, s4, root), p0, p4, base)
    ensures Kept(s0, s4) && Paid(p0, s0, p4, s4, base) && DataKept(f0, f4, s4)
    ensures forall r: u64 :: Top(r) in s0 ==> View(f4, s4, r) == View(f0, s0, r)
    ensures EnoughForBoot(p0, base) ==> |p4.Available()| == |p0.Available()| - BOOT_TABLES
  {
    hide RangeMapped, Fresh, View, Kept, Paid, DataKept, OthersKept, Taken, ReturnsNull, EnoughForBoot, ZeroPageFree,
      Pool.Available, DramPages, BootHolds, WithClint, Or64;
    RootTaken(p0, base);
    BootStages(f1, s1, p1, f2, s2, p2, f3, s3, p3, f4, s4, p4, base, root, ok1, k, ok2, l, ok3, n);
    BootPages(p0, p1, p4, base, k, l, n);
    RangeParts(f1, s1, p1, f2, s2, p2, base, root, DRAM.base, DRAM.size, DRAM_FLAGS, ok1, k);
    RangeParts(f2, s2, p2, f3, s3, p3, base, root, UART0.base, 0x1000, DEVICE_FLAGS, ok2, l);
    RangeParts(f3, s3, p3, f4, s4, p4, base, root, CLINT.base, CLINT.size, DEVICE_FLAGS, ok3, n);
    AlsoKept(f0, s0, p0, f1, s1, p1, f2, s2, p2, base);
    AlsoKept(f0, s0, p0, f2, s2, p2, f3, s3, p3, base);
    AlsoKept(f0, s0, p0, f3, s3, p3, f4, s4, p4, base);
    OthersChain(f1, s1, f2, s2, f3, s3, root);
    OthersChain(f1, s1, f3, s3, f4, s4, root);
    OldSpaces(f0, s0, f1, s1, f4, s4, root);
  }

  lemma AlsoKept(f0: Frames, s0: Shape, p0: Pool, f: Frames, s: Shape, p: Pool, f': Frames, s': Shape, p': Pool, base: u64)
    requires Kept(s0, s) && Paid(p0, s0, p, s, base) && DataKept(f0, f, s)
    requires Kept(s, s') && Paid(p, s, p', s', base) && DataKept(f, f', s')
    ensures Kept(s0, s') && Paid(p0, s0, p', s', base) && DataKept(f0, f', s')
  {
    hide Kept, Paid, DataKept;
    PaidChain(p0, s0, p, s, p', s', base);
    KeptChain(s0, s, s');
    DataChain(f0, f, s, f', s');
  }

  lemma BootPages(p0: Pool, p1: Pool, p4: Pool, base: u64, k: nat, l: nat, n: nat)
    requires |p1.Available()| == |p0.Available()| - 1
    requires EnoughForBoot(p0, base) <==> |p1.Available()| >= BOOT_TABLES - 1
    requires k == DramPages(|p1.Available()|) && l == (if |p1.Available()| >= 67 then 1 else 0)
    requires n == if |p1.Available()| >= 68 then 16 else 0
    requires |p4.Available()| == |p1.Available()| - Min(68, |p1.Available()|)
    ensures BootHolds(WithClint(k, l, n), p0, p4, base)
    ensures EnoughForBoot(p0, base) ==> |p4.Available()| == |p0.Available()| - BOOT_TABLES
  {
    hide WithClint, EnoughForBoot, Pool.Available, BootPage;
    forall v: nat
      ensures BootPage(WithClint(k, l, n), v, k, l, n)
    {
      BootEntries(k, l, n, v);
    }
  }

  lemma BootWalks(s0: Shape, p0: Pool, f: Frames, s: Shape, p: Pool, base: u64, root: u64)
    requires Tree(f, s) && Top(root) in s && TablesBelow(s0, root) && Kept(s0, s) && Paid(p0, s0, p, s, base)
    requires EnoughForBoot(p0, base) && base + 0x1000 * p0.total <= PHYSICAL_LIMIT
    requires BootHolds(View(f, s, root), p0, p, base)
    ensures forall a: u64 :: a < 0x40_0000_0000 ==>
              Walk(f, MakeSatp(root), a) == if Booted(a) then Physical(a) else PageFault
  {
    hide Tree, View, TablesBelow, Kept, Paid, WithClint, Walk, MakeSatp, Pool.Available, BootPage, Booted;
    PaidParts(p0, s0, p, s, base);
    BuiltBelow(p0, s0, p, s, base, root);
    forall a: u64 | a < 0x40_0000_0000
      ensures Walk(f, MakeSatp(root), a) == if Booted(a) then Physical(a) else PageFault
    {
      BootHardware(f, s, root, a);
    }
  }

  /** Address spaces from before boot are not changed. */
  lemma OldSpaces(f0: Frames, s0: Shape, f: Frames, s: Shape, f': Frames, s': Shape, root: u64)
    requires Top(root) !in s0 && s == s0[Top(root) := root] && (forall r :: View(f0, s0, r) == View(f, s, r))
    requires OthersKept(f, s, f', s', root)
    ensures forall r: u64 :: Top(r) in s0 ==> View(f', s', r) == View(f0, s0, r)
  {
    hide View;
    forall r: u64 | Top(r) in s0
      ensures View(f', s', r) == View(f0, s0, r)
    {
      assert Top(r) in s;
    }
  }

  lemma NoTablesYet(f: Frames, s: Shape, root: u64)
    requires Tree(f, s) && Top(root) !in s
    ensures TablesBelow(s, root)
  {
    hide Placed, Separate, Linked, LeavesValid;
  }

  /** The boot flags are legal, so the hardware accepts every entry of the boot address space. */
  lemma BootHardwareMap()
    ensures HardwareMap(WithClint(DRAM_PAGES, UART0_PAGES, CLINT_PAGES))
  {
    hide Extend, LegalFlags, HardwareMap, Or64, Page.IsPageAligned;
    BootFlagsLegal();
    NothingMapped();
    RegionsAligned();
    LegalExtend(map[], DRAM.base, DRAM.base, DRAM_FLAGS, DRAM_PAGES);
    LegalExtend(WithDram(DRAM_PAGES), UART0.base, UART0.base, DEVICE_FLAGS, UART0_PAGES);
    LegalExtend(WithUart(DRAM_PAGES, UART0_PAGES), CLINT.base, CLINT.base, DEVICE_FLAGS, CLINT_PAGES);
  }

  lemma NothingMapped()
    ensures HardwareMap(map[])
  {}

  lemma RegionsAligned()
    ensures Page.IsPageAligned(DRAM.base) && Page.IsPageAligned(UART0.base) && Page.IsPageAligned(CLINT.base)
  {}

  /** With the register value that enable_sv39 writes, the hardware translates the boot regions to
      themselves and faults everywhere else below 2^38. */
  lemma BootHardware(frames: Frames, shape: Shape, root: u64, a: u64)
    requires Tree(frames, shape) && Top(root) in shape && TablesBelow(shape, root) && a < 0x40_0000_0000
    requires View(frames, shape, root) == WithClint(DRAM_PAGES, UART0_PAGES, CLINT_PAGES)
    ensures Walk(frames, MakeSatp(root), a) == if Booted(a) then Physical(a) else PageFault
  {
    hide Tree, View, WithClint, Walk, WalkFrom, HardwareMap, TablesBelow, Lookup;
    BootHardwareMap();
    HardwareMapAgrees(frames, shape, root, a);
    WalkIsLookup(frames, shape, root, a);
    BootTranslation(DRAM_PAGES, UART0_PAGES, CLINT_PAGES);
  }

  lemma NoPages(va: u64)
    ensures Lookup(map[], va) == 0
  {}

  // ---- the entries

  /** The entry leads to physical page v, and its flags are exactly these bits. */
  predicate MapsPage(pte: Pte, v: nat, flags: set<nat>) {
    PteToPa(pte) == 0x1000 * v && forall b: nat :: b < 10 ==> (Bit(pte, b) <==> b in flags)
  }

  lemma FlagValues()
    ensures Or64(DRAM_FLAGS, PTE_V) == 0xCF && Or64(DEVICE_FLAGS, PTE_V) == 0xC7
  {
    assert Or64(PTE_A, PTE_D) == 0xC0;
    assert Or64(PTE_X, 0xC0) == 0xC8;
    assert Or64(PTE_W, 0xC8) == 0xCC && Or64(PTE_W, 0xC0) == 0xC4;
    assert Or64(PTE_R, 0xCC) == 0xCE && Or64(PTE_R, 0xC4) == 0xC6;
  }

  lemma FlagSets(b: nat)
    requires b < 10
    ensures Bit(0xCF, b) <==> b in {0, 1, 2, 3, 6, 7}
    ensures Bit(0xC7, b) <==> b in {0, 1, 2, 6, 7}
  {
    assert Bit(0xCF, 0) && Bit(0xCF, 1) && Bit(0xCF, 2) && Bit(0xCF, 3) && !Bit(0xCF, 4) && !Bit(0xCF, 5);
    assert Bit(0xCF, 6) && Bit(0xCF, 7) && !Bit(0xCF, 8) && !Bit(0xCF, 9);
    assert Bit(0xC7, 0) && Bit(0xC7, 1) && Bit(0xC7, 2) && !Bit(0xC7, 3) && !Bit(0xC7, 4) && !Bit(0xC7, 5);
    assert Bit(0xC7, 6) && Bit(0xC7, 7) && !Bit(0xC7, 8) && !Bit(0xC7, 9);
  }

  lemma BootEntry(v: nat)
    requires v < 0x800_0000
    ensures var pte := MakePte(0x1000 * v, Or64(DRAM_FLAGS, PTE_V));
            pte == 0x400 * v + 0xCF && MapsPage(pte, v, {0, 1, 2, 3, 6, 7})
    ensures var pte := MakePte(0x1000 * v, Or64(DEVICE_FLAGS, PTE_V));
            pte == 0x400 * v + 0xC7 && MapsPage(pte, v, {0, 1, 2, 6, 7})
  {
    hide MakePte, PteToPa, Bit, Or64;
    FlagValues();
    EntryInNumbers(v, 0xCF);
    EntryInNumbers(v, 0xC7);
    forall b: nat | b < 10
      ensures Bit(0xCF, b) <==> b in {0, 1, 2, 3, 6, 7}
      ensures Bit(0xC7, b) <==> b in {0, 1, 2, 6, 7}
    {
      FlagSets(b);
    }
  }

  /** An identity range page by page. */
  lemma IdentityAt(m: map<nat, Pte>, base: u64, flags: u64, k: nat, v: nat)
    requires base % 0x1000 == 0 && base + 0x1000 * k <= 0x80_0000_0000
    ensures var m' := Extend(m, base, base, flags, k);
            if base / 0x1000 <= v < base / 0x1000 + k then v in m' && v < 0x800_0000 && m'[v] == MakePte(0x1000 * v, Or64(flags, PTE_V))
            else (v in m' <==> v in m) && (v in m' ==> m'[v] == m[v])
  {
    hide Extend, MakePte, Or64, NthVpn;
    ExtendAt(m, base, base, flags, k, v);
    assert base == 0x1000 * (base / 0x1000);
    forall i: nat | i < k
      ensures NthVpn(base, i) == base / 0x1000 + i
    {
      SmallNthVpn(base, i);
    }
    if base / 0x1000 <= v < base / 0x1000 + k {
      var i: nat := v - base / 0x1000;
      ExtendMaps(m, base, base, flags, k, i);
      assert Wrap(base + 0x1000 * i) == 0x1000 * v;
    }
  }

  lemma RegionEntries(m: map<nat, Pte>, down: u64, up: u64, mapped: nat)
    requires down % 0x1000 == 0 && up % 0x1000 == 0 && down + up <= 0x80_0000_0000 && mapped <= PageCount(down, up)
    ensures forall v: nat ::
              var m' := Extend(m, down, down, DEVICE_FLAGS, mapped);
              if down / 0x1000 <= v < down / 0x1000 + mapped
              then v in m' && m'[v] == 0x400 * v + 0xC7 && MapsPage(m'[v], v, {0, 1, 2, 6, 7})
              else (v in m' <==> v in m) && (v in m' ==> m'[v] == m[v])
  {
    hide Extend, PageCount, MakePte, Or64, MapsPage;
    PagesOf(down, up);
    forall v: nat
      ensures var m' := Extend(m, down, down, DEVICE_FLAGS, mapped);
              if down / 0x1000 <= v < down / 0x1000 + mapped
              then v in m' && m'[v] == 0x400 * v + 0xC7 && MapsPage(m'[v], v, {0, 1, 2, 6, 7})
              else (v in m' <==> v in m) && (v in m' ==> m'[v] == m[v])
    {
      IdentityAt(m, down, DEVICE_FLAGS, mapped, v);
      if v < 0x800_0000 {
        BootEntry(v);
      }
    }
  }

  /** What the boot address space holds for page v with the first k, l and n pages of the regions. */
  ghost predicate BootPage(view: map<nat, Pte>, v: nat, k: nat, l: nat, n: nat) {
    && (v in view <==> 0x8_0000 <= v < 0x8_0000 + k || 0x1_0000 <= v < 0x1_0000 + l || 0x2000 <= v < 0x2000 + n)
    && (v in view && v >= 0x8_0000 ==> view[v] == 0x400 * v + 0xCF && MapsPage(view[v], v, {0, 1, 2, 3, 6, 7}))
    && (v in view && v < 0x8_0000 ==> view[v] == 0x400 * v + 0xC7 && MapsPage(view[v], v, {0, 1, 2, 6, 7}))
  }

  /** The boot address space by the number of pages the allocator had: the root takes one, and the regions
      hold the pages that the others leave room for. */
  ghost predicate BootHolds(view: map<nat, Pte>, p0: Pool, p: Pool, base: u64) {
    var pages := |p0.Available()|;
    && pages >= 1
    && var k, l, n := DramPages(pages - 1), if pages >= 68 then 1 else 0, if pages >= 69 then 16 else 0;
       && view == WithClint(k, l, n)
       && (k == 0x8000 && l == 1 && n == 16 <==> EnoughForBoot(p0, base))
       && (forall v: nat :: BootPage(view, v, k, l, n))
       && |p.Available()| == pages - Min(69, pages)
  }

  lemma BootEntries(k: nat, l: nat, n: nat, v: nat)
    requires k <= DRAM_PAGES && l <= UART0_PAGES && n <= CLINT_PAGES
    ensures BootPage(WithClint(k, l, n), v, k, l, n)
  {
    hide Extend, MakePte, Or64, MapsPage;
    IdentityAt(WithUart(k, l), CLINT.base, DEVICE_FLAGS, n, v);
    IdentityAt(WithDram(k), UART0.base, DEVICE_FLAGS, l, v);
    IdentityAt(map[], DRAM.base, DRAM_FLAGS, k, v);
    if v < 0x800_0000 {
      BootEntry(v);
    }
  }

  // ---- the boot configuration

  /** The pages that line 46 releases for the groups of 64 from `first` to before `end`. */
  function Groups(first: nat, end: nat): set<nat> {
    set g: nat | first <= g < end :: ReleasedPage(ByWord, 64 * g)
  }

  lemma {:induction false} GroupCount(first: nat, end: nat)
    requires first <= end
    ensures |Groups(first, end)| <= end - first
  {
    if first < end {
      GroupCount(first, end - 1);
      assert Groups(first, end) == Groups(first, end - 1) + {ReleasedPage(ByWord, 64 * (end - 1))};
    } else {
      assert Groups(first, end) == {};
    }
  }

  /** A free page among reserved pages is the released page of one of their groups. */
  lemma ReservedInGroups(base: u64, total: nat, low: nat, high: nat)
    requires low <= high
    ensures InitialFree(ByWord, total) * PagesBetween(base, total, base + 0x1000 * low, base + 0x1000 * high)
            <= Groups(low / 64, high / 64 + 1)
  {
    forall i | i in InitialFree(ByWord, total) && i in PagesBetween(base, total, base + 0x1000 * low, base + 0x1000 * high)
      ensures i in Groups(low / 64, high / 64 + 1)
    {
      var j: nat :| j < total && i == ReleasedPage(ByWord, j);
      ReleasedIsFixed(ByWord, j);
      assert i == ReleasedPage(ByWord, 64 * (i / 64));
      assert low / 64 <= i / 64 < high / 64 + 1;
    }
  }

  /** The allocator as written frees 512 of the 32768 DRAM pages; with any kernel image of at most
      110 MiB inside DRAM reserved, enough are left for the boot address space. */
  lemma KernelImageLeavesEnough(image: Range)
    requires DRAM.base <= image.base && image.base + image.size <= DRAM.base + DRAM.size
    requires 0 < image.size <= 0x6e0_0000
    ensures EnoughForBoot(AfterInit(ByWord, DRAM, [image]), ManagedBase(DRAM))
  {
    hide Groups, InitialFree, PagesBetween, AllReserved, ReservedPages, Page.AlignDown, Page.AlignUp, ManagedPages, ManagedBase;
    var p := AfterInit(ByWord, DRAM, [image]);
    DramManaged();
    InitReachable(ByWord, DRAM, [image]);
    FreeCountByWord(DRAM_PAGES);
    OneImage(image);
    var low := (Page.AlignDown(image.base) - DRAM.base) / 0x1000;
    var high := (Page.AlignUp(image.base + image.size) - DRAM.base) / 0x1000;
    ImagePages(image, low, high);
    ReservedInGroups(DRAM.base, DRAM_PAGES, low, high);
    GroupCount(low / 64, high / 64 + 1);
    var kept := ReservedPages(DRAM.base, DRAM_PAGES, image);
    FewRemoved(InitialFree(ByWord, DRAM_PAGES), kept, Groups(low / 64, high / 64 + 1));
    CounterExact(p);
  }

  lemma DramManaged()
    ensures ManagedBase(DRAM) == DRAM.base && ManagedPages(DRAM) == DRAM_PAGES
    ensures !Pool(ByWord, DRAM_PAGES, {}).CountsPastEnd()
  {
    AlignedUp(DRAM.base, DRAM.base);
    AlignedDown(DRAM.base + DRAM.size);
  }

  lemma OneImage(image: Range)
    ensures AllReserved(DRAM.base, DRAM_PAGES, [image]) == ReservedPages(DRAM.base, DRAM_PAGES, image)
  {
    NoRangeReserved(DRAM.base, DRAM_PAGES);
    OneRangeMore(DRAM.base, DRAM_PAGES, [image], 0);
    assert [image][..1] == [image] && [image][..0] == [];
  }

  lemma ImagePages(image: Range, low: nat, high: nat)
    requires DRAM.base <= image.base && image.base + image.size <= DRAM.base + DRAM.size
    requires 0 < image.size <= 0x6e0_0000
    requires low == (Page.AlignDown(image.base) - DRAM.base) / 0x1000
    requires high == (Page.AlignUp(image.base + image.size) - DRAM.base) / 0x1000
    ensures low <= high && high / 64 + 1 - low / 64 <= 442
    ensures ReservedPages(DRAM.base, DRAM_PAGES, image) ==
            PagesBetween(DRAM.base, DRAM_PAGES, DRAM.base + 0x1000 * low, DRAM.base + 0x1000 * high)
  {
    hide PagesBetween, Page.AlignDown, Page.AlignUp;
    DramPage(Page.AlignDown(image.base), low);
    DramPage(Page.AlignUp(image.base + image.size), high);
    GroupGap(low, high);
  }

  lemma DramPage(a: u64, n: nat)
    requires a % 0x1000 == 0 && DRAM.base <= a && n == (a - DRAM.base) / 0x1000
    ensures a == DRAM.base + 0x1000 * n
  {}

  lemma GroupGap(low: nat, high: nat)
    requires low <= high < low + 0x6e02
    ensures high / 64 + 1 - low / 64 <= 442
  {}

  lemma FewRemoved(free: set<nat>, kept: set<nat>, groups: set<nat>)
    requires free * kept <= groups
    ensures |free - kept| >= |free| - |groups|
  {
    assert free == (free - kept) + free * kept;
    assert groups == free * kept + (groups - free * kept);
  }
}
