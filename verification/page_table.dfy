/** `kernel/arch/riscv/mm/page_table.cpp`: building, changing and walking page tables in pages taken
    from the allocator. */
module PageTables {
  import opened Word64
  import opened Sv39
  import opened PageTree
  import opened Pmm
  import opened PageSupply
  import opened PageRange
  import Page

  // ---- pages and tables

  /** Every managed page can hold a table, and no page that alloc_page may still return holds one. */
  ghost predicate Owned(frames: Frames, shape: Shape, base: u64, pool: Pool) {
    && (forall i: nat :: i < pool.total ==> PageAt(base, i) in frames)
    && (forall n, i: nat :: n in shape && i in pool.Available() ==> shape[n] != PageAt(base, i))
  }

  /** The same address spaces with the same translations. */
  ghost predicate SameSpaces(f: Frames, s: Shape, f': Frames, s': Shape) {
    forall r: u64 :: (Top(r) in s <==> Top(r) in s') && (Top(r) in s ==> View(f, s, r) == View(f', s', r))
  }

  /** Only address space `root` may have changed. */
  ghost predicate OthersKept(f: Frames, s: Shape, f': Frames, s': Shape, root: u64) {
    forall r: u64 ::
      && (Top(r) in s <==> Top(r) in s')
      && (Top(r) in s && r != root ==> View(f, s, r) == View(f', s', r))
  }

  /** Every page that left the pool holds a table of the shape, or is page 0. */
  ghost predicate TablesAccounted(was: Pool, now: Pool, shape: Shape, base: u64) {
    && now.mask == was.mask && now.total == was.total && now.free <= was.free
    && forall i :: i in was.free && i !in now.free ==> PageAt(base, i) == 0 || PageAt(base, i) in shape.Values
  }

  /** Every new table is in a page that left the pool. */
  ghost predicate TablesFromPool(was: Pool, s: Shape, now: Pool, s': Shape, base: u64) {
    forall n :: n in s' && n !in s ==>
                  exists i: nat :: i < was.total && i in was.free && i !in now.free && s'[n] == PageAt(base, i)
  }

  /** No table moved or went away. */
  ghost predicate Kept(s: Shape, s': Shape) {
    forall n :: n in s ==> n in s' && s'[n] == s[n]
  }

  /** Only the two tables on the path to page v may be new, and no table moved. */
  ghost predicate Grown(s: Shape, s': Shape, root: u64, v: nat) {
    && Kept(s, s')
    && (forall n :: n in s' && n !in s ==> n == NodeAt(root, v, 1) || n == NodeAt(root, v, 0))
  }

  /** Every page taken became a table: pages are neither lost nor used twice.  The exception is page 0,
      which the caller takes for a null pointer. */
  ghost predicate Paid(p: Pool, s: Shape, p': Pool, s': Shape, base: u64) {
    && TablesAccounted(p, p', s', base)
    && TablesFromPool(p, s, p', s', base)
    && (ZeroPageFree(p', base) ==> ZeroPageFree(p, base))
    && |p.Available()| + |s| == |p'.Available()| + |s'| + Digit(ZeroPageFree(p, base) && !ZeroPageFree(p', base))
  }

  /** What calls that miss n tables in all take and build: as many pages as there are, up to n, each of
      them the lowest at its turn, and a table for each.  When page 0 is free the first call takes it,
      sees null and builds nothing. */
  ghost predicate Took(p: Pool, s: Shape, p': Pool, s': Shape, base: u64, n: nat) {
    if ZeroPageFree(p, base) then s' == s && p' == if n == 0 then p else Taken(p)
    else
      && |p'.Available()| == |p.Available()| - Min(n, |p.Available()|)
      && |s'| == |s| + Min(n, |p.Available()|)
      && p' == TakenMany(p, n)
  }

  /** n tables were built and no call failed. */
  ghost predicate Built(p: Pool, s: Shape, p': Pool, s': Shape, base: u64, n: nat) {
    && p' == TakenMany(p, n) && |s'| == |s| + n && n <= |p.Available()|
    && (ZeroPageFree(p, base) ==> n == 0 && s' == s)
  }

  /** The number of pages for which map_range came to look for tables: those mapped, and the next one
      unless its root, its addresses or an existing mapping ruled it out. */
  function Attempted(view: map<nat, Pte>, va: u64, mapped: nat, count: nat): nat {
    if mapped < count && NthVpn(va, mapped) !in view then mapped + 1 else mapped
  }

  /** No memory changed but pages that hold tables now. */
  ghost predicate DataKept(f: Frames, f': Frames, s': Shape) {
    f'.Keys == f.Keys && forall x :: x in f && x !in s'.Values ==> f'[x] == f[x]
  }

  ghost predicate PathComplete(s: Shape, root: u64, v: nat) {
    NodeAt(root, v, 1) in s && NodeAt(root, v, 0) in s
  }

  class AddressSpaces {
    const pmm: PageAllocator
    var frames: Frames
    ghost var shape: Shape

    ghost predicate Valid()
      reads this, pmm, pmm.usedBitmap
    {
      && pmm.Valid()
      && Tree(frames, shape)
      && Owned(frames, shape, pmm.managedBase, pmm.Abs())
    }

    /** The memory after pmm_init, with arbitrary stale contents in every page. */
    constructor (pmm: PageAllocator, memory: Frames)
      requires pmm.Valid()
      requires forall i: nat :: i < pmm.totalPages ==> PageAt(pmm.managedBase, i) in memory
      ensures Valid() && this.pmm == pmm && frames == memory && shape == map[]
    {
      this.pmm := pmm;
      frames := memory;
      shape := map[];
    }

    method ZeroPage(page: u64)
      requires page in frames
      modifies this`frames
      ensures page in frames && IsEmpty(frames[page])
      ensures frames == old(frames)[page := frames[page]]
    {
      var i := 0;
      while i < 512
        invariant i <= 512
        invariant page in frames
        invariant frames == old(frames)[page := frames[page]]
        invariant forall j :: 0 <= j < i ==> frames[page][j] == 0
      {
        frames := WithEntry(frames, page, i, 0);
        i := i + 1;
      }
    }

    /** A fresh, empty address space, or null. */
    method AllocPageTable() returns (page: u64)
      requires Valid()
      modifies this`frames, this`shape, pmm.usedBitmap, pmm`freePages
      ensures Valid()
      ensures pmm.Abs() == Taken(old(pmm.Abs()))
      ensures page == 0 <==> ReturnsNull(old(pmm.Abs()), pmm.managedBase)
      ensures page == 0 ==> frames == old(frames) && shape == old(shape)
      ensures page != 0 ==>
                && page == PageAt(pmm.managedBase, old(pmm.Abs()).Lowest(0))
                && Top(page) !in old(shape)
                && shape == old(shape)[Top(page) := page]
                && page in frames && IsEmpty(frames[page])
                && (forall r :: View(old(frames), old(shape), r) == View(frames, shape, r))
                && View(frames, shape, page) == map[]
      ensures DataKept(old(frames), frames, shape)
    {
      hide Tree, Pool.Reachable, Pool.Lowest;
      ghost var index;
      page, index := pmm.AllocPage();
      TakenIs(old(pmm.Abs()), pmm.managedBase);
      if page == 0 {
        TakenOwned(frames, shape, pmm.managedBase, old(pmm.Abs()));
        return;
      }
      assert index in old(pmm.Abs()).Available();
      assert page !in shape.Values;
      FreshPage(pmm.managedBase, index);
      ZeroPage(page);
      AddRoot(old(frames), shape, page, frames[page]);
      forall r: u64
        ensures View(old(frames), old(shape), r) == View(frames, old(shape)[Top(page) := page], r)
        ensures r == page ==> View(old(frames), old(shape), r) == map[]
      {
        AddRootView(old(frames), old(shape), page, frames[page], r);
      }
      shape := shape[Top(page) := page];
      assert shape[Top(page)] == page;
      TakenOwned(frames, shape, pmm.managedBase, old(pmm.Abs()));
    }

    /** A zeroed table in a page the allocator will not return, such as one on a caller's stack, is the
        root of an empty address space.  Nothing is executed. */
    ghost method AdoptTable(page: u64)
      requires Valid()
      requires page != 0 && Page.IsPageAligned(page) && page in frames && IsEmpty(frames[page])
      requires page !in shape.Values
      requires forall i :: i in pmm.Abs().Available() ==> page != PageAt(pmm.managedBase, i)
      modifies this`shape
      ensures Valid() && shape == old(shape)[Top(page) := page] && Top(page) !in old(shape)
      ensures View(frames, shape, page) == map[]
      ensures forall r: u64 :: View(frames, shape, r) == View(frames, old(shape), r)
    {
      hide Tree, Pool.Reachable, Pool.Lowest;
      assert frames[page := frames[page]] == frames;
      AddRoot(frames, shape, page, frames[page]);
      AddRootView(frames, shape, page, frames[page], page);
      forall r: u64
        ensures View(frames, shape[Top(page) := page], r) == View(frames, shape, r)
        ensures r == page ==> View(frames, shape, r) == map[]
      {
        AddRootView(frames, shape, page, frames[page], r);
      }
      shape := shape[Top(page) := page];
    }

    /** The body of `if(!pte_valid(pte))` in map_page: a new table below entry `index` of the table at
        node n.  Returns the new entry, or 0 when the allocator is exhausted. */
    method InstallTable(table: u64, index: nat, ghost n: Node) returns (pte: Pte)
      requires Valid()
      requires n in shape && !n.Bottom? && shape[n] == table && index < 512 && Child(n, index) !in shape
      modifies this`frames, this`shape, pmm.usedBitmap, pmm`freePages
      ensures Valid()
      ensures pmm.Abs() == Taken(old(pmm.Abs()))
      ensures SameSpaces(old(frames), old(shape), frames, shape)
      ensures pte == 0 <==> ReturnsNull(old(pmm.Abs()), pmm.managedBase)
      ensures pte == 0 ==> frames == old(frames) && shape == old(shape)
      ensures DataKept(old(frames), frames, shape)
      ensures pte != 0 ==>
                && PteToPa(pte) == PageAt(pmm.managedBase, old(pmm.Abs()).Lowest(0))
                && shape == old(shape)[Child(n, index) := PteToPa(pte)]
                && PteValid(pte) && !PteLeaf(pte)
    {
      hide Tree, Pool.Reachable, Pool.Lowest, MakePte, PteToPa, PteValid, PteLeaf, View, Owned, Taken, ReturnsNull;
      var next := AllocPageTable();
      if next == 0 {
        return 0;
      }
      label Allocated:
      pte := MakePte(next, PTE_V);
      AllocatedCanLink(old(shape), frames, shape, n, index, next);
      PointerPte(next);
      LinkTable(frames, shape, n, index, next);
      forall r: u64
        ensures View(WithEntry(frames, table, index, pte), LinkedShape(shape, n, index, next), r) == View(frames, shape, r)
      {
        LinkView(frames, shape, n, index, next, r);
      }
      LinkedOwned(frames, shape, n, index, next, pmm.managedBase, pmm.Abs());
      LinkedData(old(frames), old(shape), frames, shape, n, index, next);
      frames := WithEntry(frames, table, index, pte);
      shape := LinkedShape(shape, n, index, next);
      assert shape == old(shape)[Child(n, index) := next];
    }

    /** Installs one leaf.  Succeeds exactly when the root is not null, both addresses are page
        bases, the page is unmapped and the allocator grants the missing tables.  Success adds one
        key to the abstract map; failure changes no translation. */
    method MapPage(root: u64, va: u64, pa: u64, flags: u64) returns (ok: bool)
      requires Valid() && (root == 0 || Top(root) in shape)
      modifies this`frames, this`shape, pmm.usedBitmap, pmm`freePages
      ensures Valid()
      ensures ok <==> && root != 0
                      && Page.IsPageAligned(va) && Page.IsPageAligned(pa)
                      && Vpn(va) !in View(old(frames), old(shape), root)
                      && Grants(old(pmm.Abs()), pmm.managedBase, Missing(old(shape), root, Vpn(va)))
      ensures View(frames, shape, root) == if ok then View(old(frames), old(shape), root)[Vpn(va) := MakePte(pa, Or64(flags, PTE_V))]
                              else View(old(frames), old(shape), root)
      ensures OthersKept(old(frames), old(shape), frames, shape, root)
      ensures Grown(old(shape), shape, root, Vpn(va))
      ensures ok ==> PathComplete(shape, root, Vpn(va))
      ensures ok ==> (ZeroPageFree(old(pmm.Abs()), pmm.managedBase) <==> ZeroPageFree(pmm.Abs(), pmm.managedBase))
      ensures Paid(old(pmm.Abs()), old(shape), pmm.Abs(), shape, pmm.managedBase)
      ensures if root != 0 && Page.IsPageAligned(va) && Page.IsPageAligned(pa) && Vpn(va) !in View(old(frames), old(shape), root)
              then Took(old(pmm.Abs()), old(shape), pmm.Abs(), shape, pmm.managedBase, Missing(old(shape), root, Vpn(va)))
              else frames == old(frames) && shape == old(shape) && pmm.Abs() == old(pmm.Abs())
      ensures DataKept(old(frames), frames, shape)
    {
      hide *;
      ghost var f0, s0, p0, base, v := frames, shape, pmm.Abs(), pmm.managedBase, Vpn(va);
      NothingYet(frames, shape, p0, base, root, v);
      NothingBuilt(p0, s0, base);
      DataSame(f0, s0);
      ghost var built := 0;
      if root == 0 {
        return false;
      }
      if !Page.IsPageAligned(va) || !Page.IsPageAligned(pa) {
        return false;
      }
      ValidParts();
      var table := root;
      var level := 2;
      TopIsRoot(frames, shape, root, v);
      while level > 0
        invariant 0 <= level <= 2 && base == pmm.managedBase
        invariant Valid()
        invariant NodeAt(root, v, level) in shape && shape[NodeAt(root, v, level)] == table
        invariant SameSpaces(f0, s0, frames, shape)
        invariant Grown(s0, shape, root, v)
        invariant Paid(p0, s0, pmm.Abs(), shape, base)
        invariant ZeroPageFree(p0, base) <==> ZeroPageFree(pmm.Abs(), base)
        invariant Grants(p0, base, Missing(s0, root, v)) <==> Grants(pmm.Abs(), base, Missing(shape, root, v))
        invariant Built(p0, s0, pmm.Abs(), shape, base, built) && built + Missing(shape, root, v) == Missing(s0, root, v)
        invariant DataKept(f0, frames, shape)
        invariant shape == s0 ==> frames == f0 && pmm.Abs() == p0
        decreases level
      {
        ghost var next := NodeAt(root, v, level - 1);
        var index := VpnIndex(va, level);
        ValidParts();
        StepDown(frames, shape, root, v, level);
        InFrames(frames, shape, NodeAt(root, v, level));
        var pte := frames[table][index];
        EntryIs(frames, table, index);
        ChildOnPath(root, v, level);

        if !PteValid(pte) {
          ghost var p1, s1, f1 := pmm.Abs(), shape, frames;
          MissingHere(frames, shape, p1, base, root, v, level);
          NoPathNoPage(frames, shape, root, v, level - 1);
          SpaceOf(f0, s0, f1, s1, root);
          pte := InstallTable(table, index, NodeAt(root, v, level));
          SameSpacesChain(f0, s0, f1, s1, frames, shape);
          if pte == 0 {
            BuiltUntil(p0, s0, p1, s1, base, built, built + level);
            NothingTaken(p0, s0, p1, s1, base);
            GrantsStep(p1, base, level - 1);
            SpaceOf(f0, s0, frames, shape, root);
            return false;
          }
          TableTaken(p0, s0, p1, s1, base, root, v, level, PteToPa(pte));
          BuiltOne(p0, s0, p1, s1, base, built, next, PteToPa(pte));
          GrownKeeps(s1, s1, shape, root, v);
          DataChain(f0, f1, s1, frames, shape);
          built := built + 1;
        }

        if PteLeaf(pte) {
          assert false;
        }

        table := PteToPa(pte);
        level := level - 1;
      }

      ghost var n := NodeAt(root, v, 0);
      var index := VpnIndex(va, 0);
      ValidParts();
      InFrames(frames, shape, n);
      EntryIs(frames, table, index);
      PathIsComplete(frames, shape, pmm.Abs(), base, root, v);
      ViewAt(frames, shape, root, v);
      SpaceOf(f0, s0, frames, shape, root);
      BottomIsLast(root, v);
      BuiltAll(p0, s0, pmm.Abs(), shape, base, built);
      var leaf := frames[table][index];
      if PteValid(leaf) {
        MappedUntouched(f0, s0, shape, root, v);
        return false;
      }

      var pte := MakePte(pa, Or64(flags, PTE_V));
      LeafPteValid(pa, flags);
      ZeroPte();
      SetLeaf(frames, shape, n, index, pte);
      forall r: u64
        ensures View(WithEntry(frames, table, index, pte), shape, r) ==
                if r != root then View(frames, shape, r) else View(frames, shape, root)[v := pte]
      {
        SetLeafView(frames, shape, root, v, pte, r);
      }
      LeafOwned(frames, shape, n, index, pte, base, pmm.Abs());
      OneSpaceChanged(f0, s0, frames, shape, WithEntry(frames, table, index, pte), root);
      DataEntry(frames, shape, n, index, pte);
      KeptSame(shape);
      DataChain(f0, frames, shape, WithEntry(frames, table, index, pte), shape);
      frames := WithEntry(frames, table, index, pte);
      ValidFromParts();
      return true;
    }

    /** Maps the pages of a range one by one.  `mapped` pages are mapped: all of them, or those before
        the first page that cannot be mapped; they stay mapped when the call fails. */
    method MapRange(root: u64, va: u64, pa: u64, size: u64, flags: u64) returns (ok: bool, ghost mapped: nat)
      requires Valid() && (root == 0 || Top(root) in shape)
      modifies this`frames, this`shape, pmm.usedBitmap, pmm`freePages
      ensures Valid()
      ensures mapped <= PageCount(va, size) && (root == 0 ==> mapped == 0)
      ensures View(frames, shape, root) == Extend(View(old(frames), old(shape), root), va, pa, flags, mapped)
      ensures OthersKept(old(frames), old(shape), frames, shape, root)
      ensures Mappable(View(old(frames), old(shape), root), old(shape), old(pmm.Abs()), pmm.managedBase, root, va, mapped)
      ensures mapped < PageCount(va, size) ==>
                || root == 0 || !Page.IsPageAligned(va) || !Page.IsPageAligned(pa)
                || !Mappable(View(old(frames), old(shape), root), old(shape), old(pmm.Abs()), pmm.managedBase, root, va, mapped + 1)
      ensures ok <==> || size == 0
                      || (&& Page.IsPageAligned(va) && Page.IsPageAligned(pa)
                          && (|| PageCount(va, size) == 0
                              || (root != 0 && Mappable(View(old(frames), old(shape), root), old(shape), old(pmm.Abs()),
                                                        pmm.managedBase, root, va, PageCount(va, size)))))
      ensures Kept(old(shape), shape) && GrownWithin(old(shape), shape, root, va, PageCount(va, size))
      ensures ok ==> mapped == PageCount(va, size) && GrownBy(old(shape), shape, root, va, mapped)
      ensures ok ==> (ZeroPageFree(old(pmm.Abs()), pmm.managedBase) <==> ZeroPageFree(pmm.Abs(), pmm.managedBase))
      ensures Paid(old(pmm.Abs()), old(shape), pmm.Abs(), shape, pmm.managedBase)
      ensures if root == 0 || !Page.IsPageAligned(va) || !Page.IsPageAligned(pa) || PageCount(va, size) == 0
              then frames == old(frames) && shape == old(shape) && pmm.Abs() == old(pmm.Abs())
              else Took(old(pmm.Abs()), old(shape), pmm.Abs(), shape, pmm.managedBase,
                        |Needed(old(shape), root, va, Attempted(View(frames, shape, root), va, mapped, PageCount(va, size)))|)
      ensures DataKept(old(frames), frames, shape)
    {
      hide *;
      ghost var f0, s0, p0, base := frames, shape, pmm.Abs(), pmm.managedBase;
      DataSame(f0, s0);
      NothingBuilt(p0, s0, base);
      ghost var m := View(f0, s0, root);
      ghost var count := PageCount(va, size);
      mapped := 0;
      NothingYet(f0, s0, p0, base, root, 0);
      NoPageYet(m, s0, p0, base, root, va, pa, flags, count);
      NothingNeeded(s0, root, va);
      CountIs(va, size);
      if size == 0 {
        return true, 0;
      }
      if !Page.IsPageAligned(va) || !Page.IsPageAligned(pa) {
        return false, 0;
      }
      PageCountExact(va, size);
      var end := Page.AlignUp(Wrap(va + size));
      var curVa, curPa := va, pa;
      while curVa < end
        invariant Valid() && base == pmm.managedBase
        invariant root == 0 || Top(root) in shape
        invariant mapped <= count && curVa == va + 0x1000 * mapped && curPa == Wrap(pa + 0x1000 * mapped)
        invariant mapped > 0 ==> root != 0
        invariant View(frames, shape, root) == Extend(m, va, pa, flags, mapped)
        invariant OthersKept(f0, s0, frames, shape, root)
        invariant Mappable(m, s0, p0, base, root, va, mapped)
        invariant GrownBy(s0, shape, root, va, mapped) && Kept(s0, shape)
        invariant GrownWithin(s0, shape, root, va, count)
        invariant ZeroPageFree(p0, base) <==> ZeroPageFree(pmm.Abs(), base)
        invariant Paid(p0, s0, pmm.Abs(), shape, base)
        invariant Built(p0, s0, pmm.Abs(), shape, base, |Needed(s0, root, va, mapped)|)
        invariant DataKept(f0, frames, shape)
        invariant mapped == 0 ==> frames == f0 && shape == s0 && pmm.Abs() == p0
        decreases count - mapped
      {
        ghost var f1, s1, p1 := frames, shape, pmm.Abs();
        NthVpnIs(va, mapped);
        NthPaAligned(pa, mapped);
        NextPageHere(m, s0, p0, s1, p1, base, root, va, pa, flags, mapped);
        var done := MapPage(root, curVa, curPa, flags);
        OthersChain(f0, s0, f1, s1, frames, shape, root);
        GrownKeeps(s0, s1, shape, root, Vpn(curVa));
        PaidChain(p0, s0, p1, s1, pmm.Abs(), shape, base);
        DataChain(f0, f1, s1, frames, shape);
        PageTook(m, p0, s0, p1, s1, View(frames, shape, root), pmm.Abs(), shape, base, root, va, pa, flags, mapped, count, done);
        OnPath(s0, s1, shape, root, va, mapped, count);
        if !done {
          if root != 0 {
            NotAll(m, s0, p0, base, root, va, mapped, count);
          }
          return false, mapped;
        }
        ExtendOne(m, va, pa, flags, mapped);
        OnePathMore(s0, s1, shape, root, va, mapped);
        NextPa(pa, mapped);
        curVa := curVa + 0x1000;
        curPa := Wrap(curPa as nat + 0x1000);
        mapped := mapped + 1;
      }
      BuiltAll(p0, s0, pmm.Abs(), shape, base, |Needed(s0, root, va, mapped)|);
      AllAttempted(View(frames, shape, root), va, count);
      return true, mapped;
    }

    /** Translates through the abstract map. */
    method VirtToPhys(root: u64, va: u64) returns (pa: u64)
      requires Valid() && (root == 0 || Top(root) in shape)
      ensures pa == if root == 0 then 0 else Lookup(View(frames, shape, root), va)
    {
      hide *;
      if root == 0 {
        return 0;
      }
      ghost var v := Vpn(va);
      ValidParts();
      TopIsRoot(frames, shape, root, v);
      WalkIsLookup(frames, shape, root, va);
      var table := root;
      var level := 2;
      while level >= 0
        invariant -1 <= level <= 2
        invariant level >= 0 ==> NodeAt(root, v, level) in shape && shape[NodeAt(root, v, level)] == table
        invariant WalkFrom(frames, table, va, level) == WalkFrom(frames, root, va, 2)
      {
        var index := VpnIndex(va, level);
        InFrames(frames, shape, NodeAt(root, v, level));
        EntryIs(frames, table, index);
        WalkStep(frames, table, va, level);
        var pte := frames[table][index];
        if !PteValid(pte) {
          return 0;
        }
        if PteLeaf(pte) {
          var pageBase := PteToPa(pte);
          TranslatedIs(pte, va);
          return pageBase + Page.PageOffset(va);
        }
        if level > 0 {
          StepDown(frames, shape, root, v, level);
        }
        table := PteToPa(pte);
        level := level - 1;
      }
      WalkEnd(frames, table, va);
      return 0;
    }

    /** Removes one leaf.  Succeeds exactly when the page is mapped by a leaf entry; success removes
        one key from the abstract map, failure changes nothing.  No table is given back. */
    method UnmapPage(root: u64, va: u64) returns (ok: bool)
      requires Valid() && (root == 0 || Top(root) in shape)
      modifies this`frames
      ensures Valid()
      ensures ok <==> root != 0 && Page.IsPageAligned(va)
                      && Vpn(va) in View(old(frames), old(shape), root) && PteLeaf(View(old(frames), old(shape), root)[Vpn(va)])
      ensures View(frames, shape, root) == if ok then View(old(frames), old(shape), root) - {Vpn(va)} else View(old(frames), old(shape), root)
      ensures OthersKept(old(frames), shape, frames, shape, root)
      ensures !ok ==> frames == old(frames)
      ensures DataKept(old(frames), frames, shape)
    {
      hide *;
      DataSame(frames, shape);
      NothingYet(frames, shape, pmm.Abs(), pmm.managedBase, root, Vpn(va));
      if root == 0 || !Page.IsPageAligned(va) {
        return false;
      }
      ghost var v := Vpn(va);
      ValidParts();
      TopIsRoot(frames, shape, root, v);
      var table := root;
      var level := 2;
      while level > 0
        invariant 0 <= level <= 2
        invariant frames == old(frames) && Valid() && Tree(frames, shape)
        invariant NodeAt(root, v, level) in shape && shape[NodeAt(root, v, level)] == table
      {
        var index := VpnIndex(va, level);
        StepDown(frames, shape, root, v, level);
        InFrames(frames, shape, NodeAt(root, v, level));
        EntryIs(frames, table, index);
        var pte := frames[table][index];
        if !PteValid(pte) || PteLeaf(pte) {
          NoPathNoPage(frames, shape, root, v, level - 1);
          return false;
        }
        table := PteToPa(pte);
        level := level - 1;
      }
      ghost var n := NodeAt(root, v, 0);
      var index := VpnIndex(va, 0);
      InFrames(frames, shape, n);
      EntryIs(frames, table, index);
      ViewAt(frames, shape, root, v);
      BottomIsLast(root, v);
      var leaf := frames[table][index];
      if !PteValid(leaf) || !PteLeaf(leaf) {
        return false;
      }
      SetLeaf(frames, shape, n, index, 0);
      forall r: u64
        ensures View(WithEntry(frames, table, index, 0), shape, r) ==
                if r != root then View(frames, shape, r) else View(frames, shape, root) - {v}
      {
        SetLeafView(frames, shape, root, v, 0, r);
      }
      LeafOwned(frames, shape, n, index, 0, pmm.managedBase, pmm.Abs());
      NothingYet(frames, shape, pmm.Abs(), pmm.managedBase, root, v);
      OneSpaceChanged(frames, shape, frames, shape, WithEntry(frames, table, index, 0), root);
      DataEntry(frames, shape, n, index, 0);
      frames := WithEntry(frames, table, index, 0);
      ValidFromParts();
      return true;
    }

    lemma ValidFromParts()
      requires Tree(frames, shape) && Owned(frames, shape, pmm.managedBase, pmm.Abs()) && pmm.Valid()
      ensures Valid()
    {}

    lemma ValidParts()
      requires Valid()
      ensures Tree(frames, shape) && Owned(frames, shape, pmm.managedBase, pmm.Abs()) && pmm.Valid()
    {}
  }

  lemma AllocatedCanLink(before: Shape, frames: Frames, shape: Shape, n: Node, i: nat, child: u64)
    requires n in before && !n.Bottom? && i < 512 && Child(n, i) !in before
    requires Tree(frames, shape) && Top(child) !in before && shape == before[Top(child) := child]
    requires child in frames && IsEmpty(frames[child])
    ensures CanLink(frames, shape, n, i, child)
    ensures Page.IsPageAligned(child) && shape[n] in frames
    ensures LinkedShape(shape, n, i, child) == before[Child(n, i) := child]
  {
    hide Separate, Rooted, Linked, LeavesValid;
    assert shape[Top(child)] == child;
  }

  lemma LinkedOwned(frames: Frames, shape: Shape, n: Node, i: nat, child: u64, base: u64, pool: Pool)
    requires Tree(frames, shape) && CanLink(frames, shape, n, i, child) && Owned(frames, shape, base, pool)
    ensures Owned(WithEntry(frames, shape[n], i, MakePte(child, PTE_V)), LinkedShape(shape, n, i, child), base, pool)
  {
    hide MakePte, Separate, Rooted, Linked, LeavesValid;
    assert shape[Top(child)] == child;
  }

  lemma LinkedData(f: Frames, s: Shape, frames: Frames, shape: Shape, n: Node, i: nat, child: u64)
    requires n in s && !n.Bottom? && i < 512 && Child(n, i) !in s
    requires Top(child) !in s && shape == s[Top(child) := child]
    requires DataKept(f, frames, shape) && shape[n] in frames && Page.IsPageAligned(child)
    ensures DataKept(f, WithEntry(frames, shape[n], i, MakePte(child, PTE_V)), s[Child(n, i) := child])
  {
    hide MakePte;
    var s' := s[Child(n, i) := child];
    forall x | x in shape.Values
      ensures x in s'.Values
    {
      var m :| m in shape && shape[m] == x;
      assert s'[if m == Top(child) then Child(n, i) else m] == x;
    }
  }

  // ---- steps of map_page

  lemma DataSame(f: Frames, s: Shape)
    ensures DataKept(f, f, s)
  {}

  lemma DataChain(f: Frames, f': Frames, s': Shape, f'': Frames, s'': Shape)
    requires DataKept(f, f', s') && DataKept(f', f'', s'') && Kept(s', s'')
    ensures DataKept(f, f'', s'')
  {
    forall x | x in s'.Values
      ensures x in s''.Values
    {
      var n :| n in s' && s'[n] == x;
      assert s''[n] == x;
    }
  }

  lemma KeptSame(s: Shape)
    ensures Kept(s, s)
  {}

  /** Writing a table entry changes no other memory. */
  lemma DataEntry(f: Frames, s: Shape, n: Node, i: nat, pte: Pte)
    requires n in s && s[n] in f && i < 512
    ensures DataKept(f, WithEntry(f, s[n], i, pte), s)
  {}

  lemma NothingBuilt(p: Pool, s: Shape, base: u64)
    ensures Built(p, s, p, s, base, 0)
  {}

  lemma BuiltOne(p0: Pool, s0: Shape, p: Pool, s: Shape, base: u64, d: nat, n: Node, page: u64)
    requires Built(p0, s0, p, s, base, d) && n !in s && !ReturnsNull(p, base)
    ensures Built(p0, s0, Taken(p), s[n := page], base, d + 1)
  {
    hide Taken, Pool.Available;
    TakenManyIs(p0, base, d);
    AvailableCount(p);
    OneMoreTable(s, n, page);
  }

  /** The call that finds no page ends the building. */
  lemma BuiltUntil(p0: Pool, s0: Shape, p: Pool, s: Shape, base: u64, d: nat, n: nat)
    requires Built(p0, s0, p, s, base, d) && ReturnsNull(p, base) && d < n
    ensures Took(p0, s0, Taken(p), s, base, n)
  {
    hide Taken, Pool.Available;
    TakenManyIs(p0, base, d);
    TakenManyIs(p0, base, n);
    TakenIs(p, base);
    AvailableCount(p);
    if p.Available() == {} {
      TakenNothing(p, base, n - d);
      TakenManyAdd(p0, d, n - d);
    }
  }

  lemma BuiltAll(p0: Pool, s0: Shape, p: Pool, s: Shape, base: u64, d: nat)
    requires Built(p0, s0, p, s, base, d)
    ensures Took(p0, s0, p, s, base, d)
  {
    hide Taken, Pool.Available;
    TakenManyIs(p0, base, d);
  }

  /** What a call takes after others that did not fail. */
  lemma TookAfter(p0: Pool, s0: Shape, p1: Pool, s1: Shape, p2: Pool, s2: Shape, base: u64, d: nat, n: nat)
    requires Built(p0, s0, p1, s1, base, d) && Took(p1, s1, p2, s2, base, n)
    ensures Took(p0, s0, p2, s2, base, d + n)
    ensures Grants(p1, base, n) ==> Built(p0, s0, p2, s2, base, d + n)
  {
    hide Taken, Pool.Available;
    TakenManyIs(p0, base, d);
    TakenManyIs(p0, base, d + n);
    TakenManyAdd(p0, d, n);
  }

  /** A mapped page misses no table, so nothing was built for it. */
  lemma MappedUntouched(f: Frames, s: Shape, s': Shape, root: u64, v: nat)
    requires Tree(f, s) && v in View(f, s, root) && Grown(s, s', root, v)
    ensures s' == s
  {
    hide Placed, Separate, Linked, LeavesValid;
    NoOrphan(f, s, root, v);
    assert s'.Keys == s.Keys;
  }

  lemma NothingYet(frames: Frames, shape: Shape, p: Pool, base: u64, root: u64, v: nat)
    ensures SameSpaces(frames, shape, frames, shape) && OthersKept(frames, shape, frames, shape, root)
    ensures Kept(shape, shape) && Grown(shape, shape, root, v) && Paid(p, shape, p, shape, base)
  {}

  lemma InFrames(frames: Frames, shape: Shape, n: Node)
    requires Tree(frames, shape) && n in shape
    ensures shape[n] in frames && shape[n] != 0
  {}

  lemma EntryIs(frames: Frames, table: u64, i: nat)
    requires table in frames && i < 512
    ensures frames[table][i] == Entry(frames, table, i)
  {}

  lemma ChildOnPath(root: u64, v: nat, level: nat)
    requires 1 <= level <= 2
    ensures !NodeAt(root, v, level).Bottom?
    ensures Child(NodeAt(root, v, level), VpnDigit(v, level)) == NodeAt(root, v, level - 1)
  {}

  lemma SameSpacesChain(f: Frames, s: Shape, f': Frames, s': Shape, f'': Frames, s'': Shape)
    requires SameSpaces(f, s, f', s') && SameSpaces(f', s', f'', s'')
    ensures SameSpaces(f, s, f'', s'')
  {
    hide View;
  }

  /** With the table at this level there and the next one missing, at least one table is missing. */
  lemma MissingHere(frames: Frames, shape: Shape, p: Pool, base: u64, root: u64, v: nat, level: nat)
    requires Tree(frames, shape) && 1 <= level <= 2
    requires NodeAt(root, v, level) in shape && NodeAt(root, v, level - 1) !in shape
    ensures Missing(shape, root, v) == level
  {
    NoOrphan(frames, shape, root, v);
  }

  lemma NothingTaken(p0: Pool, s0: Shape, p: Pool, s: Shape, base: u64)
    requires Paid(p0, s0, p, s, base) && ReturnsNull(p, base)
    ensures Paid(p0, s0, Taken(p), s, base)
  {
    hide Pool.Lowest;
    TakenIs(p, base);
    GrantsStep(p, base, 0);
    if p.Available() != {} {
      StillAccounted(p0, p, s, s, base);
      StillFromPool(p0, s0, p, s, base);
    }
  }

  lemma StillFromPool(p0: Pool, s0: Shape, p: Pool, s: Shape, base: u64)
    requires TablesFromPool(p0, s0, p, s, base)
    ensures TablesFromPool(p0, s0, Taken(p), s, base)
  {
    hide Pool.Lowest, Pool.Available;
  }

  lemma NewFromPool(p0: Pool, s0: Shape, p: Pool, s: Shape, base: u64, n: Node, page: u64)
    requires TablesFromPool(p0, s0, p, s, base) && TablesAccounted(p0, p, s, base)
    requires p.Available() != {} && p.Lowest(0) >= 0 && p.Lowest(0) in p.Available() && page == PageAt(base, p.Lowest(0))
    ensures TablesFromPool(p0, s0, Taken(p), s[n := page], base)
  {
    hide Pool.Lowest, PageAt;
    StillFromPool(p0, s0, p, s, base);
    var s' := s[n := page];
    forall m | m in s' && m !in s0
      ensures exists i: nat :: i < p0.total && i in p0.free && i !in Taken(p).free && s'[m] == PageAt(base, i)
    {
      if m == n {
        var i: nat := p.Lowest(0);
        assert i < p0.total && i in p0.free && i !in Taken(p).free;
      } else {
        assert m in s && s'[m] == s[m];
      }
    }
  }

  lemma StillAccounted(p0: Pool, p: Pool, s: Shape, s': Shape, base: u64)
    requires TablesAccounted(p0, p, s, base) && s.Values <= s'.Values && p.Available() != {}
    requires p.Lowest(0) >= 0 && (PageAt(base, p.Lowest(0)) == 0 || PageAt(base, p.Lowest(0)) in s'.Values)
    ensures TablesAccounted(p0, Taken(p), s', base)
  {
    hide Pool.Lowest, Pool.Available;
    forall i | i in p0.free && i !in Taken(p).free
      ensures PageAt(base, i) == 0 || PageAt(base, i) in s'.Values
    {
      assert i == p.Lowest(0) || i !in p.free;
    }
  }

  lemma OneMoreTable(s: Shape, n: Node, page: u64)
    requires n !in s
    ensures |s[n := page]| == |s| + 1
    ensures s.Values <= s[n := page].Values && page in s[n := page].Values
  {
    var s' := s[n := page];
    assert s'.Keys == s.Keys + {n};
    assert s'[n] == page;
    forall x | x in s.Values
      ensures x in s'.Values
    {
      var m :| m in s && s[m] == x;
      assert s'[m] == x;
    }
  }

  lemma TableTaken(p0: Pool, s0: Shape, p: Pool, s: Shape, base: u64, root: u64, v: nat, level: nat, page: u64)
    requires 1 <= level <= 2 && Missing(s, root, v) == level && NodeAt(root, v, level - 1) !in s
    requires !ReturnsNull(p, base) && page == PageAt(base, p.Lowest(0))
    requires Paid(p0, s0, p, s, base) && Grown(s0, s, root, v)
    ensures var s' := s[NodeAt(root, v, level - 1) := page];
            && Paid(p0, s0, Taken(p), s', base)
            && Grown(s0, s', root, v) && Missing(s', root, v) == level - 1
            && (ZeroPageFree(p, base) <==> ZeroPageFree(Taken(p), base))
            && (Grants(p, base, Missing(s, root, v)) <==> Grants(Taken(p), base, Missing(s', root, v)))
  {
    hide Pool.Lowest, Pool.Available, Taken, TablesAccounted, VpnDigit, PageAt;
    TakenIs(p, base);
    GrantsStep(p, base, level - 1);
    var next := NodeAt(root, v, level - 1);
    OneMoreTable(s, next, page);
    StillAccounted(p0, p, s, s[next := page], base);
    NewFromPool(p0, s0, p, s, base, next, page);
  }

  lemma FreshPage(base: u64, index: nat)
    requires base % 0x1000 == 0
    ensures PageAt(base, index) % 0x1000 == 0
  {}

  /** Taking the lowest page keeps the remaining free pages apart from all tables. */
  lemma TakenOwned(frames: Frames, shape: Shape, base: u64, pool: Pool)
    requires forall i: nat :: i < pool.total ==> PageAt(base, i) in frames
    requires forall n, i: nat :: n in shape && i in pool.Available() && i != pool.Lowest(0) ==> shape[n] != PageAt(base, i)
    ensures Owned(frames, shape, base, Taken(pool))
  {
    TakenIs(pool, base);
  }

  // ---- steps of map_range

  lemma NoPageYet(m: map<nat, Pte>, s: Shape, p: Pool, base: u64, root: u64, va: u64, pa: u64, flags: u64, count: nat)
    ensures Extend(m, va, pa, flags, 0) == m
    ensures Mappable(m, s, p, base, root, va, 0)
    ensures GrownBy(s, s, root, va, 0)
    ensures GrownWithin(s, s, root, va, count)
  {
    hide NodeAt, NthVpn, NthPte;
    assert PathNodes(root, va, 0) == {};
    assert Needed(s, root, va, 0) == {};
  }

  lemma OnPath(s: Shape, s': Shape, s'': Shape, root: u64, va: u64, k: nat, count: nat)
    requires GrownBy(s, s', root, va, k) && k < count && Grown(s', s'', root, NthVpn(va, k))
    ensures GrownWithin(s, s'', root, va, count)
  {
    hide GrownBy, GrownWithin, NthVpn, NodeAt;
    WithinOne(s, s', s'', root, va, k, count);
  }

  lemma CountIs(va: u64, size: u64)
    ensures size == 0 ==> PageCount(va, size) == 0
    ensures va % 0x1000 == 0 && size != 0 ==>
              var end := Page.AlignUp(Wrap(va + size));
              if end <= va then PageCount(va, size) == 0 else end == va + 0x1000 * PageCount(va, size)
  {}

  lemma NthPaAligned(pa: u64, k: nat)
    requires pa % 0x1000 == 0
    ensures Wrap(pa + 0x1000 * k) % 0x1000 == 0
  {
    var x := pa + 0x1000 * k;
    WrapIs(x, x / WORD_LIMIT);
    MultipleOfPage(pa / 0x1000 + k - 0x10_0000_0000_0000 * (x / WORD_LIMIT));
  }

  lemma WrapIs(x: nat, q: nat)
    requires q == x / WORD_LIMIT
    ensures Wrap(x) == x - WORD_LIMIT * q
  {}

  lemma MultipleOfPage(n: int)
    ensures 0x1000 * n % 0x1000 == 0
  {}

  lemma NextPa(pa: u64, k: nat)
    ensures Wrap(Wrap(pa + 0x1000 * k) + 0x1000) == Wrap(pa + 0x1000 * (k + 1))
  {
    var x := pa + 0x1000 * k;
    assert x == WORD_LIMIT * (x / WORD_LIMIT) + Wrap(x);
    assert x + 0x1000 == WORD_LIMIT * (x / WORD_LIMIT) + (Wrap(x) + 0x1000);
  }

  lemma NextPageHere(m: map<nat, Pte>, s: Shape, p: Pool, s': Shape, p': Pool, base: u64, root: u64, va: u64,
                     pa: u64, flags: u64, k: nat)
    requires Mappable(m, s, p, base, root, va, k) && GrownBy(s, s', root, va, k) && Paid(p, s, p', s', base)
    requires ZeroPageFree(p, base) <==> ZeroPageFree(p', base)
    ensures Mappable(m, s, p, base, root, va, k + 1)
            <==> (&& NthVpn(va, k) !in Extend(m, va, pa, flags, k)
                  && Grants(p', base, Missing(s', root, NthVpn(va, k))))
  {
    hide Mappable, GrownBy, Missing, Grants, Extend, NthVpn, ZeroPageFree, TablesAccounted;
    NextPage(m, s, p, s', p', base, root, va, pa, flags, k);
  }

  lemma NothingNeeded(s: Shape, root: u64, va: u64)
    ensures |Needed(s, root, va, 0)| == 0
  {
    assert Needed(s, root, va, 0) == {};
  }

  lemma AllAttempted(view: map<nat, Pte>, va: u64, count: nat)
    ensures Attempted(view, va, count, count) == count
  {}

  /** The tables taken when map_page is called for page k, whether it succeeds or not. */
  lemma PageTook(m: map<nat, Pte>, p0: Pool, s0: Shape, p: Pool, s: Shape, view: map<nat, Pte>, p': Pool, s': Shape,
                 base: u64, root: u64, va: u64, pa: u64, flags: u64, k: nat, count: nat, done: bool)
    requires GrownBy(s0, s, root, va, k) && Built(p0, s0, p, s, base, |Needed(s0, root, va, k)|) && k < count
    requires root != 0 ==>
               if NthVpn(va, k) !in Extend(m, va, pa, flags, k) then Took(p, s, p', s', base, Missing(s, root, NthVpn(va, k)))
               else s' == s && p' == p
    requires done ==> root != 0 && NthVpn(va, k) !in Extend(m, va, pa, flags, k) && Grants(p, base, Missing(s, root, NthVpn(va, k)))
    requires !done ==> view == Extend(m, va, pa, flags, k)
    ensures done ==> Built(p0, s0, p', s', base, |Needed(s0, root, va, k + 1)|)
    ensures !done && root != 0 ==> Took(p0, s0, p', s', base, |Needed(s0, root, va, Attempted(view, va, k, count))|)
  {
    hide GrownBy, Built, Took, Extend, Needed, Missing, NthVpn, Grants;
    if root != 0 {
      NeededStep(s0, s, root, va, k);
      if NthVpn(va, k) !in Extend(m, va, pa, flags, k) {
        TookAfter(p0, s0, p, s, p', s', base, |Needed(s0, root, va, k)|, Missing(s, root, NthVpn(va, k)));
      } else {
        BuiltAll(p0, s0, p, s, base, |Needed(s0, root, va, k)|);
      }
    }
  }

  lemma NotAll(m: map<nat, Pte>, s: Shape, p: Pool, base: u64, root: u64, va: u64, k: nat, count: nat)
    requires k < count && !Mappable(m, s, p, base, root, va, k + 1)
    ensures !Mappable(m, s, p, base, root, va, count)
  {
    if Mappable(m, s, p, base, root, va, count) {
      MappablePrefix(m, s, p, base, root, va, k + 1, count);
    }
  }

  lemma OthersChain(f: Frames, s: Shape, f': Frames, s': Shape, f'': Frames, s'': Shape, root: u64)
    requires OthersKept(f, s, f', s', root) && OthersKept(f', s', f'', s'', root)
    ensures OthersKept(f, s, f'', s'', root)
    ensures Top(root) in s <==> Top(root) in s''
  {
    hide View;
  }

  lemma GrownKeeps(s: Shape, s': Shape, s'': Shape, root: u64, v: nat)
    requires Kept(s, s') && Grown(s', s'', root, v)
    ensures Kept(s', s'') && Kept(s, s'')
  {}

  lemma PaidChain(p: Pool, s: Shape, p': Pool, s': Shape, p'': Pool, s'': Shape, base: u64)
    requires Paid(p, s, p', s', base) && Paid(p', s', p'', s'', base) && Kept(s', s'')
    ensures Paid(p, s, p'', s'', base)
  {
    hide ZeroPageFree, Pool.Available, TablesFromPool;
    FromPoolChain(p, s, p', s', p'', s'', base);
    forall x | x in s'.Values
      ensures x in s''.Values
    {
      var n :| n in s' && s'[n] == x;
      assert s''[n] == x;
    }
  }

  lemma FromPoolChain(p: Pool, s: Shape, p': Pool, s': Shape, p'': Pool, s'': Shape, base: u64)
    requires TablesFromPool(p, s, p', s', base) && TablesFromPool(p', s', p'', s'', base) && Kept(s', s'')
    requires p'.free <= p.free && p''.free <= p'.free && p'.total == p.total
    ensures TablesFromPool(p, s, p'', s'', base)
  {
    forall n | n in s'' && n !in s
      ensures exists i: nat :: i < p.total && i in p.free && i !in p''.free && s''[n] == PageAt(base, i)
    {
      if n in s' {
        var i: nat :| i < p.total && i in p.free && i !in p'.free && s'[n] == PageAt(base, i);
        assert i !in p''.free;
      } else {
        var i: nat :| i < p'.total && i in p'.free && i !in p''.free && s''[n] == PageAt(base, i);
        assert i in p.free;
      }
    }
  }

  /** A call takes at most one page for each region that its range reaches, whether it succeeds or not,
      when page 0 is not free. */
  lemma PagesTaken(p: Pool, s: Shape, p': Pool, s': Shape, base: u64, root: u64, va: u64, k: nat)
    requires Paid(p, s, p', s', base) && !ZeroPageFree(p, base) && GrownWithin(s, s', root, va, k)
    requires k > 0 && va / 0x1000 % VPN_LIMIT + k <= VPN_LIMIT
    ensures |p.Available()| - |p'.Available()| == |s'| - |s| <= Regions(va, k)
  {
    hide Regions, GrownWithin, TablesAccounted, TablesFromPool, ZeroPageFree, Pool.Available;
    TablesBuilt(s, s', root, va, k);
  }

  lemma ExtendOne(m: map<nat, Pte>, va: u64, pa: u64, flags: u64, k: nat)
    ensures Extend(m, va, pa, flags, k + 1) ==
            Extend(m, va, pa, flags, k)[NthVpn(va, k) := MakePte(Wrap(pa + 0x1000 * k), Or64(flags, PTE_V))]
  {}

  lemma OnePathMore(s: Shape, s': Shape, s'': Shape, root: u64, va: u64, k: nat)
    requires GrownBy(s, s', root, va, k) && Grown(s', s'', root, NthVpn(va, k))
    requires PathComplete(s'', root, NthVpn(va, k))
    ensures GrownBy(s, s'', root, va, k + 1)
  {
    hide GrownBy;
    GrowOne(s, s', s'', root, va, k);
  }

  // ---- what a mapping means to a caller

  /** Once mapped, an address of the page translates to the address given exactly when the flags
      include R, W or X and none above bit 9 falls on a clear bit of the page base; with no R, W or X
      it reads as unmapped, which is also the translation of an address in physical page 0. */
  lemma MapThenTranslate(view: map<nat, Pte>, va: u64, pa: u64, flags: u64)
    requires Page.IsPageAligned(pa)
    ensures var mapped := view[Vpn(va) := MakePte(pa, Or64(flags, PTE_V))];
            Lookup(mapped, va) == pa + va % 0x1000 <==>
            if PteLeaf(flags) then And(StrayFlags(Or64(flags, PTE_V)), Not(pa)) == 0 else pa + va % 0x1000 == 0
  {
    hide MakePte, PteToPa, PteLeaf, StrayFlags, Vpn, Or64;
    LeafPteValid(pa, flags);
    DecodeMadePte(pa, Or64(flags, PTE_V));
  }

  // ---- the last level

  lemma PathIsComplete(frames: Frames, shape: Shape, p: Pool, base: u64, root: u64, v: nat)
    requires Tree(frames, shape) && NodeAt(root, v, 0) in shape
    ensures PathComplete(shape, root, v) && Missing(shape, root, v) == 0
    ensures Grants(p, base, Missing(shape, root, v))
  {
    NoOrphan(frames, shape, root, v);
  }

  lemma BottomIsLast(root: u64, v: nat)
    ensures NodeAt(root, v, 0).Bottom?
  {}

  /** At the last level, a valid entry is a mapped page. */
  lemma ViewAt(frames: Frames, shape: Shape, root: u64, v: nat)
    requires Tree(frames, shape) && NodeAt(root, v, 0) in shape && v < VPN_LIMIT
    ensures var pte := Entry(frames, shape[NodeAt(root, v, 0)], VpnDigit(v, 0));
            && (v in View(frames, shape, root) <==> PteValid(pte))
            && (PteValid(pte) ==> View(frames, shape, root)[v] == pte)
  {
    hide PteValid, Placed, Separate, Rooted, Linked, LeavesValid, VpnDigit;
    BottomEntry(frames, shape, root, v);
  }

  lemma NoPathNoPage(frames: Frames, shape: Shape, root: u64, v: nat, level: nat)
    requires Tree(frames, shape) && level <= 1 && NodeAt(root, v, level) !in shape
    ensures v !in View(frames, shape, root)
  {
    NoOrphan(frames, shape, root, v);
  }

  lemma SpaceOf(f: Frames, s: Shape, f': Frames, s': Shape, root: u64)
    requires SameSpaces(f, s, f', s') && Top(root) in s
    ensures View(f, s, root) == View(f', s', root)
    ensures OthersKept(f, s, f', s', root)
  {}

  lemma OneSpaceChanged(f: Frames, s: Shape, f': Frames, s': Shape, f'': Frames, root: u64)
    requires SameSpaces(f, s, f', s')
    requires forall r: u64 :: r != root ==> View(f'', s', r) == View(f', s', r)
    ensures OthersKept(f, s, f'', s', root)
  {}

  lemma LeafOwned(frames: Frames, shape: Shape, n: Node, i: nat, pte: Pte, base: u64, pool: Pool)
    requires n in shape && shape[n] in frames && i < 512 && Owned(frames, shape, base, pool)
    ensures Owned(WithEntry(frames, shape[n], i, pte), shape, base, pool)
  {}

  // ---- steps of the walk

  lemma WalkStep(frames: Frames, table: u64, va: u64, level: int)
    requires 0 <= level <= 2
    ensures var pte := Entry(frames, table, VpnIndex(va, level));
            WalkFrom(frames, table, va, level) ==
            if !PteValid(pte) then 0
            else if PteLeaf(pte) then Translated(pte, va)
            else WalkFrom(frames, PteToPa(pte), va, level - 1)
  {}

  lemma WalkEnd(frames: Frames, table: u64, va: u64)
    ensures WalkFrom(frames, table, va, -1) == 0
  {}

  lemma TranslatedIs(pte: Pte, va: u64)
    ensures Translated(pte, va) == PteToPa(pte) + Page.PageOffset(va)
  {}
}
