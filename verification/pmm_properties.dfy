/** What the allocator promises: over whole runs, and after initialisation. */
module PmmProperties {
  import opened Word64
  import opened BitWords
  import opened Pmm
  import Page

  // ---- the free counter

  /** The page that is counted as free but cannot be allocated is the one that the last managed page
      releases, when that lies past the end. */
  lemma PastEndPage(p: Pool)
    requires p.Reachable()
    ensures p.free - p.Available() == if p.CountsPastEnd() then {ReleasedPage(p.mask, p.total - 1)} else {}
  {
    forall i | i in p.free && i >= p.total
      ensures p.CountsPastEnd() && i == ReleasedPage(p.mask, p.total - 1)
    {
      var j: nat :| j < p.total && i == ReleasedPage(p.mask, j);
      SameWord(p.total, j, i);
    }
    if p.CountsPastEnd() {
      var last := ReleasedPage(p.mask, p.total - 1);
      LastWord(p.total);
      assert last in p.free;
    }
  }

  lemma SameWord(total: nat, j: nat, i: nat)
    requires j < total <= i && i / 64 == j / 64
    ensures (total - 1) / 64 == j / 64
  {}

  lemma LastWord(total: nat)
    requires total > 0 && (total - 1) % 64 < (total - 1) / 64 % 64
    ensures total <= ReleasedPage(ByWord, total - 1)
  {}

  /** free_pages() exceeds the number of pages alloc_page can hand out by one when mark_free_index
      reached past the last managed page, and agrees with it otherwise: never with `ByIndex`, and with
      `ByWord` exactly for the totals that CountsPastEnd names. */
  lemma CounterExact(p: Pool)
    requires p.Reachable()
    ensures |p.free| == |p.Available()| + Digit(p.CountsPastEnd())
  {
    PastEndPage(p);
    assert p.Available() <= p.free;
    assert p.free == p.Available() + (p.free - p.Available());
  }

  /** alloc_page finds nothing exactly when free_pages() is 0, or 1 for those totals. */
  lemma ExhaustedExactly(p: Pool)
    requires p.Reachable()
    ensures p.Lowest(0) == -1 <==> |p.free| == Digit(p.CountsPastEnd())
  {
    CounterExact(p);
    if p.Lowest(0) == -1 {
      assert p.Available() == {};
    } else {
      assert p.Lowest(0) in p.Available();
    }
  }

  /** On the same words, the page-by-page scan of alloc_page and the word-by-word search of
      find_first_zero select the same index. */
  lemma ScansAgree(words: seq<u64>, mask: FreeMask, total: nat, r: int)
    requires IsFirstClear(words, total, r)
    ensures Pool(mask, total, ClearBits(words)).Lowest(0) == r
  {
    hide ClearBits, Pool.Lowest;
    var p := Pool(mask, total, ClearBits(words));
    var low := p.Lowest(0);
    if low != -1 && r != -1 {
      assert !(r < low) && !(low < r);
    }
  }

  // ---- runs

  /** Callers of the allocator, taken together, and the pages they hold. */
  datatype Clients = Clients(pool: Pool, held: set<nat>)

  datatype Request = Alloc | Free(index: nat)

  /** One call.  Callers free only pages they hold; PageAllocator.AllocPage and FreePage change the
      pool in the same way. */
  function Serve(c: Clients, r: Request): Clients {
    match r
    case Alloc =>
      var index := c.pool.Lowest(0);
      if index == -1 then c
      else Clients(c.pool.(free := c.pool.free - {index}), c.held + {index})
    case Free(index) =>
      if index !in c.held then c
      else Clients(c.pool.(free := c.pool.free + {ReleasedPage(c.pool.mask, index)}), c.held - {index})
  }

  /** The allocator serves a call as `Serve` says; callers free pages they hold. */
  method ServeCall(pmm: PageAllocator, r: Request, ghost held: set<nat>) returns (ok: bool, ghost held': set<nat>)
    requires pmm.Valid() && held !! pmm.Abs().free
    requires r.Free? ==> r.index in held && r.index < pmm.totalPages
    modifies pmm.usedBitmap, pmm`freePages
    ensures pmm.Valid()
    ensures Clients(pmm.Abs(), held') == Serve(Clients(old(pmm.Abs()), held), r)
    ensures r.Free? ==> ok
  {
    hide Pool.Reachable, Pool.Lowest, BitWords.ClearBits, PageAllocator.Valid, PageAllocator.Abs, Serve;
    ghost var p := pmm.Abs();
    match r {
      case Alloc =>
        ghost var index;
        var page;
        page, index := pmm.AllocPage();
        ok := page != 0;
        held' := if index == -1 then held else held + {index as nat};
        AllocServed(p, pmm.Abs(), held, held', index);
      case Free(index) =>
        HeldPage(pmm, held, index);
        ok := pmm.FreePage(pmm.PageAddress(index));
        held' := held - {index};
        FreeServed(p, pmm.Abs(), held, index);
    }
  }

  lemma AllocServed(p: Pool, p': Pool, held: set<nat>, held': set<nat>, index: int)
    requires index == p.Lowest(0)
    requires index == -1 ==> p' == p && held' == held
    requires index != -1 ==> p' == p.(free := p.free - {index as nat}) && held' == held + {index as nat}
    ensures Clients(p', held') == Serve(Clients(p, held), Alloc)
  {
    hide Pool.Lowest;
  }

  lemma FreeServed(p: Pool, p': Pool, held: set<nat>, index: nat)
    requires index in held && p' == p.(free := p.free + {ReleasedPage(p.mask, index)})
    ensures Clients(p', held - {index}) == Serve(Clients(p, held), Free(index))
  {}

  lemma HeldPage(pmm: PageAllocator, held: set<nat>, index: nat)
    requires pmm.Valid() && held !! pmm.Abs().free && index in held && index < pmm.totalPages
    ensures pmm.Abs().mask == pmm.mask && index !in pmm.Abs().free
    ensures pmm.managedBase + 0x1000 * index < WORD_LIMIT
    ensures pmm.IsManagedPage(pmm.PageAddress(index))
    ensures pmm.PaToIndex(pmm.PageAddress(index)) == index
  {
    hide BitWords.ClearBits, Pool.Reachable;
  }

  function Run(c: Clients, requests: seq<Request>): Clients {
    if requests == [] then c
    else Serve(Run(c, requests[..|requests| - 1]), requests[|requests| - 1])
  }

  /** A page that some call of mark_free_index released is released by its own number too. */
  lemma ReleasedIsFixed(mask: FreeMask, j: nat)
    ensures ReleasedPage(mask, ReleasedPage(mask, j)) == ReleasedPage(mask, j)
  {}

  /** Over every run in which callers free only pages they hold: no page is held and free at once, and
      the pages held or free are exactly those that were free at the start.  So no page reserved at
      initialisation is ever handed out, no page is handed out twice, and freeing returns exactly
      the page freed, although mark_free_index picks the bit by the word number. */
  lemma {:induction false} RunConserves(start: Pool, requests: seq<Request>)
    requires start.Reachable()
    ensures var c := Run(Clients(start, {}), requests);
            && c.pool.Reachable()
            && c.pool.mask == start.mask && c.pool.total == start.total
            && c.held !! c.pool.free
            && c.held + c.pool.free == start.free
            && forall i :: i in c.held ==> i < start.total
  {
    if requests != [] {
      var c := Run(Clients(start, {}), requests[..|requests| - 1]);
      RunConserves(start, requests[..|requests| - 1]);
      match requests[|requests| - 1]
      case Alloc =>
        var index := c.pool.Lowest(0);
        if index != -1 {
          assert c.held + {index} + (c.pool.free - {index}) == start.free;
        }
      case Free(index) =>
        if index in c.held {
          assert index in InitialFree(start.mask, start.total);
          var j: nat :| j < start.total && index == ReleasedPage(start.mask, j);
          ReleasedIsFixed(start.mask, j);
          assert c.held - {index} + (c.pool.free + {index}) == start.free;
        }
    }
  }

  /** free_page reports success for every used managed page, but the page becomes free exactly when
      mark_free_index picks its own bit: always with `ByIndex`, and with `ByWord` exactly when the
      page's place in its word is the word's number modulo 64. */
  lemma FreedExactly(p: Pool, index: nat)
    requires index < p.total && index !in p.free
    ensures index in p.free + {ReleasedPage(p.mask, index)} <==>
            p.mask == ByIndex || index % 64 == index / 64 % 64
  {
    assert index == 64 * (index / 64) + index % 64;
  }

  // ---- initialisation

  /** Some byte of the range lies in the page. */
  predicate Touches(pageBase: int, r: Range) {
    r.size > 0 && pageBase < r.base + r.size && r.base < pageBase + 0x1000
  }

  /** reserve_range reserves every managed page the range touches, and no other, exactly when rounding
      the end of the range up stays within 64 bits or no managed page lies where the wrapped end
      leaves pages out. */
  lemma ReservedExactly(base: u64, total: nat, r: Range)
    requires base % 0x1000 == 0 && total > 0 && base + 0x1000 * total < WORD_LIMIT
    ensures (forall i: nat :: i < total ==> (i in ReservedPages(base, total, r) <==> Touches(base + 0x1000 * i, r)))
            <==>
            (|| r.size == 0
             || r.base + r.size <= WORD_LIMIT - 0x1000
             || base + 0x1000 * total <= Page.AlignDown(r.base)
             || base + 0x1000 * total <= Page.AlignUp(Wrap(r.base + r.size)))
  {
    hide ReservedPages, Touches;
    var low, high := Page.AlignDown(r.base), Page.AlignUp(Wrap(r.base + r.size));
    forall i: nat | i < total
      ensures r.size == 0 ==> (i in ReservedPages(base, total, r) <==> Touches(base + 0x1000 * i, r))
      ensures r.size != 0 ==> (i in ReservedPages(base, total, r) <==> low <= base + 0x1000 * i < high)
      ensures r.size != 0 ==>
                (Touches(base + 0x1000 * i, r) <==> low <= base + 0x1000 * i && base + 0x1000 * i < r.base + r.size)
    {
      PageByPage(base, total, r, i);
    }
    if r.size != 0 {
      if r.base + r.size <= WORD_LIMIT - 0x1000 {
        forall i: nat | i < total
          ensures base + 0x1000 * i < r.base + r.size <==> base + 0x1000 * i < high
        {
          PageBelowEnd(base + 0x1000 * i, r.base + r.size, high);
        }
      } else {
        WrappedEnd(base, total, r, low, high);
      }
    }
  }

  lemma PageByPage(base: u64, total: nat, r: Range, i: nat)
    requires base % 0x1000 == 0 && i < total
    ensures var page, low := base + 0x1000 * i, Page.AlignDown(r.base);
            if r.size == 0 then
              i !in ReservedPages(base, total, r) && !Touches(page, r)
            else
              && (i in ReservedPages(base, total, r) <==> low <= page < Page.AlignUp(Wrap(r.base + r.size)))
              && (Touches(page, r) <==> low <= page && page < r.base + r.size)
  {
    hide Page.AlignDown, Page.AlignUp;
    IndexIsAligned(base, i);
    PageAgainstBytes(base + 0x1000 * i, r.base, Page.AlignDown(r.base));
  }

  /** When the end wraps, the last managed page is left out unless it lies below one of the bounds. */
  lemma WrappedEnd(base: u64, total: nat, r: Range, low: u64, high: u64)
    requires base % 0x1000 == 0 && total > 0 && base + 0x1000 * total < WORD_LIMIT
    requires r.base + r.size > WORD_LIMIT - 0x1000
    requires low % 0x1000 == 0 && high % 0x1000 == 0
    ensures forall i: nat :: i < total ==> base + 0x1000 * i < r.base + r.size
    ensures (forall i: nat :: i < total ==> (low <= base + 0x1000 * i ==> base + 0x1000 * i < high))
            <==> (base + 0x1000 * total <= low || base + 0x1000 * total <= high)
  {
    LastAligned(base + 0x1000 * total);
    if !(base + 0x1000 * total <= low) && !(base + 0x1000 * total <= high) {
      AlignedStep(base, low, total);
      AlignedStep(base, high, total);
      assert low <= base + 0x1000 * (total - 1) && !(base + 0x1000 * (total - 1) < high);
    }
  }

  lemma LastAligned(end: int)
    requires end % 0x1000 == 0 && end < WORD_LIMIT
    ensures end <= WORD_LIMIT - 0x1000
  {}

  lemma PageAgainstBytes(page: int, base: u64, low: u64)
    requires page % 0x1000 == 0 && low == Page.AlignDown(base)
    ensures base < page + 0x1000 <==> low <= page
  {
    hide Page.AlignDown;
  }

  lemma PageBelowEnd(page: int, end: u64, high: u64)
    requires page % 0x1000 == 0 && end <= WORD_LIMIT - 0x1000 && high == Page.AlignUp(end)
    ensures page < end <==> page < high
  {
    hide Page.AlignUp;
  }

  lemma AlignedStep(base: u64, x: u64, total: nat)
    requires base % 0x1000 == 0 && x % 0x1000 == 0 && total > 0 && x < base + 0x1000 * total
    ensures x <= base + 0x1000 * (total - 1)
  {}

  // ---- lists of ranges

  /** The managed pages that some range of the list touches. */
  function TouchedPages(base: u64, total: nat, reserved: seq<Range>): set<nat> {
    set i: nat | i < total && exists k | 0 <= k < |reserved| :: Touches(base + 0x1000 * i, reserved[k])
  }

  /** The pages a range touches and reserve_range leaves out, because the rounded end wrapped. */
  function LeftOut(base: u64, total: nat, r: Range): set<nat> {
    if r.size == 0 || r.base + r.size <= WORD_LIMIT - 0x1000 then {}
    else set i: nat | i < total
                      && Page.AlignDown(r.base) <= base + 0x1000 * i
                      && Page.AlignUp(Wrap(r.base + r.size)) <= base + 0x1000 * i
  }

  predicate NoneWraps(reserved: seq<Range>) {
    forall k :: 0 <= k < |reserved| ==> reserved[k].base + reserved[k].size <= WORD_LIMIT - 0x1000
  }

  /** The touched pages of a range are those reserved and those left out. */
  lemma TouchedIs(base: u64, total: nat, r: Range, i: nat)
    requires base % 0x1000 == 0 && base + 0x1000 * total < WORD_LIMIT && i < total
    ensures Touches(base + 0x1000 * i, r) <==> i in ReservedPages(base, total, r) || i in LeftOut(base, total, r)
  {
    hide Touches, ReservedPages, Page.AlignDown, Page.AlignUp;
    PageByPage(base, total, r, i);
    if r.size != 0 {
      if r.base + r.size <= WORD_LIMIT - 0x1000 {
        PageBelowEnd(base + 0x1000 * i, r.base + r.size, Page.AlignUp(r.base + r.size));
      } else {
        LastAligned(base + 0x1000 * total);
      }
    }
  }

  lemma {:induction false} AllReservedIs(base: u64, total: nat, reserved: seq<Range>, i: nat)
    ensures i in AllReserved(base, total, reserved) <==>
            exists k :: 0 <= k < |reserved| && i in ReservedPages(base, total, reserved[k])
  {
    hide ReservedPages;
    if reserved != [] {
      var last := |reserved| - 1;
      AllReservedIs(base, total, reserved[..last], i);
      assert forall k :: 0 <= k < last ==> reserved[..last][k] == reserved[k];
    }
  }

  /** For a list, in any order and with any overlaps, the reserved pages are the touched ones exactly when
      every page that one range leaves out is reserved by another. */
  lemma ReservedListExactly(base: u64, total: nat, reserved: seq<Range>)
    requires base % 0x1000 == 0 && base + 0x1000 * total < WORD_LIMIT
    ensures AllReserved(base, total, reserved) <= TouchedPages(base, total, reserved)
    ensures AllReserved(base, total, reserved) == TouchedPages(base, total, reserved) <==>
            forall k, i :: 0 <= k < |reserved| && i in LeftOut(base, total, reserved[k]) ==> i in AllReserved(base, total, reserved)
    ensures forall i :: i in TouchedPages(base, total, reserved) <==>
              || i in AllReserved(base, total, reserved)
              || exists k :: 0 <= k < |reserved| && i in LeftOut(base, total, reserved[k])
  {
    hide Touches, ReservedPages, LeftOut, AllReserved;
    ReservedAreManaged(base, total, reserved);
    forall k, i | 0 <= k < |reserved| && i in LeftOut(base, total, reserved[k])
      ensures i < total
    {
      LeftOutManaged(base, total, reserved[k]);
    }
    forall i: nat
      ensures i in AllReserved(base, total, reserved) <==>
              exists k :: 0 <= k < |reserved| && i in ReservedPages(base, total, reserved[k])
    {
      AllReservedIs(base, total, reserved, i);
    }
    forall k, i: nat | 0 <= k < |reserved| && i < total
      ensures Touches(base + 0x1000 * i, reserved[k]) <==>
              i in ReservedPages(base, total, reserved[k]) || i in LeftOut(base, total, reserved[k])
    {
      TouchedIs(base, total, reserved[k], i);
    }
    TouchedSplit(base, total, reserved);
  }

  lemma LeftOutManaged(base: u64, total: nat, r: Range)
    ensures forall i :: i in LeftOut(base, total, r) ==> i < total
  {}

  lemma TouchedSplit(base: u64, total: nat, reserved: seq<Range>)
    requires forall k, i: nat :: 0 <= k < |reserved| && i < total ==>
               (Touches(base + 0x1000 * i, reserved[k]) <==>
                i in ReservedPages(base, total, reserved[k]) || i in LeftOut(base, total, reserved[k]))
    requires forall i: nat :: i in AllReserved(base, total, reserved) <==>
               exists k :: 0 <= k < |reserved| && i in ReservedPages(base, total, reserved[k])
    requires forall i :: i in AllReserved(base, total, reserved) ==> i < total
    requires forall k, i :: 0 <= k < |reserved| && i in LeftOut(base, total, reserved[k]) ==> i < total
    ensures forall i :: i in TouchedPages(base, total, reserved) <==>
              || i in AllReserved(base, total, reserved)
              || exists k :: 0 <= k < |reserved| && i in LeftOut(base, total, reserved[k])
  {
    hide Touches, ReservedPages, LeftOut, AllReserved;
    forall i
      ensures i in TouchedPages(base, total, reserved) <==>
                || i in AllReserved(base, total, reserved)
                || exists k :: 0 <= k < |reserved| && i in LeftOut(base, total, reserved[k])
    {
      if k :| 0 <= k < |reserved| && i in ReservedPages(base, total, reserved[k]) {
        assert i in AllReserved(base, total, reserved);
        assert Touches(base + 0x1000 * i, reserved[k]);
      }
      if k :| 0 <= k < |reserved| && i in LeftOut(base, total, reserved[k]) {
        assert Touches(base + 0x1000 * i, reserved[k]);
      }
    }
  }

  lemma NoneWrapsTouched(base: u64, total: nat, reserved: seq<Range>)
    requires base % 0x1000 == 0 && base + 0x1000 * total < WORD_LIMIT && NoneWraps(reserved)
    ensures AllReserved(base, total, reserved) == TouchedPages(base, total, reserved)
  {
    hide AllReserved, TouchedPages;
    ReservedListExactly(base, total, reserved);
  }

  lemma ManagedAreaFits(managed: Range)
    ensures ManagedBase(managed) % 0x1000 == 0
    ensures ManagedBase(managed) + 0x1000 * ManagedPages(managed) < WORD_LIMIT
  {
    ManagedPagesIs(managed, Page.AlignUp(managed.base), Page.AlignDown(Wrap(managed.base + managed.size)));
  }

  /** So no page that a reserved range touches, and no page still held, is ever handed out, provided no
      range leaves pages out. */
  lemma ReservedNeverHeld(mask: FreeMask, managed: Range, reserved: seq<Range>, requests: seq<Request>)
    requires NoneWraps(reserved)
    ensures var c := Run(Clients(AfterInit(mask, managed, reserved), {}), requests);
            var touched := TouchedPages(ManagedBase(managed), ManagedPages(managed), reserved);
            && c.held !! touched
            && (c.pool.Lowest(0) != -1 ==> c.pool.Lowest(0) !in c.held && c.pool.Lowest(0) !in touched)
  {
    hide AllReserved, TouchedPages, Pool.Reachable, InitialFree, Run, ManagedPages, ManagedBase;
    InitReachable(mask, managed, reserved);
    RunConserves(AfterInit(mask, managed, reserved), requests);
    ManagedAreaFits(managed);
    NoneWrapsTouched(ManagedBase(managed), ManagedPages(managed), reserved);
  }

  // ---- the outcome of pmm_init

  /** mark_free_index picks the page's own bit. */
  predicate HasPlace(mask: FreeMask, i: nat) {
    mask == ByIndex || i % 64 == i / 64 % 64
  }

  lemma FreeAfterInit(mask: FreeMask, managed: Range, reserved: seq<Range>, i: nat)
    requires i < ManagedPages(managed)
    ensures i in AfterInit(mask, managed, reserved).free <==>
            HasPlace(mask, i) && i !in AllReserved(ManagedBase(managed), ManagedPages(managed), reserved)
  {
    hide ManagedPages, AllReserved;
    var total := ManagedPages(managed);
    assert i == 64 * (i / 64) + i % 64;
    if HasPlace(mask, i) {
      assert ReleasedPage(mask, i) == i;
      assert i in InitialFree(mask, total);
    } else {
      forall j: nat | j < total
        ensures i != ReleasedPage(mask, j)
      {
        ReleasedIsFixed(mask, j);
      }
    }
  }

  /** With the mask the unit tests expect, and no range whose rounded end wraps, a managed page is used
      after pmm_init exactly when some reserved range touches it. */
  lemma UsedExactly(managed: Range, reserved: seq<Range>, i: nat)
    requires i < ManagedPages(managed) && NoneWraps(reserved)
    ensures i !in AfterInit(ByIndex, managed, reserved).free <==>
            exists k | 0 <= k < |reserved| :: Touches(ManagedBase(managed) + 0x1000 * i, reserved[k])
  {
    hide ManagedPages, ManagedBase, AllReserved, AfterInit;
    ManagedAreaFits(managed);
    FreeAfterInit(ByIndex, managed, reserved, i);
    NoneWrapsTouched(ManagedBase(managed), ManagedPages(managed), reserved);
  }

  /** The documented outcome, a managed page is free exactly when no reserved range touches it, holds
      exactly when every untouched page has the place that mark_free_index clears, and every page with
      that place that one range leaves out is reserved by another. */
  lemma InitAsDocumented(mask: FreeMask, managed: Range, reserved: seq<Range>)
    ensures var base, total := ManagedBase(managed), ManagedPages(managed);
            var touched := TouchedPages(base, total, reserved);
            (forall i: nat :: i < total ==> (i in AfterInit(mask, managed, reserved).free <==> i !in touched))
            <==>
            (&& (forall i: nat :: i < total && i !in touched ==> HasPlace(mask, i))
             && (forall k, i :: 0 <= k < |reserved| && i in LeftOut(base, total, reserved[k]) && HasPlace(mask, i) ==>
                                  i in AllReserved(base, total, reserved)))
  {
    hide ManagedPages, ManagedBase, AllReserved, AfterInit, TouchedPages, HasPlace, LeftOut;
    var base, total := ManagedBase(managed), ManagedPages(managed);
    ManagedAreaFits(managed);
    ReservedListExactly(base, total, reserved);
    forall k | 0 <= k < |reserved|
      ensures forall i :: i in LeftOut(base, total, reserved[k]) ==> i < total
    {
      LeftOutManaged(base, total, reserved[k]);
    }
    forall i: nat | i < total
      ensures i in AfterInit(mask, managed, reserved).free <==>
              HasPlace(mask, i) && i !in AllReserved(base, total, reserved)
    {
      FreeAfterInit(mask, managed, reserved, i);
    }
  }

  /** With the mask the unit tests expect, free_pages() is the number of managed pages minus the size of
      the union of the touched page sets, exactly when no page is left out. */
  lemma FreeCountByIndex(managed: Range, reserved: seq<Range>)
    ensures var base, total := ManagedBase(managed), ManagedPages(managed);
            |AfterInit(ByIndex, managed, reserved).free| == total - |TouchedPages(base, total, reserved)| <==>
            forall k, i :: 0 <= k < |reserved| && i in LeftOut(base, total, reserved[k]) ==> i in AllReserved(base, total, reserved)
    ensures |AfterInit(ByIndex, managed, reserved).free| ==
            ManagedPages(managed) - |AllReserved(ManagedBase(managed), ManagedPages(managed), reserved)|
  {
    hide ManagedPages, ManagedBase, AllReserved, TouchedPages, LeftOut;
    var base, total := ManagedBase(managed), ManagedPages(managed);
    var kept := AllReserved(base, total, reserved);
    ManagedAreaFits(managed);
    ReservedListExactly(base, total, reserved);
    ReservedAreManaged(base, total, reserved);
    CountByIndex(total);
    forall i | i in kept
      ensures i in InitialFree(ByIndex, total)
    {
      assert ReleasedPage(ByIndex, i) == i;
    }
    SameSize(kept, TouchedPages(base, total, reserved));
  }

  lemma SameSize(a: set<nat>, b: set<nat>)
    requires a <= b
    ensures |a| == |b| <==> a == b
  {
    assert b == a + (b - a);
  }

  lemma {:induction false} CountByIndex(total: nat)
    ensures |InitialFree(ByIndex, total)| == total
  {
    if total != 0 {
      CountByIndex(total - 1);
      OnePageFreed(ByIndex, total - 1);
    }
  }

  /** As written, initialisation frees one page for every started group of 64 managed pages. */
  lemma {:induction false} FreeCountByWord(total: nat)
    ensures |InitialFree(ByWord, total)| == (total + 63) / 64
  {
    hide InitialFree, ReleasedPage;
    NothingFreed(ByWord);
    if total != 0 {
      FreeCountByWord(total - 1);
      OnePageFreed(ByWord, total - 1);
      GroupStart(total - 1);
      OneElementMore(InitialFree(ByWord, total - 1), ReleasedPage(ByWord, total - 1));
    }
  }

  /** A managed page starts a new group of 64 or releases the same page as its predecessor. */
  lemma GroupStart(last: nat)
    ensures last % 64 == 0 <==> ReleasedPage(ByWord, last) !in InitialFree(ByWord, last)
    ensures (last + 64) / 64 == (last + 63) / 64 + Digit(last % 64 == 0)
  {
    if last % 64 == 0 {
      forall j: nat | j < last
        ensures ReleasedPage(ByWord, j) != ReleasedPage(ByWord, last)
      {
        assert j / 64 < last / 64;
      }
    } else {
      assert (last - 1) / 64 == last / 64;
      assert ReleasedPage(ByWord, last - 1) == ReleasedPage(ByWord, last);
      assert last - 1 < last;
    }
  }

  /** The configuration of the unit tests: 16 pages at 0x80000000, of which pages 0 and 3 are
      reserved.  The tests expect 14 free pages; the code leaves none. */
  lemma UnitTestConfiguration()
    ensures var managed := Range(0x8000_0000, 0x1_0000);
            var reserved := [Range(0x8000_0000, 0x1000), Range(0x8000_3010, 100), Range(0x9000_0000, 0x1000)];
            && AfterInit(ByWord, managed, reserved).free == {}
            && |AfterInit(ByIndex, managed, reserved).free| == 14
  {
    hide AllReserved, InitialFree;
    var managed := Range(0x8000_0000, 0x1_0000);
    var reserved := [Range(0x8000_0000, 0x1000), Range(0x8000_3010, 100), Range(0x9000_0000, 0x1000)];
    assert ManagedBase(managed) == 0x8000_0000 && ManagedPages(managed) == 16;
    UnitTestReserved(reserved);
    FreeCountByIndex(managed, reserved);
    FirstWordOnly();
  }

  lemma FirstWordOnly()
    ensures InitialFree(ByWord, 16) == {0}
  {
    forall j: nat | j < 16
      ensures ReleasedPage(ByWord, j) == 0
    {}
    assert ReleasedPage(ByWord, 0) in InitialFree(ByWord, 16);
  }

  lemma UnitTestReserved(reserved: seq<Range>)
    requires reserved == [Range(0x8000_0000, 0x1000), Range(0x8000_3010, 100), Range(0x9000_0000, 0x1000)]
    ensures AllReserved(0x8000_0000, 16, reserved) == {0, 3}
  {
    hide AllReserved, ReservedPages;
    NoRangeReserved(0x8000_0000, 16);
    assert reserved[..0] == [] && reserved[..3] == reserved;
    OneRangeMore(0x8000_0000, 16, reserved, 0);
    OneRangeMore(0x8000_0000, 16, reserved, 1);
    OneRangeMore(0x8000_0000, 16, reserved, 2);
    UnitTestPage(reserved[0], 0);
    UnitTestPage(reserved[1], 3);
    UnitTestPage(reserved[2], 0x1_0000);
  }

  lemma UnitTestPage(r: Range, page: nat)
    requires 0 < r.size <= 0x1000 && r.base < 0xa000_0000
    requires 0x8000_0000 + 0x1000 * page <= r.base && r.base + r.size <= 0x8000_0000 + 0x1000 * (page + 1)
    ensures ReservedPages(0x8000_0000, 16, r) == if page < 16 then {page} else {}
  {
    PageOfRange(r, 0x8_0000 + page);
    OneSlot(r, page);
  }

  lemma PageOfRange(r: Range, p: nat)
    requires 0 < r.size && 0x1000 * p <= r.base && r.base + r.size <= 0x1000 * (p + 1) <= 0x1_0000_0000
    ensures Page.AlignDown(r.base) == 0x1000 * p && Page.AlignUp(r.base + r.size) == 0x1000 * (p + 1)
  {
    hide Page.AlignDown, Page.AlignUp;
  }

  lemma OneSlot(r: Range, page: nat)
    requires r.size > 0 && r.base + r.size < 0x1_0000_0000
    requires Page.AlignDown(r.base) == 0x1000 * (0x8_0000 + page)
    requires Page.AlignUp(r.base + r.size) == 0x1000 * (0x8_0000 + page + 1)
    ensures ReservedPages(0x8000_0000, 16, r) == if page < 16 then {page} else {}
  {}
}
