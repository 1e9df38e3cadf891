/** The physical page allocator of `kernel/mm/pmm.cpp`. */
module Pmm {
  import opened Word64
  import opened BitWords
  import Page

  const MAX_MANAGED_PAGES: nat := 32768
  const BITMAP_WORDS: nat := 512

  /** Which bit mark_free_index clears.  `ByWord` is the code: line 46 passes the word number to
      bit_mask.  `ByIndex` is what lines 30 and 35 and the unit tests expect.  Everything below is
      proved for both. */
  datatype FreeMask = ByWord | ByIndex

  /** The page that mark_free_index(index) marks free. */
  function ReleasedPage(mask: FreeMask, index: nat): (r: nat)
    ensures r / 64 == index / 64
  {
    match mask
    case ByWord => 64 * (index / 64) + index / 64 % 64
    case ByIndex => index
  }

  /** Abstract value of the allocator: the number of managed pages and the pages marked free. */
  datatype Pool = Pool(mask: FreeMask, total: nat, free: set<nat>) {

    /** The pages alloc_page can still find. */
    function Available(): set<nat> {
      set i | i in free && i < total
    }

    /** What alloc_page returns: the lowest managed free page, or -1. */
    function Lowest(from: nat): (r: int)
      ensures r == -1 || (from <= r < total && r in free)
      ensures forall i: nat :: from <= i < total && i in free ==> r != -1 && r <= i
      decreases total - from
    {
      if from >= total then -1 else if from in free then from else Lowest(from + 1)
    }

    /** mark_free_index may mark a page past the last managed one: such a page is counted as free
        but never handed out. */
    predicate CountsPastEnd() {
      mask == ByWord && total > 0 && (total - 1) % 64 < (total - 1) / 64 % 64
    }

    /** In every state after pmm_init. */
    ghost predicate Reachable() {
      && total <= MAX_MANAGED_PAGES
      && free <= InitialFree(mask, total)
      && (forall j: nat :: j < total && total <= ReleasedPage(mask, j) ==> ReleasedPage(mask, j) in free)
    }
  }

  datatype Range = Range(base: u64, size: u64)

  /** The pages freed by the loop in pmm_init before anything is reserved. */
  function InitialFree(mask: FreeMask, total: nat): set<nat> {
    set j: nat | j < total :: ReleasedPage(mask, j)
  }

  function ManagedBase(managed: Range): u64 {
    Page.AlignUp(managed.base)
  }

  function ManagedPages(managed: Range): nat {
    var base := Page.AlignUp(managed.base);
    var end := Page.AlignDown(Wrap(managed.base + managed.size));
    if end <= base then 0
    else if (end - base) / 0x1000 < MAX_MANAGED_PAGES then (end - base) / 0x1000
    else MAX_MANAGED_PAGES
  }

  /** The number of the first page that starts inside or at the end of the bytes of the range, on a
      line without end. */
  function FirstWholePage(managed: Range): nat {
    (managed.base + 0xfff) / 0x1000
  }

  /** The number of whole pages among the bytes of the range, on a line without end. */
  function WholePages(managed: Range): nat {
    var last := (managed.base + managed.size) / 0x1000;
    if last <= FirstWholePage(managed) then 0 else last - FirstWholePage(managed)
  }

  function Min(a: nat, b: nat): nat {
    if a < b then a else b
  }

  /** The managed pages are the whole pages of the range, up to the limit, exactly when neither end
      leaves 64 bits, or both do: then the number is right and the pages are those from address 0 on. */
  lemma ManagedExactly(managed: Range)
    ensures ManagedPages(managed) == Min(WholePages(managed), MAX_MANAGED_PAGES) <==>
            (managed.base <= WORD_LIMIT - 0x1000 <==> managed.base + managed.size < WORD_LIMIT)
    ensures ManagedBase(managed) == 0x1000 * FirstWholePage(managed) <==> managed.base <= WORD_LIMIT - 0x1000
  {
    hide ManagedPages, ManagedBase, WholePages, FirstWholePage;
    var base := Page.AlignUp(managed.base);
    var end := Page.AlignDown(Wrap(managed.base + managed.size));
    ManagedPagesIs(managed, base, end);
    FirstPageIs(managed);
    if managed.base <= WORD_LIMIT - 0x1000 {
      if managed.base + managed.size < WORD_LIMIT {
        WholePagesIs(managed, base / 0x1000, end / 0x1000);
        assert base == 0x1000 * (base / 0x1000) && end == 0x1000 * (end / 0x1000);
      } else {
        WrappedEndManages(managed, base, end);
      }
    } else {
      WrappedBaseManages(managed, end);
    }
  }

  lemma FirstPageIs(managed: Range)
    ensures managed.base <= WORD_LIMIT - 0x1000 ==> Page.AlignUp(managed.base) == 0x1000 * FirstWholePage(managed)
    ensures managed.base > WORD_LIMIT - 0x1000 ==> FirstWholePage(managed) == WORD_LIMIT / 0x1000
  {}

  lemma WholePagesIs(managed: Range, first: nat, last: nat)
    requires managed.base + managed.size < WORD_LIMIT && managed.base <= WORD_LIMIT - 0x1000
    requires first == Page.AlignUp(managed.base) / 0x1000
    requires last == Page.AlignDown(managed.base + managed.size) / 0x1000
    ensures WholePages(managed) == if last <= first then 0 else last - first
  {
    FirstPageIs(managed);
  }

  /** Only the end wraps: whole pages exist and none is managed. */
  lemma WrappedEndManages(managed: Range, base: u64, end: u64)
    requires managed.base <= WORD_LIMIT - 0x1000 && managed.base + managed.size >= WORD_LIMIT
    requires base == Page.AlignUp(managed.base) && end == Page.AlignDown(Wrap(managed.base + managed.size))
    ensures end <= base && WholePages(managed) > 0
  {}

  /** The base rounds up to 0. */
  lemma WrappedBaseManages(managed: Range, end: u64)
    requires managed.base > WORD_LIMIT - 0x1000 && end == Page.AlignDown(Wrap(managed.base + managed.size))
    ensures managed.base + managed.size < WORD_LIMIT ==> end == WORD_LIMIT - 0x1000 && WholePages(managed) == 0
    ensures managed.base + managed.size >= WORD_LIMIT ==> WholePages(managed) == end / 0x1000
    ensures Page.AlignUp(managed.base) == 0
  {
    FirstPageIs(managed);
    var sum := managed.base + managed.size;
    if sum >= WORD_LIMIT {
      assert sum / 0x1000 == WORD_LIMIT / 0x1000 + (sum - WORD_LIMIT) / 0x1000;
    }
  }

  /** The managed pages whose address lies in [low, high). */
  function PagesBetween(base: u64, total: nat, low: int, high: int): set<nat> {
    set i: nat | i < total && low <= base + 0x1000 * i < high
  }

  /** The managed pages that reserve_range marks used. */
  function ReservedPages(base: u64, total: nat, r: Range): set<nat> {
    if r.size == 0 then {}
    else PagesBetween(base, total, Page.AlignDown(r.base), Page.AlignUp(Wrap(r.base + r.size)))
  }

  function AllReserved(base: u64, total: nat, reserved: seq<Range>): set<nat> {
    if reserved == [] then {}
    else AllReserved(base, total, reserved[..|reserved| - 1])
         + ReservedPages(base, total, reserved[|reserved| - 1])
  }

  function AfterInit(mask: FreeMask, managed: Range, reserved: seq<Range>): Pool {
    var total := ManagedPages(managed);
    Pool(mask, total, InitialFree(mask, total) - AllReserved(ManagedBase(managed), total, reserved))
  }

  class PageAllocator {
    const mask: FreeMask
    const usedBitmap: array<u64>
    var managedBase: u64
    var totalPages: nat
    var freePages: nat

    /** The part of the invariant that also holds in the middle of pmm_init. */
    ghost predicate Counted()
      reads this, usedBitmap
    {
      && usedBitmap.Length == BITMAP_WORDS
      && totalPages <= MAX_MANAGED_PAGES
      && managedBase % 0x1000 == 0
      && managedBase + 0x1000 * totalPages < WORD_LIMIT
      && freePages == |ClearBits(usedBitmap[..])|
    }

    ghost predicate Valid()
      reads this, usedBitmap
    {
      Counted() && Abs().Reachable()
    }

    ghost function Abs(): Pool
      reads this, usedBitmap
    {
      Pool(mask, totalPages, ClearBits(usedBitmap[..]))
    }

    function PageAddress(index: nat): u64
      reads this
      requires managedBase + 0x1000 * index < WORD_LIMIT
    {
      managedBase + 0x1000 * index
    }

    /** The globals before pmm_init: no managed page. */
    constructor (mask: FreeMask)
      ensures Valid() && this.mask == mask && fresh(usedBitmap)
      ensures totalPages == freePages == 0
    {
      this.mask := mask;
      usedBitmap := new u64[BITMAP_WORDS](_ => ALL_ONES);
      managedBase, totalPages, freePages := 0, 0, 0;
      new;
      OnesHaveNoClearBit(usedBitmap[..]);
    }

    function PaToIndex(pa: u64): (i: nat)
      reads this
      requires managedBase <= pa
      ensures i == (pa - managedBase) / 0x1000
    {
      Shr12Is(pa - managedBase);
      Shr(pa - managedBase, Page.PAGE_SHIFT)
    }

    method UsedIndex(index: nat) returns (used: bool)
      requires Counted() && index < MAX_MANAGED_PAGES
      ensures used <==> index !in Abs().free
    {
      TestBit(usedBitmap[index / 64], index % 64);
      used := And(usedBitmap[index / 64], Shl(1, index % 64)) != 0;
    }

    /** The guard on the decrement never hides a miscount: a clear bit means a positive count. */
    method MarkUsedIndex(index: nat)
      requires Counted() && index < MAX_MANAGED_PAGES
      modifies usedBitmap, this`freePages
      ensures Counted() && Abs() == old(Abs()).(free := old(Abs()).free - {index})
    {
      hide And, Or, Shl;
      var word := index / 64;
      var bit := Shl(1, index % 64);
      TestBit(usedBitmap[word], index % 64);
      SetBitEffect(usedBitmap[..], index);
      if And(usedBitmap[word], bit) == 0 {
        assert index in ClearBits(usedBitmap[..]);
        usedBitmap[word] := Or64(usedBitmap[word], bit);
        assert usedBitmap[..] == SetBit(old(usedBitmap[..]), index);
        if freePages > 0 {
          freePages := freePages - 1;
        }
      }
    }

    method MarkFreeIndex(index: nat)
      requires Counted() && index < MAX_MANAGED_PAGES
      modifies usedBitmap, this`freePages
      ensures Counted() && Abs() == old(Abs()).(free := old(Abs()).free + {ReleasedPage(mask, index)})
    {
      hide And, Not, Shl;
      var word := index / 64;
      var offset := if mask == ByWord then word % 64 else index % 64;
      var bit := Shl(1, offset);
      ghost var released := ReleasedPage(mask, index);
      assert released / 64 == word && released % 64 == offset;
      TestBit(usedBitmap[word], offset);
      ClearBitEffect(usedBitmap[..], released);
      if And(usedBitmap[word], bit) != 0 {
        assert released !in ClearBits(usedBitmap[..]);
        usedBitmap[word] := And(usedBitmap[word], Not(bit));
        assert usedBitmap[..] == ClearBit(old(usedBitmap[..]), released);
        freePages := freePages + 1;
      }
    }

    lemma CountedFacts()
      requires Counted()
      ensures usedBitmap.Length == BITMAP_WORDS && totalPages <= MAX_MANAGED_PAGES
      ensures managedBase % 0x1000 == 0 && managedBase + 0x1000 * totalPages < WORD_LIMIT
    {}

    method ReserveRange(base: u64, size: u64)
      requires Counted()
      modifies usedBitmap, this`freePages
      ensures Counted()
      ensures Abs() == old(Abs()).(free := old(Abs()).free - ReservedPages(managedBase, totalPages, Range(base, size)))
    {
      hide *;
      CountedFacts();
      if size == 0 || totalPages == 0 {
        ReservesNothing(managedBase, totalPages, Range(base, size));
        return;
      }
      var managedStart := managedBase;
      var managedEnd: u64 := managedBase + totalPages * 0x1000;
      var reserveStart := Page.AlignDown(base);
      var reserveEnd := Page.AlignUp(Wrap(base + size));
      var start := if reserveStart < managedStart then managedStart else reserveStart;
      var end := if reserveEnd > managedEnd then managedEnd else reserveEnd;
      ClipToManaged(managedBase, totalPages, Range(base, size), start, end);
      if start >= end {
        return;
      }
      ghost var next := AlignedIsPage(managedBase, start);
      ghost var last := AlignedIsPage(managedBase, end);
      NoPagesBetween(managedBase, totalPages, start);
      var pa := start;
      while pa < end
        invariant pa == managedBase + 0x1000 * next
        invariant next <= last <= totalPages <= MAX_MANAGED_PAGES
        invariant start <= pa
        invariant Counted()
        invariant Abs() == old(Abs()).(free := old(Abs()).free - PagesBetween(managedBase, totalPages, start, pa))
      {
        var index := PaToIndex(pa);
        assert index == next;
        MarkUsedIndex(index);
        OnePageMore(managedBase, totalPages, start, pa, next);
        RemoveTwice(old(Abs()).free, PagesBetween(managedBase, totalPages, start, pa), {next});
        pa := pa + 0x1000;
        next := next + 1;
      }
    }

    method PmmInit(managed: Range, reserved: seq<Range>)
      requires usedBitmap.Length == BITMAP_WORDS
      modifies this, usedBitmap
      ensures Valid()
      ensures managedBase == ManagedBase(managed)
      ensures Abs() == AfterInit(mask, managed, reserved)
      ensures managed.base <= WORD_LIMIT - 0x1000 && managed.base + managed.size < WORD_LIMIT ==>
                && managedBase == 0x1000 * FirstWholePage(managed)
                && totalPages == Min(WholePages(managed), MAX_MANAGED_PAGES)
    {
      hide *;
      var base := Page.AlignUp(managed.base);
      var end := Page.AlignDown(Wrap(managed.base + managed.size));
      var w := 0;
      while w < usedBitmap.Length
        invariant w <= usedBitmap.Length
        invariant forall v :: 0 <= v < w ==> usedBitmap[v] == ALL_ONES
      {
        usedBitmap[w] := ALL_ONES;
        w := w + 1;
      }
      OnesHaveNoClearBit(usedBitmap[..]);
      managedBase := base;
      totalPages := 0;
      freePages := 0;
      ManagedPagesIs(managed, base, end);
      ManagedExactly(managed);
      if end <= base {
        EmptyPool();
        InitReachable(mask, managed, reserved);
        InitDone(AfterInit(mask, managed, reserved));
        return;
      }
      var pageCount := (end - base) / 0x1000;
      totalPages := if pageCount < MAX_MANAGED_PAGES then pageCount else MAX_MANAGED_PAGES;
      EmptyPool();
      FreeAll();
      ReserveAll(reserved);
      InitReachable(mask, managed, reserved);
      InitDone(AfterInit(mask, managed, reserved));
    }

    /** The loop of pmm_init that marks every managed page free. */
    method FreeAll()
      requires Counted() && Abs() == Pool(mask, totalPages, {})
      modifies usedBitmap, this`freePages
      ensures Counted() && Abs() == Pool(mask, totalPages, InitialFree(mask, totalPages))
    {
      hide *;
      CountedFacts();
      NothingFreed(mask);
      var i := 0;
      while i < totalPages
        invariant i <= totalPages && Counted()
        invariant Abs() == Pool(mask, totalPages, InitialFree(mask, i))
      {
        MarkFreeIndex(i);
        OnePageFreed(mask, i);
        i := i + 1;
      }
    }

    /** The last loop of pmm_init. */
    method ReserveAll(reserved: seq<Range>)
      requires Counted()
      modifies usedBitmap, this`freePages
      ensures Counted()
      ensures Abs() == old(Abs()).(free := old(Abs()).free - AllReserved(managedBase, totalPages, reserved))
    {
      hide *;
      var i := 0;
      NoRangeReserved(managedBase, totalPages);
      while i < |reserved|
        invariant i <= |reserved| && Counted()
        invariant Abs() == old(Abs()).(free := old(Abs()).free - AllReserved(managedBase, totalPages, reserved[..i]))
      {
        ReserveRange(reserved[i].base, reserved[i].size);
        OneRangeMore(managedBase, totalPages, reserved, i);
        RemoveTwice(old(Abs()).free, AllReserved(managedBase, totalPages, reserved[..i]),
                    ReservedPages(managedBase, totalPages, reserved[i]));
        i := i + 1;
      }
      assert reserved[..i] == reserved;
    }

    lemma EmptyPool()
      requires usedBitmap.Length == BITMAP_WORDS && totalPages <= MAX_MANAGED_PAGES
      requires managedBase % 0x1000 == 0 && managedBase + 0x1000 * totalPages < WORD_LIMIT
      requires freePages == 0 && ClearBits(usedBitmap[..]) == {}
      ensures Counted() && Abs() == Pool(mask, totalPages, {})
    {}

    lemma InitDone(p: Pool)
      requires Counted() && p.Reachable()
      ensures Abs() == p ==> Valid()
    {}

    /** The lowest free managed page, or null.  Page 0 of a pool based at address 0 cannot be told
        from null by the caller. */
    method AllocPage() returns (page: u64, ghost index: int)
      requires Valid()
      modifies usedBitmap, this`freePages
      ensures Valid()
      ensures index == old(Abs()).Lowest(0)
      ensures index == -1 ==> page == 0 && Abs() == old(Abs())
      ensures index != -1 ==> page == managedBase + 0x1000 * index
                              && Abs() == old(Abs()).(free := old(Abs()).free - {index})
    {
      var i := 0;
      while i < totalPages
        invariant i <= totalPages
        invariant Valid() && Abs() == old(Abs())
        invariant Abs().Lowest(0) == Abs().Lowest(i)
      {
        var used := UsedIndex(i);
        if !used {
          index := i;
          MarkUsedIndex(i);
          page := PageAddress(i);
          return;
        }
        i := i + 1;
      }
      return 0, -1;
    }

    predicate IsManagedPage(pa: u64)
      requires Valid()
      reads this, usedBitmap
      ensures IsManagedPage(pa) ==> managedBase <= pa && pa % 0x1000 == 0
      ensures IsManagedPage(pa) <==> exists i: nat {:trigger PageAddress(i)} :: i < totalPages && pa == PageAddress(i)
    {
      ManagedIs(pa);
      IsManaged(pa)
    }

    lemma ManagedIs(pa: u64)
      requires Valid()
      ensures IsManaged(pa) ==> managedBase <= pa && pa % 0x1000 == 0
      ensures IsManaged(pa) <==> exists i: nat {:trigger PageAddress(i)} :: i < totalPages && pa == PageAddress(i)
    {
      hide And, Page.IsPageAligned, Pool.Reachable, ClearBits, Abs;
      if IsManaged(pa) {
        var i := AlignedIsPage(managedBase, pa);
        assert pa == PageAddress(i);
      }
      forall i: nat | i < totalPages && pa == PageAddress(i)
        ensures IsManaged(pa)
      {
        IndexIsAligned(managedBase, i);
      }
    }

    predicate IsManaged(pa: u64)
      reads this
    {
      Page.IsPageAligned(pa) && managedBase <= pa < managedBase + 0x1000 * totalPages
    }

    method IsPageFree(pa: u64) returns (free: bool)
      requires Valid()
      ensures free <==> IsManagedPage(pa) && PaToIndex(pa) in Abs().free
    {
      if !IsManagedPage(pa) {
        return false;
      }
      var used := UsedIndex(PaToIndex(pa));
      free := !used;
    }

    /** Succeeds for a managed page marked used; otherwise changes nothing. */
    method FreePage(pa: u64) returns (ok: bool)
      requires Valid()
      modifies usedBitmap, this`freePages
      ensures Valid()
      ensures ok <==> IsManagedPage(pa) && PaToIndex(pa) !in old(Abs()).free
      ensures Abs() == if ok then old(Abs()).(free := old(Abs()).free + {ReleasedPage(mask, PaToIndex(pa))})
                       else old(Abs())
    {
      hide Valid, Abs, And, Shr, Page.IsPageAligned, ReleasedPage, Pool.Reachable, ClearBits;
      if !IsManagedPage(pa) || !Page.IsPageAligned(pa) {
        return false;
      }
      var index := PaToIndex(pa);
      ManagedIndex(pa);
      var used := UsedIndex(index);
      if !used {
        return false;
      }
      FreedReachable(Abs(), index);
      MarkFreeIndex(index);
      InitDone(Abs());
      return true;
    }

    lemma ManagedIndex(pa: u64)
      requires Valid() && IsManagedPage(pa)
      ensures Counted() && Abs().Reachable() && Abs().mask == mask && Abs().total == totalPages <= MAX_MANAGED_PAGES
      ensures PaToIndex(pa) < totalPages
    {
      hide ClearBits, Pool.Reachable, And, Shr;
    }
  }

  lemma FreedReachable(p: Pool, index: nat)
    requires p.Reachable() && index < p.total
    ensures p.(free := p.free + {ReleasedPage(p.mask, index)}).Reachable()
  {
    hide ReleasedPage;
  }

  lemma ReservesNothing(base: u64, total: nat, r: Range)
    requires r.size == 0 || total == 0
    ensures ReservedPages(base, total, r) == {}
  {}

  lemma NoPagesBetween(base: u64, total: nat, low: int)
    ensures PagesBetween(base, total, low, low) == {}
  {}

  lemma ClipToManaged(base: u64, total: nat, r: Range, start: u64, end: u64)
    requires r.size != 0
    requires start == var low := Page.AlignDown(r.base); if low < base then base else low
    requires end as int == var high := Page.AlignUp(Wrap(r.base + r.size));
                           if high > base + 0x1000 * total then base + 0x1000 * total else high
    ensures ReservedPages(base, total, r) == PagesBetween(base, total, start, end)
    ensures start >= end ==> ReservedPages(base, total, r) == {}
  {}

  lemma IndexIsAligned(base: u64, i: nat)
    requires base % 0x1000 == 0
    ensures (base + 0x1000 * i) % 0x1000 == 0
  {}

  lemma AlignedIsPage(base: u64, pa: u64) returns (i: nat)
    requires base % 0x1000 == 0 && pa % 0x1000 == 0 && base <= pa
    ensures pa == base + 0x1000 * i
  {
    i := (pa - base) / 0x1000;
  }

  lemma OneElementMore<T>(s: set<T>, x: T)
    ensures |s + {x}| == |s| + Digit(x !in s)
  {
    if x in s {
      assert s + {x} == s;
    }
  }

  lemma RemoveTwice(s: set<nat>, a: set<nat>, b: set<nat>)
    ensures s - a - b == s - (a + b)
  {}

  lemma OnePageMore(base: u64, total: nat, low: int, pa: int, index: nat)
    requires index < total && pa == base + 0x1000 * index && low <= pa
    ensures PagesBetween(base, total, low, pa + 0x1000) == PagesBetween(base, total, low, pa) + {index}
  {}

  lemma OnePageFreed(mask: FreeMask, i: nat)
    ensures InitialFree(mask, i + 1) == InitialFree(mask, i) + {ReleasedPage(mask, i)}
  {}

  lemma OneRangeMore(base: u64, total: nat, reserved: seq<Range>, i: nat)
    requires i < |reserved|
    ensures AllReserved(base, total, reserved[..i + 1]) ==
            AllReserved(base, total, reserved[..i]) + ReservedPages(base, total, reserved[i])
  {
    assert reserved[..i + 1][..i] == reserved[..i];
  }

  /** The managed area ends at or below the last page of the address space. */
  lemma ManagedPagesIs(managed: Range, base: u64, end: u64)
    requires base == Page.AlignUp(managed.base)
    requires end == Page.AlignDown(Wrap(managed.base + managed.size))
    ensures base == ManagedBase(managed) && base % 0x1000 == 0
    ensures end <= base ==> ManagedPages(managed) == 0
    ensures end > base ==> 
      ManagedPages(managed) == if (end - base) / 0x1000 < MAX_MANAGED_PAGES then (end - base) / 0x1000 else MAX_MANAGED_PAGES
    ensures ManagedPages(managed) <= MAX_MANAGED_PAGES
    ensures base + 0x1000 * ManagedPages(managed) < WORD_LIMIT
  {}

  lemma NothingFreed(mask: FreeMask)
    ensures InitialFree(mask, 0) == {}
  {}

  lemma NoRangeReserved(base: u64, total: nat)
    ensures AllReserved(base, total, []) == {}
    ensures AllReserved(base, total, [][..0]) == {}
  {}

  lemma {:induction false} ReservedAreManaged(base: u64, total: nat, reserved: seq<Range>)
    ensures forall i :: i in AllReserved(base, total, reserved) ==> i < total
  {
    if reserved != [] {
      ReservedAreManaged(base, total, reserved[..|reserved| - 1]);
    }
  }

  lemma InitReachable(mask: FreeMask, managed: Range, reserved: seq<Range>)
    ensures AfterInit(mask, managed, reserved).Reachable()
    ensures AfterInit(mask, managed, reserved) ==
            Pool(mask, ManagedPages(managed), InitialFree(mask, ManagedPages(managed))
                                              - AllReserved(ManagedBase(managed), ManagedPages(managed), reserved))
    ensures ManagedPages(managed) == 0 ==> AfterInit(mask, managed, reserved) == Pool(mask, 0, {})
  {
    ReservedAreManaged(ManagedBase(managed), ManagedPages(managed), reserved);
  }
}
