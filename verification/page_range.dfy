/** Consecutive pages: what mapping a range adds to the abstract map and which tables it needs. */
module PageRange {
  import opened Word64
  import opened Sv39
  import opened PageTree
  import opened Pmm
  import opened PageSupply
  import Page

  /** The number of pages that map_range visits. */
  function PageCount(va: u64, size: u64): nat {
    var end := Page.AlignUp(Wrap(va + size));
    if size == 0 || end <= va then 0 else (end - va + 0xfff) / 0x1000
  }

  /** The virtual page number of the k-th page from va on. */
  function NthVpn(va: u64, k: nat): (v: nat)
    ensures v < VPN_LIMIT
  {
    (va / 0x1000 + k) % VPN_LIMIT
  }

  /** The entry that map_range installs for the k-th page; the physical address may wrap. */
  function NthPte(pa: u64, flags: u64, k: nat): Pte {
    MakePte(Wrap(pa + 0x1000 * k), Or64(flags, PTE_V))
  }

  /** The abstract map with the first k pages of a range added. */
  function Extend(m: map<nat, Pte>, va: u64, pa: u64, flags: u64, k: nat): map<nat, Pte> {
    if k == 0 then m
    else Extend(m, va, pa, flags, k - 1)[NthVpn(va, k - 1) := NthPte(pa, flags, k - 1)]
  }

  /** The tables on the paths to the first k pages. */
  function PathNodes(root: u64, va: u64, k: nat): set<Node> {
    if k == 0 then {}
    else PathNodes(root, va, k - 1) + {NodeAt(root, NthVpn(va, k - 1), 1), NodeAt(root, NthVpn(va, k - 1), 0)}
  }

  /** The tables that must be built to map the first k pages. */
  function Needed(s: Shape, root: u64, va: u64, k: nat): set<Node> {
    PathNodes(root, va, k) - s.Keys
  }

  /** The first k pages can be mapped: they are distinct, none is mapped, and the allocator grants
      exactly the tables that are needed. */
  ghost predicate Mappable(m: map<nat, Pte>, s: Shape, p: Pool, base: u64, root: u64, va: u64, k: nat) {
    && k <= VPN_LIMIT
    && (forall i: nat :: i < k ==> NthVpn(va, i) !in m)
    && Grants(p, base, |Needed(s, root, va, k)|)
  }

  /** The tables grew by exactly those needed for the first k pages. */
  ghost predicate GrownBy(s: Shape, s': Shape, root: u64, va: u64, k: nat) {
    && (forall n :: n in s ==> n in s' && s'[n] == s[n])
    && s'.Keys == s.Keys + PathNodes(root, va, k)
  }

  /** No table outside the paths to the first k pages was added. */
  ghost predicate GrownWithin(s: Shape, s': Shape, root: u64, va: u64, k: nat) {
    s.Keys <= s'.Keys <= s.Keys + PathNodes(root, va, k)
  }

  // ---- page numbers along a range

  lemma NthVpnIs(va: u64, k: nat)
    requires va % 0x1000 == 0 && va + 0x1000 * k < WORD_LIMIT
    ensures Vpn(va + 0x1000 * k) == NthVpn(va, k)
  {
    assert (va + 0x1000 * k) / 0x1000 == va / 0x1000 + k;
  }

  /** Up to 2^27 consecutive pages have different page numbers, and then they repeat. */
  lemma NthVpnDistinct(va: u64, i: nat, j: nat)
    requires i < j
    ensures j - i < VPN_LIMIT ==> NthVpn(va, i) != NthVpn(va, j)
    ensures j - i == VPN_LIMIT ==> NthVpn(va, i) == NthVpn(va, j)
  {
    var a, b := va / 0x1000 + i, va / 0x1000 + j;
    assert a == VPN_LIMIT * (a / VPN_LIMIT) + a % VPN_LIMIT;
    assert b == VPN_LIMIT * (b / VPN_LIMIT) + b % VPN_LIMIT;
  }

  /** Without wrap-around the visited pages are the ceil(size / 4096) pages of the range. */
  lemma PageCountExact(va: u64, size: u64)
    requires va % 0x1000 == 0
    ensures (size <= 0x1000 * PageCount(va, size) < size + 0x1000)
            <==> (size == 0 || va + size <= WORD_LIMIT - 0x1000)
    ensures va + size > WORD_LIMIT - 0x1000 ==> PageCount(va, size) == 0
    ensures va + 0x1000 * PageCount(va, size) < WORD_LIMIT
  {}

  // ---- the abstract map

  lemma {:induction false} ExtendAt(m: map<nat, Pte>, va: u64, pa: u64, flags: u64, k: nat, v: nat)
    ensures v in Extend(m, va, pa, flags, k) <==> v in m || exists i: nat :: i < k && v == NthVpn(va, i)
    ensures v in m && (forall i: nat :: i < k ==> v != NthVpn(va, i)) ==> Extend(m, va, pa, flags, k)[v] == m[v]
  {
    hide NthVpn, NthPte;
    if k != 0 {
      ExtendAt(m, va, pa, flags, k - 1, v);
      if v == NthVpn(va, k - 1) {
        assert k - 1 < k;
      }
    }
  }

  /** What mapping a range means, page by page: the i-th page maps to the i-th physical page, and no
      other page of the address space changes. */
  lemma {:induction false} ExtendMaps(m: map<nat, Pte>, va: u64, pa: u64, flags: u64, k: nat, i: nat)
    requires k <= VPN_LIMIT && i < k
    ensures NthVpn(va, i) in Extend(m, va, pa, flags, k)
    ensures Extend(m, va, pa, flags, k)[NthVpn(va, i)] == NthPte(pa, flags, i)
  {
    hide NthVpn, NthPte;
    if i != k - 1 {
      ExtendMaps(m, va, pa, flags, k - 1, i);
      NthVpnDistinct(va, i, k - 1);
    }
  }

  // ---- the tables needed

  lemma NeededStep(s: Shape, s': Shape, root: u64, va: u64, k: nat)
    requires GrownBy(s, s', root, va, k)
    ensures |s'| == |s| + |Needed(s, root, va, k)|
    ensures |Needed(s, root, va, k + 1)| == |Needed(s, root, va, k)| + Missing(s', root, NthVpn(va, k))
  {
    hide NodeAt, NthVpn;
    var v := NthVpn(va, k);
    NodesDiffer(root, v);
    NewElements(s.Keys, PathNodes(root, va, k), NodeAt(root, v, 1), NodeAt(root, v, 0));
    assert PathNodes(root, va, k + 1) == PathNodes(root, va, k) + {NodeAt(root, v, 1), NodeAt(root, v, 0)};
    assert |s'.Keys| == |s'| && |s.Keys| == |s|;
  }

  lemma NewElements(had: set<Node>, path: set<Node>, a: Node, b: Node)
    requires a != b
    ensures |had + path| == |had| + |path - had|
    ensures |path + {a, b} - had| == |path - had| + Digit(a !in had + path) + Digit(b !in had + path)
  {
    assert had + path == had + (path - had);
    OneElementMore(path - had, a);
    OneElementMore(path - had + {a}, b);
    var all := path - had;
    if a in had && b in had {
      assert path + {a, b} - had == all;
    } else if a in had {
      OneElementMore(all, b);
      assert path + {a, b} - had == all + {b};
    } else if b in had {
      assert path + {a, b} - had == all + {a};
    } else {
      assert path + {a, b} - had == all + {a} + {b};
    }
  }

  lemma NodesDiffer(root: u64, v: nat)
    ensures NodeAt(root, v, 1) != NodeAt(root, v, 0)
  {}

  lemma {:induction false} NeededGrows(s: Shape, root: u64, va: u64, j: nat, k: nat)
    requires j <= k
    ensures Needed(s, root, va, j) <= Needed(s, root, va, k)
  {
    if j < k {
      NeededGrows(s, root, va, j, k - 1);
    }
  }

  /** A prefix of a mappable range is mappable. */
  lemma MappablePrefix(m: map<nat, Pte>, s: Shape, p: Pool, base: u64, root: u64, va: u64, j: nat, k: nat)
    requires j <= k && Mappable(m, s, p, base, root, va, k)
    ensures Mappable(m, s, p, base, root, va, j)
  {
    hide NthVpn, ZeroPageFree;
    NeededGrows(s, root, va, j, k);
    SubsetSize(Needed(s, root, va, j), Needed(s, root, va, k));
  }

  lemma SubsetSize(a: set<Node>, b: set<Node>)
    requires a <= b
    ensures |a| <= |b|
  {
    assert b == a + (b - a);
  }

  /** After k pages, the next page can be mapped exactly when k + 1 pages could be mapped from the
      start. */
  lemma NextPage(m: map<nat, Pte>, s: Shape, p: Pool, s': Shape, p': Pool, base: u64, root: u64, va: u64,
                 pa: u64, flags: u64, k: nat)
    requires Mappable(m, s, p, base, root, va, k) && GrownBy(s, s', root, va, k)
    requires |p.Available()| + |s| == |p'.Available()| + |s'|
    requires ZeroPageFree(p, base) <==> ZeroPageFree(p', base)
    ensures Mappable(m, s, p, base, root, va, k + 1)
            <==> (&& NthVpn(va, k) !in Extend(m, va, pa, flags, k)
                  && Grants(p', base, Missing(s', root, NthVpn(va, k))))
  {
    hide NthVpn, ZeroPageFree, GrownBy, Missing, Needed, Extend, Pool.Available, NthPte;
    NeededStep(s, s', root, va, k);
    ExtendAt(m, va, pa, flags, k, NthVpn(va, k));
    forall i: nat | i < k
      ensures k < VPN_LIMIT ==> NthVpn(va, i) != NthVpn(va, k)
    {
      NthVpnDistinct(va, i, k);
    }
    if k == VPN_LIMIT {
      NthVpnDistinct(va, 0, k);
    }
  }

  lemma {:induction false} PathGrows(root: u64, va: u64, j: nat, k: nat)
    requires j <= k
    ensures PathNodes(root, va, j) <= PathNodes(root, va, k)
  {
    if j < k {
      PathGrows(root, va, j, k - 1);
    }
  }

  /** One more page adds at most the two tables on its path. */
  lemma WithinOne(s: Shape, s': Shape, s'': Shape, root: u64, va: u64, k: nat, count: nat)
    requires GrownBy(s, s', root, va, k) && k < count
    requires forall n :: n in s' ==> n in s''
    requires forall n :: n in s'' && n !in s' ==>
                           n == NodeAt(root, NthVpn(va, k), 1) || n == NodeAt(root, NthVpn(va, k), 0)
    ensures GrownWithin(s, s'', root, va, count)
  {
    hide NodeAt, NthVpn;
    PathGrows(root, va, k + 1, count);
  }

  lemma GrowOne(s: Shape, s': Shape, s'': Shape, root: u64, va: u64, k: nat)
    requires GrownBy(s, s', root, va, k)
    requires forall n :: n in s' ==> n in s'' && s''[n] == s'[n]
    requires forall n :: n in s'' && n !in s' ==>
                           n == NodeAt(root, NthVpn(va, k), 1) || n == NodeAt(root, NthVpn(va, k), 0)
    requires NodeAt(root, NthVpn(va, k), 1) in s'' && NodeAt(root, NthVpn(va, k), 0) in s''
    ensures GrownBy(s, s'', root, va, k + 1)
  {
    hide NodeAt, NthVpn;
  }

  // ---- a bound on the tables needed

  /** The tables of the 1 GiB regions from low up to high. */
  function Mids(root: u64, low: nat, high: nat): set<Node> {
    set i: nat | low <= i < high :: Mid(root, i)
  }

  /** The tables of the 2 MiB regions from low up to high. */
  function Bottoms(root: u64, low: nat, high: nat): set<Node> {
    set j: nat | low <= j < high :: Bottom(root, j / 512, j % 512)
  }

  function RegionNodes(root: u64, low2: nat, high2: nat, low1: nat, high1: nat): set<Node> {
    Mids(root, low2, high2) + Bottoms(root, low1, high1)
  }

  lemma {:induction false} MidCount(root: u64, low: nat, high: nat)
    requires low <= high
    ensures |Mids(root, low, high)| == high - low
  {
    if low < high {
      MidCount(root, low, high - 1);
      assert Mids(root, low, high) == Mids(root, low, high - 1) + {Mid(root, high - 1)};
    } else {
      assert Mids(root, low, high) == {};
    }
  }

  lemma {:induction false} BottomCount(root: u64, low: nat, high: nat)
    requires low <= high
    ensures |Bottoms(root, low, high)| == high - low
  {
    if low < high {
      BottomCount(root, low, high - 1);
      var last := Bottom(root, (high - 1) / 512, (high - 1) % 512);
      assert Bottoms(root, low, high) == Bottoms(root, low, high - 1) + {last};
      forall j: nat | low <= j < high - 1
        ensures Bottom(root, j / 512, j % 512) != last
      {
        assert j == 512 * (j / 512) + j % 512;
      }
    } else {
      assert Bottoms(root, low, high) == {};
    }
  }

  lemma RegionCount(root: u64, low2: nat, high2: nat, low1: nat, high1: nat)
    requires low2 <= high2 && low1 <= high1
    ensures |RegionNodes(root, low2, high2, low1, high1)| == high2 - low2 + (high1 - low1)
  {
    MidCount(root, low2, high2);
    BottomCount(root, low1, high1);
    assert Mids(root, low2, high2) !! Bottoms(root, low1, high1);
  }

  /** The tables of every page up to `last` of one 39-bit space lie in the regions up to `last`. */
  lemma {:induction false} PathInRegions(root: u64, va: u64, k: nat, last: nat)
    requires Vpn(va) + k <= last + 1 <= VPN_LIMIT
    ensures PathNodes(root, va, k) <=
            RegionNodes(root, Vpn(va) / 0x4_0000, last / 0x4_0000 + 1, Vpn(va) / 512, last / 512 + 1)
  {
    if k > 0 {
      PathInRegions(root, va, k - 1, last);
      NthVpnInSpace(va, k - 1);
      NodesInRegion(root, Vpn(va), Vpn(va) + k - 1, last);
    }
  }

  lemma NodesInRegion(root: u64, first: nat, v: nat, last: nat)
    requires first <= v <= last < VPN_LIMIT
    ensures var r := RegionNodes(root, first / 0x4_0000, last / 0x4_0000 + 1, first / 512, last / 512 + 1);
            NodeAt(root, v, 1) in r && NodeAt(root, v, 0) in r
  {
    NodesByRegion(root, v);
    assert first / 0x4_0000 <= v / 0x4_0000 <= last / 0x4_0000;
    assert first / 512 <= v / 512 <= last / 512;
    assert NodeAt(root, v, 1) in Mids(root, first / 0x4_0000, last / 0x4_0000 + 1);
    assert NodeAt(root, v, 0) in Bottoms(root, first / 512, last / 512 + 1);
  }

  lemma NthVpnInSpace(va: u64, k: nat)
    requires va / 0x1000 % VPN_LIMIT + k < VPN_LIMIT
    ensures NthVpn(va, k) == Vpn(va) + k
  {
    var q := va / 0x1000 / VPN_LIMIT;
    assert va / 0x1000 == VPN_LIMIT * q + va / 0x1000 % VPN_LIMIT;
    assert va / 0x1000 + k == VPN_LIMIT * q + (va / 0x1000 % VPN_LIMIT + k);
  }

  lemma NodesByRegion(root: u64, v: nat)
    requires v < VPN_LIMIT
    ensures NodeAt(root, v, 1) == Mid(root, v / 0x4_0000)
    ensures NodeAt(root, v, 0) == Bottom(root, v / 512 / 512, v / 512 % 512)
  {
    assert v / 512 / 512 == v / 0x4_0000;
  }

  /** The number of 1 GiB and 2 MiB regions that k pages from va on reach. */
  function Regions(va: u64, k: nat): nat
    requires k > 0
  {
    var first := Vpn(va);
    ((first + k - 1) / 0x4_0000 - first / 0x4_0000 + 1) + ((first + k - 1) / 512 - first / 512 + 1)
  }

  /** A range inside one 39-bit space needs at most one table for each region it reaches. */
  lemma NeededBound(s: Shape, root: u64, va: u64, k: nat)
    requires k > 0 && va / 0x1000 % VPN_LIMIT + k <= VPN_LIMIT
    ensures |Needed(s, root, va, k)| <= Regions(va, k)
  {
    hide *;
    var first, last := Vpn(va), Vpn(va) + k - 1;
    var low2, high2, low1, high1 := first / 0x4_0000, last / 0x4_0000 + 1, first / 512, last / 512 + 1;
    FirstPage(va);
    PathInRegions(root, va, k, last);
    RegionsAre(va, k, low2, high2, low1, high1);
    RegionCount(root, low2, high2, low1, high1);
    NeededIn(s, root, va, k, RegionNodes(root, low2, high2, low1, high1));
  }

  lemma FirstPage(va: u64)
    ensures Vpn(va) == va / 0x1000 % VPN_LIMIT
  {}

  lemma RegionsAre(va: u64, k: nat, low2: nat, high2: nat, low1: nat, high1: nat)
    requires k > 0
    requires low2 == Vpn(va) / 0x4_0000 && high2 == (Vpn(va) + k - 1) / 0x4_0000 + 1
    requires low1 == Vpn(va) / 512 && high1 == (Vpn(va) + k - 1) / 512 + 1
    ensures low2 <= high2 && low1 <= high1 && Regions(va, k) == high2 - low2 + (high1 - low1)
  {}

  lemma NeededIn(s: Shape, root: u64, va: u64, k: nat, all: set<Node>)
    requires PathNodes(root, va, k) <= all
    ensures |Needed(s, root, va, k)| <= |all|
  {
    hide PathNodes;
    SubsetSize(Needed(s, root, va, k), all);
  }

  /** A call never builds more tables than the range reaches regions, whether it succeeds or not. */
  lemma TablesBuilt(s: Shape, s': Shape, root: u64, va: u64, k: nat)
    requires GrownWithin(s, s', root, va, k)
    requires k > 0 && va / 0x1000 % VPN_LIMIT + k <= VPN_LIMIT
    ensures |s'| <= |s| + |Needed(s, root, va, k)| <= |s| + Regions(va, k)
  {
    hide Regions, NthVpn, PathNodes;
    NeededBound(s, root, va, k);
    GrowthBound(s, s', PathNodes(root, va, k));
  }

  lemma GrowthBound(s: Shape, s': Shape, path: set<Node>)
    requires s.Keys <= s'.Keys <= s.Keys + path
    ensures |s'| <= |s| + |path - s.Keys|
  {
    assert s'.Keys == s.Keys + (s'.Keys - s.Keys);
    assert |s'.Keys| == |s'| && |s.Keys| == |s|;
    SubsetSize(s'.Keys - s.Keys, path - s.Keys);
  }

  /** Enough free pages for the regions of a range are enough to map it. */
  lemma EnoughPages(m: map<nat, Pte>, s: Shape, p: Pool, base: u64, root: u64, va: u64, k: nat)
    requires k > 0 && va / 0x1000 % VPN_LIMIT + k <= VPN_LIMIT
    requires forall i: nat :: i < k ==> NthVpn(va, i) !in m
    requires |p.Available()| >= Regions(va, k) && !ZeroPageFree(p, base)
    ensures Mappable(m, s, p, base, root, va, k)
  {
    hide Needed, Regions, NthVpn;
    NeededBound(s, root, va, k);
  }
}
