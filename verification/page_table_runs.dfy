/** Every run of the page table functions refines a machine on plain partial maps. */
module PageTableRuns {
  import opened Word64
  import opened Sv39
  import opened PageTree
  import opened PageRange
  import opened Pmm
  import opened PageSupply
  import opened PageTables
  import Page

  /** A call.  Address spaces are named by the order in which they were asked for; a number never
      handed out stands for a null root. */
  datatype Call =
    | NewSpace
    | Map(space: nat, va: u64, pa: u64, flags: u64)
    | MapMany(space: nat, va: u64, pa: u64, size: u64, flags: u64)
    | Unmap(space: nat, va: u64)

  /** All address spaces as plain maps. */
  type Spaces = map<u64, map<nat, Pte>>

  ghost function AllSpaces(frames: Frames, shape: Shape): Spaces {
    map n | n in shape && n.Top? :: n.root := View(frames, shape, n.root)
  }

  function WithPage(view: map<nat, Pte>, v: nat, pte: Pte): map<nat, Pte> {
    view[v := pte]
  }

  /** What a call with outcome `ok` does to the plain maps: the one change it is for when it succeeds,
      and nothing, or a prefix of a range, when it fails. */
  ghost predicate Effect(call: Call, root: u64, ok: bool, m: Spaces, m': Spaces) {
    match call
    case NewSpace =>
      if ok then root != 0 && root !in m && m' == m[root := map[]] else m' == m
    case Map(_, va, pa, flags) =>
      if ok then root in m && Vpn(va) !in m[root] && m' == m[root := WithPage(m[root], Vpn(va), MakePte(pa, Or64(flags, PTE_V)))]
      else m' == m
    case MapMany(_, va, pa, size, flags) =>
      if root in m then
        exists k: nat :: k <= PageCount(va, size) && (ok ==> k == PageCount(va, size))
                         && (forall i: nat :: i < k ==> NthVpn(va, i) !in m[root])
                         && m' == m[root := Extend(m[root], va, pa, flags, k)]
      else m' == m && (ok ==> PageCount(va, size) == 0)
    case Unmap(_, va) =>
      if ok then root in m && Vpn(va) in m[root] && PteLeaf(m[root][Vpn(va)]) && m' == m[root := m[root] - {Vpn(va)}]
      else m' == m
  }

  function RootOf(roots: seq<u64>, space: nat): u64 {
    if space < |roots| then roots[space] else 0
  }

  /** The root a call works on; for NewSpace, the one it returned. */
  function Target(call: Call, roots: seq<u64>, returned: seq<u64>): u64 {
    match call
    case NewSpace => if returned == [] then 0 else returned[|returned| - 1]
    case Map(s, _, _, _) => RootOf(roots, s)
    case MapMany(s, _, _, _, _) => RootOf(roots, s)
    case Unmap(s, _) => RootOf(roots, s)
  }

  /** The number of address spaces asked for. */
  function Asked(calls: seq<Call>): nat {
    if calls == [] then 0 else Asked(calls[..|calls| - 1]) + Digit(calls[|calls| - 1].NewSpace?)
  }

  /** One space changed to `view`, the others kept. */
  lemma OneSpace(f: Frames, s: Shape, f': Frames, s': Shape, root: u64)
    requires OthersKept(f, s, f', s', root)
    ensures root == 0 && Top(root) !in s ==> AllSpaces(f', s') == AllSpaces(f, s)
    ensures Top(root) in s ==> AllSpaces(f', s') == AllSpaces(f, s)[root := View(f', s', root)]
    ensures Top(root) in s <==> root in AllSpaces(f, s)
    ensures Top(root) in s ==> AllSpaces(f, s)[root] == View(f, s, root)
  {
    hide View, AllSpaces;
    forall r: u64
      ensures r in AllSpaces(f, s) <==> Top(r) in s
      ensures r in AllSpaces(f', s') <==> Top(r) in s'
      ensures r in AllSpaces(f, s) ==> AllSpaces(f, s)[r] == View(f, s, r)
      ensures r in AllSpaces(f', s') ==> AllSpaces(f', s')[r] == View(f', s', r)
    {
      SpaceAt(f, s, r);
      SpaceAt(f', s', r);
    }
  }

  lemma SpaceAt(f: Frames, s: Shape, r: u64)
    ensures r in AllSpaces(f, s) <==> Top(r) in s
    ensures r in AllSpaces(f, s) ==> AllSpaces(f, s)[r] == View(f, s, r)
  {
    hide View;
    if Top(r) in s {
      assert Top(r).root == r;
    }
  }

  predicate Registered(roots: seq<u64>, shape: Shape) {
    forall r :: r in roots ==> r == 0 || Top(r) in shape
  }

  /** Issues one call.  A new address space adds its root, or null, to the roots. */
  method Issue(spaces: AddressSpaces, call: Call, roots: seq<u64>) returns (roots': seq<u64>, ok: bool)
    requires spaces.Valid() && Registered(roots, spaces.shape)
    modifies spaces`frames, spaces`shape, spaces.pmm.usedBitmap, spaces.pmm`freePages
    ensures spaces.Valid() && Registered(roots', spaces.shape)
    ensures roots <= roots' && |roots'| == |roots| + Digit(call.NewSpace?)
    ensures Effect(call, Target(call, roots, roots'), ok,
                   AllSpaces(old(spaces.frames), old(spaces.shape)), AllSpaces(spaces.frames, spaces.shape))
    ensures Kept(old(spaces.shape), spaces.shape)
    ensures Paid(old(spaces.pmm.Abs()), old(spaces.shape), spaces.pmm.Abs(), spaces.shape, spaces.pmm.managedBase)
    ensures DataKept(old(spaces.frames), spaces.frames, spaces.shape)
  {
    hide *;
    ghost var f, s, p, base := spaces.frames, spaces.shape, spaces.pmm.Abs(), spaces.pmm.managedBase;
    ghost var root := Target(call, roots, roots);
    TargetIs(call, roots, s);
    DigitIs(call.NewSpace?);
    NothingYet(f, s, p, base, root, 0);
    spaces.ValidParts();
    NullIsNoRoot(f, s);
    DataSame(f, s);
    roots' := roots;
    match call {
      case NewSpace =>
        var page := spaces.AllocPageTable();
        SpaceAdded(f, s, p, spaces.frames, spaces.shape, spaces.pmm.Abs(), base, page);
        MoreRoots(roots, page, s, spaces.shape);
        roots' := roots + [page];
        ok := page != 0;
      case Map(space, va, pa, flags) =>
        ok := spaces.MapPage(RootOf(roots, space), va, pa, flags);
        GrownKeeps(s, s, spaces.shape, root, Vpn(va));
        MapEffect(call, f, s, spaces.frames, spaces.shape, root, ok);
        RootsStay(roots, s, spaces.shape);
      case MapMany(space, va, pa, size, flags) =>
        ghost var mapped;
        ok, mapped := spaces.MapRange(RootOf(roots, space), va, pa, size, flags);
        MapManyEffect(call, f, s, p, spaces.frames, spaces.shape, base, root, ok, mapped);
        RootsStay(roots, s, spaces.shape);
      case Unmap(space, va) =>
        ok := spaces.UnmapPage(RootOf(roots, space), va);
        UnmapEffect(call, f, s, spaces.frames, root, ok);
        RootsStay(roots, s, spaces.shape);
    }
  }

  lemma NullIsNoRoot(f: Frames, s: Shape)
    requires Tree(f, s)
    ensures Top(0) !in s
  {
    hide Linked, LeavesValid, Separate, Rooted;
  }

  lemma DigitIs(b: bool)
    ensures Digit(b) == if b then 1 else 0
  {}

  lemma TargetIs(call: Call, roots: seq<u64>, shape: Shape)
    requires Registered(roots, shape)
    ensures !call.NewSpace? ==> Target(call, roots, roots) == RootOf(roots, call.space)
    ensures !call.NewSpace? ==> Target(call, roots, roots) == 0 || Top(Target(call, roots, roots)) in shape
  {}

  lemma RootsStay(roots: seq<u64>, s: Shape, s': Shape)
    requires Registered(roots, s) && Kept(s, s')
    ensures Registered(roots, s')
  {}

  lemma MoreRoots(roots: seq<u64>, page: u64, s: Shape, s': Shape)
    requires Registered(roots, s) && Kept(s, s') && (page == 0 || Top(page) in s')
    ensures Registered(roots + [page], s')
    ensures Target(NewSpace, roots, roots + [page]) == page
  {}

  lemma SpaceAdded(f: Frames, s: Shape, p: Pool, f': Frames, s': Shape, p': Pool, base: u64, page: u64)
    requires p' == Taken(p)
    requires page == 0 <==> ReturnsNull(p, base)
    requires page == 0 ==> f' == f && s' == s
    requires page != 0 ==> && Top(page) !in s && s' == s[Top(page) := page] && page == PageAt(base, p.Lowest(0))
                           && (forall r :: View(f, s, r) == View(f', s', r)) && View(f', s', page) == map[]
    ensures Kept(s, s') && Paid(p, s, p', s', base)
    ensures page == 0 || Top(page) in s'
    ensures Effect(NewSpace, page, page != 0, AllSpaces(f, s), AllSpaces(f', s'))
  {
    hide View, Pool.Lowest, Pool.Available, ZeroPageFree, Taken, ReturnsNull, PageAt, TablesAccounted, TablesFromPool, Grants;
    NothingYet(f, s, p, base, page, 0);
    if page == 0 {
      NothingTaken(p, s, p, s, base);
    } else {
      TakenIs(p, base);
      GrantsStep(p, base, 0);
      OneMoreTable(s, Top(page), page);
      StillAccounted(p, p, s, s', base);
      NewFromPool(p, s, p, s, base, Top(page), page);
      NullHasZeroPage(p, base);
      SpaceMapGrows(f, s, f', s', page);
    }
  }

  lemma NullHasZeroPage(p: Pool, base: u64)
    ensures ZeroPageFree(p, base) ==> ReturnsNull(p, base)
    ensures !ReturnsNull(p, base) ==> p.Available() != {}
  {}

  lemma SpaceMapGrows(f: Frames, s: Shape, f': Frames, s': Shape, page: u64)
    requires Top(page) !in s && s' == s[Top(page) := page]
    requires (forall r :: View(f, s, r) == View(f', s', r)) && View(f', s', page) == map[]
    ensures page !in AllSpaces(f, s) && AllSpaces(f', s') == AllSpaces(f, s)[page := map[]]
  {
    hide View;
    forall r: u64
      ensures r in AllSpaces(f, s) <==> Top(r) in s
      ensures r in AllSpaces(f', s') <==> Top(r) in s'
      ensures r in AllSpaces(f, s) ==> AllSpaces(f, s)[r] == View(f, s, r)
      ensures r in AllSpaces(f', s') ==> AllSpaces(f', s')[r] == View(f', s', r)
    {
      SpaceAt(f, s, r);
      SpaceAt(f', s', r);
    }
  }

  lemma MapEffect(call: Call, f: Frames, s: Shape, f': Frames, s': Shape, root: u64, ok: bool)
    requires call.Map? && (root == 0 || Top(root) in s) && OthersKept(f, s, f', s', root)
    requires ok ==> root != 0 && Vpn(call.va) !in View(f, s, root)
    requires View(f', s', root) == if ok then View(f, s, root)[Vpn(call.va) := MakePte(call.pa, Or64(call.flags, PTE_V))]
                                   else View(f, s, root)
    ensures Effect(call, root, ok, AllSpaces(f, s), AllSpaces(f', s'))
  {
    hide View, MakePte, Vpn, OthersKept, AllSpaces;
    OneSpace(f, s, f', s', root);
  }

  lemma MapManyEffect(call: Call, f: Frames, s: Shape, p: Pool, f': Frames, s': Shape, base: u64, root: u64,
                      ok: bool, mapped: nat)
    requires call.MapMany? && (root == 0 || Top(root) in s) && OthersKept(f, s, f', s', root)
    requires mapped <= PageCount(call.va, call.size) && (ok ==> mapped == PageCount(call.va, call.size))
    requires root == 0 ==> mapped == 0
    requires Top(0) !in s
    requires Mappable(View(f, s, root), s, p, base, root, call.va, mapped)
    requires View(f', s', root) == Extend(View(f, s, root), call.va, call.pa, call.flags, mapped)
    ensures Effect(call, root, ok, AllSpaces(f, s), AllSpaces(f', s'))
  {
    hide View, Extend, OthersKept, AllSpaces, PageCount, NthVpn, Grants;
    OneSpace(f, s, f', s', root);
  }

  lemma UnmapEffect(call: Call, f: Frames, s: Shape, f': Frames, root: u64, ok: bool)
    requires call.Unmap? && (root == 0 || Top(root) in s) && OthersKept(f, s, f', s, root)
    requires ok ==> root != 0 && Vpn(call.va) in View(f, s, root) && PteLeaf(View(f, s, root)[Vpn(call.va)])
    requires View(f', s, root) == if ok then View(f, s, root) - {Vpn(call.va)} else View(f, s, root)
    ensures Effect(call, root, ok, AllSpaces(f, s), AllSpaces(f', s))
  {
    hide View, Vpn, OthersKept, AllSpaces;
    OneSpace(f, s, f', s, root);
  }

  /** Issues any sequence of calls.  In every state on the way the tables form a tree whose
      translations follow the plain machine step by step; at the end every page taken from the
      allocator holds a table that is still linked, and no page is lost (but page 0). */
  method EveryRun(spaces: AddressSpaces, calls: seq<Call>)
    returns (roots: seq<u64>, results: seq<bool>, ghost trace: seq<Spaces>)
    requires spaces.Valid()
    modifies spaces`frames, spaces`shape, spaces.pmm.usedBitmap, spaces.pmm`freePages
    ensures spaces.Valid()
    ensures |trace| == |calls| + 1 && |results| == |calls| && |roots| == Asked(calls)
    ensures trace[0] == AllSpaces(old(spaces.frames), old(spaces.shape))
    ensures trace[|calls|] == AllSpaces(spaces.frames, spaces.shape)
    ensures forall i :: 0 <= i < |calls| ==> Follows(calls, roots, results, trace, i)
    ensures Kept(old(spaces.shape), spaces.shape)
    ensures Paid(old(spaces.pmm.Abs()), old(spaces.shape), spaces.pmm.Abs(), spaces.shape, spaces.pmm.managedBase)
    ensures DataKept(old(spaces.frames), spaces.frames, spaces.shape)
  {
    hide *;
    roots, results := [], [];
    trace := [AllSpaces(spaces.frames, spaces.shape)];
    NothingYet(spaces.frames, spaces.shape, spaces.pmm.Abs(), spaces.pmm.managedBase, 0, 0);
    NoRoots(spaces.shape, calls);
    DataSame(spaces.frames, spaces.shape);
    var i := 0;
    while i < |calls|
      invariant i <= |calls| && |trace| == i + 1 && |results| == i && |roots| == Asked(calls[..i])
      invariant spaces.Valid() && Registered(roots, spaces.shape)
      invariant trace[0] == AllSpaces(old(spaces.frames), old(spaces.shape))
      invariant trace[i] == AllSpaces(spaces.frames, spaces.shape)
      invariant forall j :: 0 <= j < i ==> Follows(calls, roots, results, trace, j)
      invariant Kept(old(spaces.shape), spaces.shape) && spaces.pmm.managedBase == old(spaces.pmm.managedBase)
      invariant Paid(old(spaces.pmm.Abs()), old(spaces.shape), spaces.pmm.Abs(), spaces.shape, spaces.pmm.managedBase)
      invariant DataKept(old(spaces.frames), spaces.frames, spaces.shape)
    {
      ghost var f, s, p, roots0, results0, trace0 := spaces.frames, spaces.shape, spaces.pmm.Abs(), roots, results, trace;
      var ok;
      roots, ok := Issue(spaces, calls[i], roots);
      KeptChain(old(spaces.shape), s, spaces.shape);
      DataChain(old(spaces.frames), f, s, spaces.frames, spaces.shape);
      PaidChain(old(spaces.pmm.Abs()), old(spaces.shape), p, s, spaces.pmm.Abs(), spaces.shape, spaces.pmm.managedBase);
      trace := trace + [AllSpaces(spaces.frames, spaces.shape)];
      results := results + [ok];
      OneCallMore(calls, roots0, roots, results0, results, trace0, trace, i);
      i := i + 1;
    }
    assert calls[..i] == calls;
  }

  /** Call number i changed the plain maps as its outcome says, in the address space it names among
      those asked for before it. */
  ghost predicate Follows(calls: seq<Call>, roots: seq<u64>, results: seq<bool>, trace: seq<Spaces>, i: nat) {
    && i < |calls| && i < |results| && i + 1 < |trace| && Asked(calls[..i + 1]) <= |roots|
    && Asked(calls[..i]) <= Asked(calls[..i + 1])
    && Effect(calls[i], Target(calls[i], roots[..Asked(calls[..i])], roots[..Asked(calls[..i + 1])]), results[i],
              trace[i], trace[i + 1])
  }

  lemma OneCallMore(calls: seq<Call>, roots: seq<u64>, roots': seq<u64>, results: seq<bool>, results': seq<bool>,
                    trace: seq<Spaces>, trace': seq<Spaces>, i: nat)
    requires i < |calls| && |trace| == i + 1 && |results| == i && |roots| == Asked(calls[..i])
    requires roots <= roots' && |roots'| == |roots| + Digit(calls[i].NewSpace?)
    requires |results'| == i + 1 && results <= results' && |trace'| == i + 2 && trace <= trace'
    requires Effect(calls[i], Target(calls[i], roots, roots'), results'[i], trace'[i], trace'[i + 1])
    requires forall j :: 0 <= j < i ==> Follows(calls, roots, results, trace, j)
    ensures |roots'| == Asked(calls[..i + 1])
    ensures forall j :: 0 <= j < i + 1 ==> Follows(calls, roots', results', trace', j)
  {
    hide Effect, Target;
    assert calls[..i + 1][..i] == calls[..i];
    assert roots'[..|roots|] == roots && roots'[..|roots'|] == roots';
    forall j | 0 <= j < i
      ensures Follows(calls, roots', results', trace', j)
    {
      assert Follows(calls, roots, results, trace, j);
      assert roots'[..Asked(calls[..j])] == roots[..Asked(calls[..j])];
      assert roots'[..Asked(calls[..j + 1])] == roots[..Asked(calls[..j + 1])];
    }
  }

  lemma KeptChain(s: Shape, s': Shape, s'': Shape)
    requires Kept(s, s') && Kept(s', s'')
    ensures Kept(s, s'')
  {}

  lemma NoRoots(shape: Shape, calls: seq<Call>)
    ensures Registered([], shape) && Asked(calls[..0]) == 0
  {}
}
