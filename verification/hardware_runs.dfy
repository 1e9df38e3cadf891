/** Software and hardware translation over every run with legal arguments. */
module HardwareRuns {
  import opened Word64
  import opened Sv39
  import opened PageTree
  import opened PageRange
  import opened Pmm
  import opened PageSupply
  import opened PageTables
  import opened PageTableRuns
  import opened Sv39Walk
  import Page

  const PHYSICAL_LIMIT: int := 0x100_0000_0000_0000

  /** R, or X without W, and nothing above bit 9. */
  predicate LegalFlags(flags: u64) {
    flags < 0x400 && (Bit(flags, 1) || (Bit(flags, 3) && !Bit(flags, 2)))
  }

  /** The call maps pages in (0, 2^56) with legal flags. */
  predicate LegalCall(call: Call) {
    match call
    case NewSpace => true
    case Map(_, _, pa, flags) => LegalFlags(flags) && Page.IsPageAligned(pa) && 0 < pa < PHYSICAL_LIMIT
    case MapMany(_, va, pa, size, flags) =>
      LegalFlags(flags) && Page.IsPageAligned(pa) && 0 < pa && pa + 0x1000 * PageCount(va, size) <= PHYSICAL_LIMIT
    case Unmap(_, _) => true
  }

  lemma LegalEntry(pa: u64, flags: u64)
    requires LegalFlags(flags) && Page.IsPageAligned(pa) && 0 < pa < PHYSICAL_LIMIT
    ensures HardwareLeaf(MakePte(pa, Or64(flags, PTE_V))) && PteToPa(MakePte(pa, Or64(flags, PTE_V))) != 0
  {
    hide MakePte, PteToPa, HardwareLeaf, Or;
    LegalFlagsAccepted(pa, flags);
  }

  lemma {:induction false} LegalExtend(m: map<nat, Pte>, va: u64, pa: u64, flags: u64, k: nat)
    requires HardwareMap(m) && LegalFlags(flags) && Page.IsPageAligned(pa) && 0 < pa
    requires pa + 0x1000 * k <= PHYSICAL_LIMIT
    ensures HardwareMap(Extend(m, va, pa, flags, k))
  {
    hide NthVpn, MakePte, PteToPa, HardwareLeaf, LegalFlags;
    if k != 0 {
      LegalExtend(m, va, pa, flags, k - 1);
      NthPaAligned(pa, k - 1);
      LegalEntry(Wrap(pa + 0x1000 * (k - 1)), flags);
    }
  }

  ghost predicate AllHardware(m: Spaces) {
    forall r :: r in m ==> HardwareMap(m[r])
  }

  /** A legal call keeps every entry acceptable to the hardware. */
  lemma EffectLegal(call: Call, root: u64, ok: bool, m: Spaces, m': Spaces)
    requires Effect(call, root, ok, m, m') && LegalCall(call) && AllHardware(m)
    ensures AllHardware(m')
  {
    hide Extend, MakePte, PteToPa, HardwareLeaf, LegalFlags, PageCount, Vpn, NthVpn;
    match call
    case NewSpace =>
    case Map(_, va, pa, flags) =>
      LegalEntry(pa, flags);
    case MapMany(_, va, pa, size, flags) =>
      if root in m {
        var k: nat :| k <= PageCount(va, size) && m' == m[root := Extend(m[root], va, pa, flags, k)];
        LegalExtend(m[root], va, pa, flags, k);
      }
    case Unmap(_, _) =>
  }

  lemma {:induction false} TraceLegal(calls: seq<Call>, roots: seq<u64>, results: seq<bool>, trace: seq<Spaces>, n: nat)
    requires n <= |calls| && |trace| == |calls| + 1
    requires forall i :: 0 <= i < |calls| ==> LegalCall(calls[i]) && Follows(calls, roots, results, trace, i)
    requires AllHardware(trace[0])
    ensures AllHardware(trace[n])
  {
    hide Effect, LegalCall, Target, AllHardware;
    if n != 0 {
      TraceLegal(calls, roots, results, trace, n - 1);
      var i := n - 1;
      assert Follows(calls, roots, results, trace, i);
      EffectLegal(calls[i], Target(calls[i], roots[..Asked(calls[..i])], roots[..Asked(calls[..i + 1])]),
                  results[i], trace[i], trace[i + 1]);
    }
  }

  /** Tables built from a pool below 2^56 lie below 2^56. */
  lemma BuiltBelow(p: Pool, s: Shape, p': Pool, s': Shape, base: u64, root: u64)
    requires TablesFromPool(p, s, p', s', base) && Kept(s, s')
    requires base + 0x1000 * p.total <= PHYSICAL_LIMIT && TablesBelow(s, root)
    ensures TablesBelow(s', root)
  {
    forall n | n in s' && n.root == root
      ensures s'[n] < PHYSICAL_LIMIT
    {
      if n !in s {
        var i: nat :| i < p.total && s'[n] == PageAt(base, i);
      }
    }
  }

  /** After any sequence of calls with legal arguments, software and hardware translate every canonical
      address of every address space alike. */
  method LegalRun(spaces: AddressSpaces, calls: seq<Call>) returns (roots: seq<u64>, results: seq<bool>)
    requires spaces.Valid()
    requires forall i :: 0 <= i < |calls| ==> LegalCall(calls[i])
    requires AllHardware(AllSpaces(spaces.frames, spaces.shape)) && forall r: u64 :: TablesBelow(spaces.shape, r)
    requires spaces.pmm.managedBase + 0x1000 * spaces.pmm.Abs().total <= PHYSICAL_LIMIT
    modifies spaces`frames, spaces`shape, spaces.pmm.usedBitmap, spaces.pmm`freePages
    ensures spaces.Valid()
    ensures forall r: u64, va: u64 :: Top(r) in spaces.shape && Canonical(va) ==>
              Reported(WalkFrom(spaces.frames, r, va, 2)) == Walk(spaces.frames, MakeSatp(r), va)
  {
    hide *;
    ghost var trace;
    roots, results, trace := EveryRun(spaces, calls);
    TraceLegal(calls, roots, results, trace, |calls|);
    spaces.ValidParts();
    PaidParts(old(spaces.pmm.Abs()), old(spaces.shape), spaces.pmm.Abs(), spaces.shape, spaces.pmm.managedBase);
    forall r: u64, va: u64 | Top(r) in spaces.shape && Canonical(va)
      ensures Reported(WalkFrom(spaces.frames, r, va, 2)) == Walk(spaces.frames, MakeSatp(r), va)
    {
      BuiltBelow(old(spaces.pmm.Abs()), old(spaces.shape), spaces.pmm.Abs(), spaces.shape, spaces.pmm.managedBase, r);
      SpaceLegal(spaces.frames, spaces.shape, r);
      HardwareMapAgrees(spaces.frames, spaces.shape, r, va);
    }
  }

  lemma PaidParts(p: Pool, s: Shape, p': Pool, s': Shape, base: u64)
    requires Paid(p, s, p', s', base)
    ensures TablesFromPool(p, s, p', s', base)
  {}

  lemma SpaceLegal(f: Frames, s: Shape, r: u64)
    requires AllHardware(AllSpaces(f, s)) && Top(r) in s
    ensures HardwareMap(View(f, s, r))
  {
    hide AllSpaces, HardwareMap, View;
    SpaceAt(f, s, r);
  }
}
