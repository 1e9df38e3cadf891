/** What a caller of alloc_page can count on: how many of the next calls return a page. */
module PageSupply {
  import opened Word64
  import opened Pmm

  function PageAt(base: u64, index: nat): int {
    base + 0x1000 * index
  }

  /** The pool after one alloc_page. */
  function Taken(p: Pool): Pool {
    if p.Lowest(0) == -1 then p else p.(free := p.free - {p.Lowest(0) as nat})
  }

  /** The pool after k calls of alloc_page. */
  function TakenMany(p: Pool, k: nat): Pool {
    if k == 0 then p else Taken(TakenMany(p, k - 1))
  }

  /** Page 0 of a pool based at address 0 is taken, but the caller sees a null pointer. */
  predicate ZeroPageFree(p: Pool, base: u64) {
    base == 0 && 0 in p.Available()
  }

  predicate ReturnsNull(p: Pool, base: u64) {
    p.Available() == {} || ZeroPageFree(p, base)
  }

  /** The next k calls of alloc_page all return a page. */
  predicate Grants(p: Pool, base: u64, k: nat) {
    k == 0 || (k <= |p.Available()| && !ZeroPageFree(p, base))
  }

  lemma TakenIs(p: Pool, base: u64)
    ensures p.Available() == {} <==> p.Lowest(0) == -1
    ensures p.Available() == {} ==> Taken(p) == p
    ensures p.Available() != {} ==>
              && p.Lowest(0) >= 0
              && p.Lowest(0) in p.Available()
              && Taken(p).Available() == p.Available() - {p.Lowest(0) as nat}
              && |Taken(p).Available()| == |p.Available()| - 1
    ensures ReturnsNull(p, base) <==> (p.Lowest(0) == -1 || PageAt(base, p.Lowest(0)) == 0)
  {
    if p.Lowest(0) == -1 {
      assert p.Available() == {};
    } else {
      var low: nat := p.Lowest(0);
      assert low in p.Available();
      assert Taken(p).Available() == p.Available() - {low};
    }
  }

  /** k calls of alloc_page take k pages, or all when there are fewer. */
  lemma {:induction false} TakenManyIs(p: Pool, base: u64, k: nat)
    ensures |TakenMany(p, k).Available()| == |p.Available()| - Min(k, |p.Available()|)
    ensures TakenMany(p, k).Available() <= p.Available()
    ensures ZeroPageFree(TakenMany(p, k), base) ==> ZeroPageFree(p, base)
  {
    hide Taken, Pool.Available, Pool.Lowest;
    if k != 0 {
      TakenManyIs(p, base, k - 1);
      TakenIs(TakenMany(p, k - 1), base);
      AvailableCount(TakenMany(p, k - 1));
    }
  }

  lemma AvailableCount(p: Pool)
    ensures |p.Available()| == 0 <==> p.Available() == {}
  {}

  lemma {:induction false} TakenManyAdd(p: Pool, j: nat, k: nat)
    ensures TakenMany(TakenMany(p, j), k) == TakenMany(p, j + k)
  {
    if k != 0 {
      TakenManyAdd(p, j, k - 1);
    }
  }

  /** Calls of an exhausted allocator change nothing. */
  lemma {:induction false} TakenNothing(p: Pool, base: u64, k: nat)
    requires p.Available() == {}
    ensures TakenMany(p, k) == p
  {
    if k != 0 {
      TakenNothing(p, base, k - 1);
      TakenIs(p, base);
    }
  }

  lemma GrantsStep(p: Pool, base: u64, k: nat)
    ensures ReturnsNull(p, base) ==> !Grants(p, base, k + 1)
    ensures !ReturnsNull(p, base) ==> (Grants(p, base, k + 1) <==> Grants(Taken(p), base, k))
    ensures !ZeroPageFree(Taken(p), base)
  {
    TakenIs(p, base);
  }
}
