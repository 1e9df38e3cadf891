/** Three-level page tables in physical memory, as values: which pages form a tree, what a walk
    reads, and how the three ways of writing an entry change the translation. */
module PageTree {
  import opened Word64
  import opened Sv39
  import Page

  type Table = t: seq<Pte> | |t| == 512 witness seq(512, _ => 0)

  predicate IsEmpty(t: Table) {
    forall i :: 0 <= i < 512 ==> t[i] == 0
  }

  /** The physical memory that page tables can live in, by page address. */
  type Frames = map<u64, Table>

  function Entry(frames: Frames, table: u64, i: nat): Pte
    requires i < 512
  {
    if table in frames then frames[table][i] else 0
  }

  function WithEntry(frames: Frames, table: u64, i: nat, pte: Pte): Frames
    requires table in frames && i < 512
  {
    frames[table := frames[table][i := pte]]
  }

  // ---- the software walk

  /** virt_to_phys from a table of the given level on; -1 is below the last level. */
  function WalkFrom(frames: Frames, table: u64, va: u64, level: int): u64
    requires -1 <= level <= 2
    decreases level + 1
  {
    if level < 0 then 0
    else
      var pte := Entry(frames, table, VpnIndex(va, level));
      if !PteValid(pte) then 0
      else if PteLeaf(pte) then Translated(pte, va)
      else WalkFrom(frames, PteToPa(pte), va, level - 1)
  }

  function Translated(pte: Pte, va: u64): (pa: u64)
    ensures pa == PteToPa(pte) + va % 0x1000
  {
    PteToPaAligned(pte);
    PageSumFits(PteToPa(pte), va % 0x1000);
    PteToPa(pte) + Page.PageOffset(va)
  }

  lemma PageSumFits(base: u64, offset: nat)
    requires base % 0x1000 == 0 && offset < 0x1000
    ensures base + offset < WORD_LIMIT
  {}

  // ---- the shape of the tables in memory

  /** The place of a table: the root of an address space, or the table below an entry. */
  datatype Node = Top(root: u64) | Mid(root: u64, i2: nat) | Bottom(root: u64, i2: nat, i1: nat)

  /** Every table in use and the page that holds it. */
  type Shape = map<Node, u64>

  function Child(n: Node, i: nat): Node
    requires !n.Bottom?
  {
    if n.Top? then Mid(n.root, i) else Bottom(n.root, n.i2, i)
  }

  /** The table that a walk for page v of address space `root` reads at a level. */
  function NodeAt(root: u64, v: nat, level: nat): Node
    requires level <= 2
  {
    if level == 2 then Top(root)
    else if level == 1 then Mid(root, VpnDigit(v, 2))
    else Bottom(root, VpnDigit(v, 2), VpnDigit(v, 1))
  }

  function Pointer(shape: Shape, n: Node): Pte {
    if n in shape then MakePte(shape[n], PTE_V) else 0
  }

  ghost predicate Placed(frames: Frames, shape: Shape) {
    forall n :: n in shape ==>
                  && shape[n] in frames
                  && shape[n] != 0
                  && shape[n] % 0x1000 == 0
                  && (n.Top? ==> shape[n] == n.root)
  }

  /** No page holds two tables, so no table is reached by two paths. */
  ghost predicate Separate(shape: Shape) {
    forall m, n :: m in shape && n in shape && shape[m] == shape[n] ==> m == n
  }

  /** Every table hangs below a table of its own address space. */
  ghost predicate Rooted(shape: Shape) {
    forall n :: n in shape ==>
                  match n
                  case Top(r) => true
                  case Mid(r, i) => i < 512 && Top(r) in shape
                  case Bottom(r, i, j) => j < 512 && Mid(r, i) in shape
  }

  /** Upper entries are zero or V-only pointers to the table of the shape. */
  ghost predicate Linked(frames: Frames, shape: Shape) {
    forall n, i: nat :: n in shape && !n.Bottom? && i < 512 ==>
                          Entry(frames, shape[n], i) == Pointer(shape, Child(n, i))
  }

  /** Level-0 entries are zero or valid. */
  ghost predicate LeavesValid(frames: Frames, shape: Shape) {
    forall n, i: nat :: n in shape && n.Bottom? && i < 512 ==>
                          Entry(frames, shape[n], i) == 0 || PteValid(Entry(frames, shape[n], i))
  }

  ghost predicate Tree(frames: Frames, shape: Shape) {
    Placed(frames, shape) && Separate(shape) && Rooted(shape) && Linked(frames, shape) && LeavesValid(frames, shape)
  }

  // ---- the abstract map

  /** The level-0 entry for a page of an address space, or 0 when the tables do not reach it. */
  function LeafEntry(frames: Frames, shape: Shape, root: u64, v: nat): Pte {
    var n := NodeAt(root, v, 0);
    if n in shape then Entry(frames, shape[n], VpnDigit(v, 0)) else 0
  }

  /** The address space as a plain partial map from virtual page numbers to entries. */
  function View(frames: Frames, shape: Shape, root: u64): map<nat, Pte> {
    map v: nat | v < VPN_LIMIT && LeafEntry(frames, shape, root, v) != 0 :: LeafEntry(frames, shape, root, v)
  }

  /** Translation by the abstract map. */
  function Lookup(view: map<nat, Pte>, va: u64): u64 {
    if Vpn(va) in view && PteLeaf(view[Vpn(va)]) then Translated(view[Vpn(va)], va) else 0
  }

  /** The tables missing on the path to a page. */
  function Missing(shape: Shape, root: u64, v: nat): nat {
    Digit(NodeAt(root, v, 1) !in shape) + Digit(NodeAt(root, v, 0) !in shape)
  }

  /** One step of a walk: the upper entry is valid exactly when the next table exists, it is then a
      pointer to that table and never a leaf. */
  lemma StepDown(frames: Frames, shape: Shape, root: u64, v: nat, level: nat)
    requires Tree(frames, shape) && 1 <= level <= 2 && NodeAt(root, v, level) in shape
    ensures var pte := Entry(frames, shape[NodeAt(root, v, level)], VpnDigit(v, level));
            var next := NodeAt(root, v, level - 1);
            && !PteLeaf(pte)
            && (PteValid(pte) <==> next in shape)
            && (next in shape ==> PteToPa(pte) == shape[next])
            && (next !in shape ==> pte == 0)
  {
    hide LeavesValid, Separate, Rooted, MakePte, PteToPa, PteValid, PteLeaf;
    var n := NodeAt(root, v, level);
    var next := NodeAt(root, v, level - 1);
    assert next == Child(n, VpnDigit(v, level));
    ZeroPte();
    if next in shape {
      assert Page.IsPageAligned(shape[next]);
      PointerPte(shape[next]);
    }
  }

  /** The walk through memory computes the lookup in the abstract map. */
  lemma WalkIsLookup(frames: Frames, shape: Shape, root: u64, va: u64)
    requires Tree(frames, shape) && Top(root) in shape
    ensures WalkFrom(frames, root, va, 2) == Lookup(View(frames, shape, root), va)
  {
    hide Tree, MakePte, PteToPa, PteValid, PteLeaf, Vpn, VpnDigit;
    var v := Vpn(va);
    StepDown(frames, shape, root, v, 2);
    TopIsRoot(frames, shape, root, v);
    if NodeAt(root, v, 1) in shape {
      StepDown(frames, shape, root, v, 1);
      if NodeAt(root, v, 0) in shape {
        BottomEntry(frames, shape, root, v);
        assert WalkFrom(frames, shape[NodeAt(root, v, 0)], va, 0) == Lookup(View(frames, shape, root), va);
      }
    } else {
      NoOrphan(frames, shape, root, v);
    }
  }

  lemma TopIsRoot(frames: Frames, shape: Shape, root: u64, v: nat)
    requires Tree(frames, shape) && Top(root) in shape
    ensures NodeAt(root, v, 2) == Top(root) && shape[Top(root)] == root
  {}

  lemma NoOrphan(frames: Frames, shape: Shape, root: u64, v: nat)
    requires Tree(frames, shape)
    ensures NodeAt(root, v, 0) in shape ==> NodeAt(root, v, 1) in shape
    ensures NodeAt(root, v, 1) in shape ==> NodeAt(root, v, 2) in shape
  {}

  lemma BottomEntry(frames: Frames, shape: Shape, root: u64, v: nat)
    requires Tree(frames, shape) && NodeAt(root, v, 0) in shape
    ensures var pte := Entry(frames, shape[NodeAt(root, v, 0)], VpnDigit(v, 0));
            && (PteValid(pte) <==> pte != 0)
            && LeafEntry(frames, shape, root, v) == pte
  {
    ZeroPte();
  }

  // ---- a freshly zeroed page becomes an empty address space

  lemma AddRoot(frames: Frames, shape: Shape, page: u64, empty: Table)
    requires Tree(frames, shape)
    requires page != 0 && page % 0x1000 == 0 && page !in shape.Values && IsEmpty(empty)
    ensures Tree(frames[page := empty], shape[Top(page) := page])
    ensures Top(page) !in shape
    ensures forall i: nat :: i < 512 ==> Child(Top(page), i) !in shape
  {
    hide MakePte, PteValid;
    var f, s := frames[page := empty], shape[Top(page) := page];
    assert forall n :: n in shape ==> shape[n] != page;
    assert Top(page) !in shape;
    forall n | n in shape
      ensures shape[n] != page && n != Top(page) && s[n] == shape[n]
    {}
    assert Placed(f, s) && Separate(s) && Rooted(s);
    assert LeavesValid(f, s) by {
      forall n, i: nat | n in s && n.Bottom? && i < 512
        ensures Entry(f, s[n], i) == 0 || PteValid(Entry(f, s[n], i))
      {
        assert Entry(frames, shape[n], i) == Entry(f, s[n], i);
      }
    }
    forall n, i: nat | n in s && !n.Bottom? && i < 512
      ensures Entry(f, s[n], i) == Pointer(s, Child(n, i))
    {
      assert Child(n, i) != Top(page);
      if n == Top(page) {
        assert Child(n, i) !in shape;
      } else {
        assert Entry(frames, shape[n], i) == Pointer(shape, Child(n, i));
      }
    }
  }

  lemma AddRootView(frames: Frames, shape: Shape, page: u64, empty: Table, root: u64)
    requires Tree(frames, shape)
    requires page != 0 && page % 0x1000 == 0 && page !in shape.Values && IsEmpty(empty)
    ensures View(frames[page := empty], shape[Top(page) := page], root) == View(frames, shape, root)
    ensures root == page ==> View(frames, shape, root) == map[]
  {
    hide MakePte, PteValid, VpnDigit, Linked, LeavesValid, Separate, View;
    var f, s := frames[page := empty], shape[Top(page) := page];
    assert forall n :: n in shape ==> shape[n] != page;
    forall v: nat | v < VPN_LIMIT
      ensures LeafEntry(f, s, root, v) == LeafEntry(frames, shape, root, v)
      ensures root == page ==> LeafEntry(frames, shape, root, v) == 0
    {
      NoOrphan(frames, shape, root, v);
      if NodeAt(root, v, 0) in shape {
        TopIsRoot(frames, shape, root, v);
      }
    }
    SameView(f, s, frames, shape, root);
    if root == page {
      NoView(frames, shape, root);
    }
  }

  lemma SameView(frames: Frames, shape: Shape, frames': Frames, shape': Shape, root: u64)
    requires forall v: nat :: v < VPN_LIMIT ==> LeafEntry(frames, shape, root, v) == LeafEntry(frames', shape', root, v)
    ensures View(frames, shape, root) == View(frames', shape', root)
  {
    hide LeafEntry;
  }

  lemma NoView(frames: Frames, shape: Shape, root: u64)
    requires forall v: nat :: v < VPN_LIMIT ==> LeafEntry(frames, shape, root, v) == 0
    ensures View(frames, shape, root) == map[]
  {
    hide LeafEntry;
  }

  // ---- an empty address space becomes a table below an entry

  /** The shape after the table at `child`, until now an empty root, is linked below entry i of n. */
  function LinkedShape(shape: Shape, n: Node, i: nat, child: u64): Shape
    requires !n.Bottom?
  {
    (shape - {Top(child)})[Child(n, i) := child]
  }

  /** The table at `child` is an empty root that can be linked below entry i of n. */
  ghost predicate CanLink(frames: Frames, shape: Shape, n: Node, i: nat, child: u64) {
    && n in shape && !n.Bottom? && i < 512
    && n != Top(child)
    && Top(child) in shape
    && Child(n, i) !in shape
    && child in frames && IsEmpty(frames[child])
  }

  lemma NoChildren(frames: Frames, shape: Shape, n: Node, i: nat, child: u64)
    requires Tree(frames, shape) && CanLink(frames, shape, n, i, child)
    ensures forall j: nat :: j < 512 ==> Mid(child, j) !in shape
    ensures forall j: nat, k: nat :: Bottom(child, j, k) !in shape
    ensures n.root != child
    ensures shape[n] != child
  {
    hide MakePte, PteToPa, PteValid, PteLeaf;
    assert shape[Top(child)] == child;
    forall j: nat | j < 512
      ensures Mid(child, j) !in shape
    {
      assert Entry(frames, shape[Top(child)], j) == Pointer(shape, Child(Top(child), j));
      if Mid(child, j) in shape {
        PointerPte(shape[Mid(child, j)]);
      }
    }
    forall j: nat, k: nat
      ensures Bottom(child, j, k) !in shape
    {
      assert Bottom(child, j, k) in shape ==> Mid(child, j) in shape && j < 512;
    }
  }

  lemma LinkTable(frames: Frames, shape: Shape, n: Node, i: nat, child: u64)
    requires Tree(frames, shape) && CanLink(frames, shape, n, i, child)
    ensures Tree(WithEntry(frames, shape[n], i, MakePte(child, PTE_V)), LinkedShape(shape, n, i, child))
  {
    hide Placed, Separate, Rooted, Linked, LeavesValid, WithEntry, LinkedShape;
    LinkedPlaced(frames, shape, n, i, child);
    LinkedPointers(frames, shape, n, i, child);
    LinkedLeaves(frames, shape, n, i, child);
  }

  lemma LinkedPointers(frames: Frames, shape: Shape, n: Node, i: nat, child: u64)
    requires Tree(frames, shape) && CanLink(frames, shape, n, i, child)
    ensures Linked(WithEntry(frames, shape[n], i, MakePte(child, PTE_V)), LinkedShape(shape, n, i, child))
  {
    hide MakePte, PteToPa, PteValid, PteLeaf, LeavesValid;
    NoChildren(frames, shape, n, i, child);
    var f, s := WithEntry(frames, shape[n], i, MakePte(child, PTE_V)), LinkedShape(shape, n, i, child);
    var below := Child(n, i);
    forall m, j: nat | m in s && !m.Bottom? && j < 512
      ensures Entry(f, s[m], j) == Pointer(s, Child(m, j))
    {
      if m == below {
        assert Child(m, j) !in shape;
      } else {
        assert Entry(frames, shape[m], j) == Pointer(shape, Child(m, j));
        assert m != n ==> shape[m] != shape[n];
        assert m != n || j != i ==> Child(m, j) != below;
        assert Child(m, j) != Top(child);
      }
    }
  }

  lemma LinkedLeaves(frames: Frames, shape: Shape, n: Node, i: nat, child: u64)
    requires Tree(frames, shape) && CanLink(frames, shape, n, i, child)
    ensures LeavesValid(WithEntry(frames, shape[n], i, MakePte(child, PTE_V)), LinkedShape(shape, n, i, child))
  {
    hide MakePte, PteToPa, PteValid, PteLeaf, Linked;
    NoChildren(frames, shape, n, i, child);
    var f, s := WithEntry(frames, shape[n], i, MakePte(child, PTE_V)), LinkedShape(shape, n, i, child);
    forall m, j: nat | m in s && m.Bottom? && j < 512
      ensures Entry(f, s[m], j) == 0 || PteValid(Entry(f, s[m], j))
    {
      if m != Child(n, i) {
        assert shape[m] != shape[n];
        assert Entry(frames, shape[m], j) == 0 || PteValid(Entry(frames, shape[m], j));
      }
    }
  }

  lemma LinkedPlaced(frames: Frames, shape: Shape, n: Node, i: nat, child: u64)
    requires Tree(frames, shape) && CanLink(frames, shape, n, i, child)
    ensures var s := LinkedShape(shape, n, i, child);
            Placed(WithEntry(frames, shape[n], i, MakePte(child, PTE_V)), s) && Separate(s) && Rooted(s)
  {
    hide MakePte, PteToPa, PteValid, PteLeaf, Linked, LeavesValid, Separate, Rooted;
    LinkedSeparate(frames, shape, n, i, child);
    LinkedRooted(frames, shape, n, i, child);
    TopIsRoot(frames, shape, child, 0);
  }

  lemma LinkedSeparate(frames: Frames, shape: Shape, n: Node, i: nat, child: u64)
    requires Tree(frames, shape) && CanLink(frames, shape, n, i, child)
    ensures Separate(LinkedShape(shape, n, i, child))
  {
    hide MakePte, PteToPa, PteValid, PteLeaf, Linked, LeavesValid, Rooted;
    TopIsRoot(frames, shape, child, 0);
    var s := LinkedShape(shape, n, i, child);
    assert forall m :: m in shape && m != Top(child) ==> shape[m] != child;
    forall m, m' | m in s && m' in s && s[m] == s[m']
      ensures m == m'
    {}
  }

  lemma LinkedRooted(frames: Frames, shape: Shape, n: Node, i: nat, child: u64)
    requires Tree(frames, shape) && CanLink(frames, shape, n, i, child)
    ensures Rooted(LinkedShape(shape, n, i, child))
  {
    hide MakePte, PteToPa, PteValid, PteLeaf, Linked, LeavesValid, Separate, Placed;
    NoChildren(frames, shape, n, i, child);
  }

  /** Linking an empty table changes no translation. */
  lemma LinkView(frames: Frames, shape: Shape, n: Node, i: nat, child: u64, root: u64)
    requires Tree(frames, shape) && CanLink(frames, shape, n, i, child)
    ensures View(WithEntry(frames, shape[n], i, MakePte(child, PTE_V)), LinkedShape(shape, n, i, child), root)
            == View(frames, shape, root)
  {
    hide MakePte, PteToPa, PteValid, PteLeaf, VpnDigit, Linked, LeavesValid, View;
    var f, s := WithEntry(frames, shape[n], i, MakePte(child, PTE_V)), LinkedShape(shape, n, i, child);
    assert shape[Top(child)] == child;
    NoChildren(frames, shape, n, i, child);
    forall v: nat | v < VPN_LIMIT
      ensures LeafEntry(f, s, root, v) == LeafEntry(frames, shape, root, v)
    {
      var b := NodeAt(root, v, 0);
      if b in shape {
        assert shape[b] != shape[n] && b in s && s[b] == shape[b];
      } else if b == Child(n, i) {
        assert s[b] == child && f[child] == frames[child];
      } else {
        assert b !in s;
      }
    }
    SameView(f, s, frames, shape, root);
  }

  // ---- a level-0 entry is written

  lemma SetLeaf(frames: Frames, shape: Shape, n: Node, i: nat, pte: Pte)
    requires Tree(frames, shape) && n in shape && n.Bottom? && i < 512
    requires pte == 0 || PteValid(pte)
    ensures Tree(WithEntry(frames, shape[n], i, pte), shape)
  {
    hide MakePte, PteToPa, PteValid, PteLeaf;
    var f := WithEntry(frames, shape[n], i, pte);
    forall m, j: nat | m in shape && !m.Bottom? && j < 512
      ensures Entry(f, shape[m], j) == Pointer(shape, Child(m, j))
    {
      assert shape[m] != shape[n];
      assert Entry(frames, shape[m], j) == Pointer(shape, Child(m, j));
    }
    forall m, j: nat | m in shape && m.Bottom? && j < 512
      ensures Entry(f, shape[m], j) == 0 || PteValid(Entry(f, shape[m], j))
    {
      assert Entry(frames, shape[m], j) == 0 || PteValid(Entry(frames, shape[m], j));
    }
  }

  /** Writing the entry of page v changes the translation of page v of that address space only. */
  lemma SetLeafView(frames: Frames, shape: Shape, root: u64, v: nat, pte: Pte, other: u64)
    requires Tree(frames, shape) && v < VPN_LIMIT && NodeAt(root, v, 0) in shape
    ensures var f := WithEntry(frames, shape[NodeAt(root, v, 0)], VpnDigit(v, 0), pte);
            View(f, shape, other) ==
            if other != root then View(frames, shape, other)
            else if pte != 0 then View(frames, shape, root)[v := pte]
            else View(frames, shape, root) - {v}
  {
    hide LeafEntry, VpnDigit, Linked, LeavesValid, Rooted, Separate;
    var n := NodeAt(root, v, 0);
    var f := WithEntry(frames, shape[n], VpnDigit(v, 0), pte);
    forall w: nat | w < VPN_LIMIT
      ensures LeafEntry(f, shape, other, w) ==
              if other == root && w == v then pte else LeafEntry(frames, shape, other, w)
    {
      SetLeafEntry(frames, shape, root, v, pte, other, w);
    }
  }

  lemma SetLeafEntry(frames: Frames, shape: Shape, root: u64, v: nat, pte: Pte, other: u64, w: nat)
    requires Tree(frames, shape) && v < VPN_LIMIT && w < VPN_LIMIT && NodeAt(root, v, 0) in shape
    ensures var f := WithEntry(frames, shape[NodeAt(root, v, 0)], VpnDigit(v, 0), pte);
            LeafEntry(f, shape, other, w) ==
            if other == root && w == v then pte else LeafEntry(frames, shape, other, w)
  {
    hide VpnDigit, Linked, LeavesValid, Rooted;
    var n, m := NodeAt(root, v, 0), NodeAt(other, w, 0);
    if m in shape && m != n {
      assert shape[m] != shape[n];
    }
    if m == n && VpnDigit(w, 0) == VpnDigit(v, 0) {
      DigitsFixVpn(v, w);
    }
  }
}
