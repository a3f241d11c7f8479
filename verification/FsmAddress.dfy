/** Addresses in the tree of free space map pages, and the numbers of its pages. */
module FsmAddresses {
  import opened Powers
  import opened Wrappers

  /** Node number within a level; level 0 holds the leaves. */
  datatype FsmAddress = FsmAddress(nodeNumber: nat, level: nat)

  datatype AddressError = InvalidParentTraversal | InvalidChildTraversal | CorruptedState

  const I32_MAX := 0x7fff_ffff

  /** The value of an unbounded count cast to 32 bits. */
  function AsI32(n: nat): int {
    var m := n % 0x1_0000_0000;
    if m > I32_MAX then m - 0x1_0000_0000 else m
  }

  /** The number of 32 bits with the same remainder. */
  lemma AsI32Is(n: nat)
    ensures -0x8000_0000 <= AsI32(n) < 0x8000_0000 && (AsI32(n) - n) % 0x1_0000_0000 == 0
  {
  }

  // -------- walking between levels --------

  function Parent(slots: nat, rootLevel: nat, a: FsmAddress): Result<(FsmAddress, nat), AddressError>
    requires slots > 0
  {
    if a.level == rootLevel then Err(InvalidParentTraversal)
    else Ok((FsmAddress(a.nodeNumber / slots, a.level + 1), a.nodeNumber % slots))
  }

  function Child(slots: nat, a: FsmAddress, slot: nat): Result<FsmAddress, AddressError> {
    if a.level == 0 then Err(InvalidChildTraversal)
    else Ok(FsmAddress(a.nodeNumber * slots + slot, a.level - 1))
  }

  function HeapPageToAddress(slots: nat, pageId: int): Result<(FsmAddress, nat), AddressError>
    requires slots > 0
  {
    var index := pageId - 1;
    if index < 0 then Err(CorruptedState)
    else
      var node := index / slots;
      Split(index, slots);
      Ok((FsmAddress(node, 0), index - node * slots))
  }

  function AddressToHeapPage(slots: nat, a: FsmAddress, slot: nat): Result<int, AddressError> {
    if a.level > 0 then Err(CorruptedState)
    else Ok(AsI32(a.nodeNumber * slots + slot) + 1)
  }

  /** Division named, so that a proof can keep it folded. */
  function Quot(n: nat, s: nat): nat
    requires s > 0
  {
    n / s
  }

  function Rem(n: nat, s: nat): nat
    requires s > 0
  {
    n % s
  }

  lemma SplitNamed(n: nat, s: nat)
    requires s > 0
    ensures n == Quot(n, s) * s + Rem(n, s) && Rem(n, s) < s
    ensures n > 0 ==> Rem(n, s) < n || Quot(n, s) == 0
  {
    Split(n, s);
  }

  lemma Split(n: nat, s: nat)
    requires s > 0
    ensures n == (n / s) * s + n % s && 0 <= n - (n / s) * s < s
  {
  }

  lemma DivUnique(q: nat, r: nat, s: nat)
    requires r < s
    ensures (q * s + r) / s == q && (q * s + r) % s == r
  {
    var n := q * s + r;
    Split(n, s);
    if n / s > q {
      Grow(n / s, q + 1, s);
      Distribute(s, q, 1);
    } else if n / s < q {
      Grow(q, n / s + 1, s);
      Distribute(s, n / s, 1);
    }
  }

  lemma Grow(a: nat, b: nat, m: nat)
    requires a >= b
    ensures a * m >= b * m
  {
  }

  /** Going to a child and back gives the page and the slot, and the other way round. */
  lemma ParentUndoesChild(slots: nat, rootLevel: nat, a: FsmAddress, slot: nat)
    requires slot < slots && 0 < a.level <= rootLevel
    ensures Child(slots, a, slot).Ok?
    ensures Parent(slots, rootLevel, Child(slots, a, slot).value) == Ok((a, slot))
  {
    DivUnique(a.nodeNumber, slot, slots);
  }

  lemma ChildUndoesParent(slots: nat, rootLevel: nat, a: FsmAddress)
    requires slots > 0 && a.level < rootLevel
    ensures Parent(slots, rootLevel, a).Ok?
    ensures var (p, slot) := Parent(slots, rootLevel, a).value;
            slot < slots && Child(slots, p, slot) == Ok(a)
  {
    Split(a.nodeNumber, slots);
  }

  /** A heap page id survives the way to its slot and back. */
  lemma HeapPageRoundTrip(slots: nat, pageId: int)
    requires slots > 0 && 1 <= pageId <= I32_MAX
    ensures HeapPageToAddress(slots, pageId).Ok?
    ensures var (a, slot) := HeapPageToAddress(slots, pageId).value;
            && a.level == 0 && slot < slots && a.nodeNumber * slots + slot + 1 == pageId
            && AddressToHeapPage(slots, a, slot) == Ok(pageId)
  {
    Split(pageId - 1, slots);
  }

  lemma SlotRoundTrip(slots: nat, a: FsmAddress, slot: nat)
    requires slot < slots && a.level == 0 && a.nodeNumber * slots + slot < I32_MAX
    ensures AddressToHeapPage(slots, a, slot).Ok?
    ensures HeapPageToAddress(slots, AddressToHeapPage(slots, a, slot).value) == Ok((a, slot))
  {
    DivUnique(a.nodeNumber, slot, slots);
  }

  // -------- page numbers --------

  /** The number of pages of a subtree whose top is at a level. */
  function Size(slots: nat, level: nat): nat { if level == 0 then 1 else 1 + slots * Size(slots, level - 1) }

  /** The pages that come before n's subtree, or lie above it, on the `up` levels over n. */
  function Over(slots: nat, n: nat, up: nat): nat
    requires slots > 0
    decreases up
  {
    if up == 0 then 0 else n / slots + 1 + Over(slots, n / slots, up - 1)
  }

  /** The number of a page: its own subtree's forerunners on its level, those above, and itself. */
  function PageId(slots: nat, depth: nat, a: FsmAddress): nat
    requires slots > 0 && a.level < depth
  {
    1 + a.nodeNumber * Size(slots, a.level) + Over(slots, a.nodeNumber, depth - 1 - a.level)
  }

  /** The count the loop makes, level by level from the first leaf below the page. */
  function CountFrom(slots: nat, leaf: nat, levels: nat): nat
    requires slots > 0
    decreases levels
  {
    if levels == 0 then 0 else leaf + 1 + CountFrom(slots, leaf / slots, levels - 1)
  }

  /** The closed form is what the counting loops compute. */
  lemma {:induction false} CountIsPageId(slots: nat, depth: nat, n: nat, level: nat)
    requires slots > 0 && level < depth
    ensures CountFrom(slots, n * Pow(slots, level), depth) == PageId(slots, depth, FsmAddress(n, level)) + level
    decreases level
  {
    if level == 0 {
      assert n * Pow(slots, 0) == n;
      CountOver(slots, n, depth);
    } else {
      var below := n * Pow(slots, level);
      var above := n * Pow(slots, level - 1);
      assert below == above * slots by { Regroup(n, slots, Pow(slots, level - 1)); }
      DivUnique(above, 0, slots);
      CountIsPageId(slots, depth - 1, n, level - 1);
      SizeUnrolls(slots, n, level);
    }
  }

  lemma Regroup(n: nat, s: nat, p: nat)
    ensures n * (s * p) == (n * p) * s
  {
  }

  lemma {:induction false} CountOver(slots: nat, n: nat, depth: nat)
    requires slots > 0 && depth > 0
    ensures CountFrom(slots, n, depth) == n + 1 + Over(slots, n, depth - 1)
    decreases depth
  {
    if depth > 1 { CountOver(slots, n / slots, depth - 1); }
  }

  /** One more level below n adds the children of its forerunners. */
  lemma {:induction false} SizeUnrolls(slots: nat, n: nat, level: nat)
    requires slots > 0 && level > 0
    ensures n * Size(slots, level) == n * Size(slots, level - 1) + n * Pow(slots, level)
    decreases level
  {
    var s1 := Size(slots, level - 1);
    if level == 1 {
      assert Size(slots, 1) == 1 + slots;
      assert Pow(slots, 1) == slots * Pow(slots, 0) == slots;
      Distribute(n, 1, slots);
    } else {
      SizeGap(slots, level);
      Distribute(n, s1, Pow(slots, level));
    }
  }

  lemma {:induction false} SizeGap(slots: nat, level: nat)
    requires level > 0
    ensures Size(slots, level) == Size(slots, level - 1) + Pow(slots, level)
    decreases level
  {
    if level == 1 {
      assert Size(slots, 1) == 1 + slots * Size(slots, 0);
      assert Pow(slots, 1) == slots * Pow(slots, 0);
    } else {
      SizeGap(slots, level - 1);
      Distribute(slots, Size(slots, level - 2), Pow(slots, level - 1));
    }
  }

  lemma Distribute(n: nat, a: nat, b: nat)
    ensures n * (a + b) == n * a + n * b
  {
  }

  /** The code's way to the number of a page. */
  method LogicalAddressToPageId(slots: nat, depth: nat, a: FsmAddress) returns (id: int)
    requires slots > 0 && a.level < depth
    ensures id == AsI32(PageId(slots, depth, a))
  {
    var leafNumber: nat := a.nodeNumber;
    var l := 0;
    while l < a.level
      invariant l <= a.level && leafNumber == a.nodeNumber * Pow(slots, l)
    {
      Regroup(a.nodeNumber, slots, Pow(slots, l));
      leafNumber := leafNumber * slots;
      l := l + 1;
    }
    ghost var first := leafNumber;
    var pages := 0;
    l := 0;
    while l < depth
      invariant l <= depth && pages + CountFrom(slots, leafNumber, depth - l) == CountFrom(slots, first, depth)
    {
      pages := pages + leafNumber + 1;
      leafNumber := leafNumber / slots;
      l := l + 1;
    }
    CountIsPageId(slots, depth, a.nodeNumber, a.level);
    pages := pages - a.level;
    id := AsI32(pages);
  }

  /** Pages are numbered in preorder: a page, then its subtrees one after the other. */
  lemma Preorder(slots: nat, depth: nat, a: FsmAddress, slot: nat)
    requires slot < slots && 0 < a.level < depth
    ensures PageId(slots, depth, FsmAddress(a.nodeNumber * slots + slot, a.level - 1))
         == PageId(slots, depth, a) + 1 + slot * Size(slots, a.level - 1)
  {
    var n, l := a.nodeNumber, a.level;
    var c := n * slots + slot;
    var below := Size(slots, l - 1);
    DivUnique(n, slot, slots);
    assert c * below == n * (slots * below) + slot * below by { Spread(n, slots, slot, below); }
    Distribute(n, 1, slots * below);
  }

  lemma Spread(n: nat, s: nat, r: nat, b: nat)
    ensures (n * s + r) * b == n * (s * b) + r * b
  {
  }

  /** A parent is numbered before its child. */
  lemma ParentComesFirst(slots: nat, depth: nat, a: FsmAddress)
    requires slots > 0 && a.level + 1 < depth
    ensures PageId(slots, depth, FsmAddress(a.nodeNumber / slots, a.level + 1)) < PageId(slots, depth, a)
  {
    hide PageId, Size;
    Split(a.nodeNumber, slots);
    Preorder(slots, depth, FsmAddress(a.nodeNumber / slots, a.level + 1), a.nodeNumber % slots);
  }

  // -------- the inverse --------

  /** The page `rest` positions into the subtree of (level, node). */
  function WalkTo(slots: nat, level: nat, node: nat, rest: nat): FsmAddress
    requires rest < Size(slots, level)
    decreases level
  {
    if rest == 0 || level == 0 then FsmAddress(node, level)
    else
      var below := Size(slots, level - 1);
      SizePositive(slots, level - 1);
      SplitNamed(rest - 1, below);
      WalkTo(slots, level - 1, node * slots + Quot(rest - 1, below), Rem(rest - 1, below))
  }

  lemma {:induction false} SizePositive(slots: nat, level: nat)
    ensures Size(slots, level) >= 1
  {
    if level > 0 { SizePositive(slots, level - 1); }
  }

  function Locate(slots: nat, depth: nat, id: nat): FsmAddress
    requires depth > 0 && id > 0
  {
    SizePositive(slots, depth - 1);
    var whole := Size(slots, depth - 1);
    Split(id - 1, whole);
    WalkTo(slots, depth - 1, (id - 1) / whole, (id - 1) % whole)
  }

  /** Walking `rest` positions into a subtree leads to the page numbered `rest` later. */
  lemma {:induction false} WalkAdds(slots: nat, depth: nat, level: nat, node: nat, rest: nat)
    requires slots > 0 && level < depth && rest < Size(slots, level)
    ensures var a := WalkTo(slots, level, node, rest);
            a.level < depth && PageId(slots, depth, a) == PageId(slots, depth, FsmAddress(node, level)) + rest
    decreases level
  {
    hide PageId, Quot, Rem;
    if rest > 0 && level > 0 {
      var below := Size(slots, level - 1);
      SizePositive(slots, level - 1);
      SplitNamed(rest - 1, below);
      var s := Quot(rest - 1, below);
      QuotientSmall(rest - 1, below, slots);
      WalkAdds(slots, depth, level - 1, node * slots + s, Rem(rest - 1, below));
      Preorder(slots, depth, FsmAddress(node, level), s);
    }
  }

  lemma QuotientSmall(n: nat, b: nat, s: nat)
    requires b > 0 && n < s * b
    ensures Quot(n, b) < s
  {
    Split(n, b);
    if n / b >= s { Grow(n / b, s, b); }
  }

  /** Every positive number is the number of a page. */
  lemma EveryIdIsAPage(slots: nat, depth: nat, id: nat)
    requires slots > 0 && depth > 0 && id > 0
    ensures var a := Locate(slots, depth, id);
            a.level < depth && PageId(slots, depth, a) == id
  {
    SizePositive(slots, depth - 1);
    var whole := Size(slots, depth - 1);
    Split(id - 1, whole);
    WalkAdds(slots, depth, depth - 1, (id - 1) / whole, (id - 1) % whole);
  }

  lemma {:induction false} LocateFinds(slots: nat, depth: nat, n: nat, level: nat, rest: nat)
    requires slots > 0 && level < depth && rest < Size(slots, level)
    ensures Locate(slots, depth, PageId(slots, depth, FsmAddress(n, level)) + rest) == WalkTo(slots, level, n, rest)
    decreases depth - level
  {
    SizePositive(slots, depth - 1);
    if level == depth - 1 {
      var whole := Size(slots, level);
      DivUnique(n, rest, whole);
    } else {
      var p, s := n / slots, n % slots;
      var below := Size(slots, level);
      SizePositive(slots, level);
      Split(n, slots);
      Preorder(slots, depth, FsmAddress(p, level + 1), s);
      var further := 1 + s * below + rest;
      Room(s, slots, below, rest);
      LocateFinds(slots, depth, p, level + 1, further);
      DivUnique(s, rest, below);
    }
  }

  lemma Room(s: nat, slots: nat, below: nat, rest: nat)
    requires s < slots && rest < below
    ensures s * below + rest < slots * below
  {
    Grow(slots, s + 1, below);
    assert (s + 1) * below == s * below + below;
  }

  /** Different pages have different numbers: the number leads back to the page. */
  lemma LocateUndoesPageId(slots: nat, depth: nat, a: FsmAddress)
    requires slots > 0 && a.level < depth
    ensures Locate(slots, depth, PageId(slots, depth, a)) == a
  {
    SizePositive(slots, a.level);
    LocateFinds(slots, depth, a.nodeNumber, a.level, 0);
  }

  // -------- capacity --------

  /** The ancestor of a page on the root level. */
  function RootAncestor(slots: nat, n: nat, up: nat): nat
    requires slots > 0
    decreases up
  {
    if up == 0 then n else RootAncestor(slots, n / slots, up - 1)
  }

  lemma {:induction false} RootAncestorIsZero(slots: nat, n: nat, up: nat)
    requires slots > 0
    ensures RootAncestor(slots, n, up) == 0 <==> n < Pow(slots, up)
    decreases up
  {
    if up > 0 {
      var p := Pow(slots, up - 1);
      RootAncestorIsZero(slots, n / slots, up - 1);
      Split(n, slots);
      if n / slots < p { Room(n / slots, p, slots, n % slots); } else { Grow(n / slots, p, slots); }
      assert Pow(slots, up) == slots * p == p * slots;
    }
  }

  /** A heap page hangs below root node 0 exactly when its id is at most slots^depth. */
  lemma HeapPageUnderRoot(slots: nat, depth: nat, pageId: int)
    requires slots > 0 && depth > 0 && pageId >= 1
    ensures RootAncestor(slots, (pageId - 1) / slots, depth - 1) == 0 <==> pageId <= Pow(slots, depth)
  {
    var n := (pageId - 1) / slots;
    RootAncestorIsZero(slots, n, depth - 1);
    Split(pageId - 1, slots);
    var p := Pow(slots, depth - 1);
    if n < p { Room(n, p, slots, (pageId - 1) % slots); } else { Grow(n, p, slots); }
    assert Pow(slots, depth) == slots * p == p * slots;
  }

  predicate FsmPageSize(p: int) { p in {256, 512, 1024, 2048, 4096, 8192, 16384, 32768} }

  function SlotsOf(pageSize: int): int { pageSize / 2 - 20 }
  function DepthOf(pageSize: int): int { if pageSize >= 4096 then 3 else 4 }

  /** The heap page's slot lies below root node 0. */
  predicate Placed(pageSize: int, id: int)
    requires FsmPageSize(pageSize) && id >= 1
  {
    var s := SlotsOf(pageSize);
    RootAncestor(s, (id - 1) / s, DepthOf(pageSize) - 1) == 0
  }

  /** From 512 bytes on every 31-bit heap page id finds its place below root node 0; with 256 bytes some do not. */
  lemma EveryHeapPageFits(pageSize: int)
    requires FsmPageSize(pageSize)
    ensures (forall id :: 1 <= id <= I32_MAX ==> Placed(pageSize, id)) <==> pageSize >= 512
  {
    var s, d := SlotsOf(pageSize), DepthOf(pageSize);
    PowBounds(pageSize);
    forall id | 1 <= id <= I32_MAX ensures Placed(pageSize, id) <==> id <= Pow(s, d) {
      HeapPageUnderRoot(s, d, id);
    }
    assert !Placed(pageSize, I32_MAX) <==> I32_MAX > Pow(s, d);
  }

  lemma PowValue(s: nat, d: nat)
    requires d == 3 || d == 4
    ensures Pow(s, 3) == s * (s * s) && Pow(s, 4) == s * (s * (s * s))
    ensures s == 108 && d == 4 ==> Pow(s, d) == 136048896
  {
    assert Pow(s, 1) == s * Pow(s, 0) == s;
    assert Pow(s, 2) == s * Pow(s, 1);
    assert Pow(s, 3) == s * Pow(s, 2);
    assert Pow(s, 4) == s * Pow(s, 3);
  }

  lemma PowBounds(pageSize: int)
    requires FsmPageSize(pageSize)
    ensures pageSize >= 512 <==> Pow(SlotsOf(pageSize), DepthOf(pageSize)) >= I32_MAX
  {
    var s := SlotsOf(pageSize);
    PowValue(s, DepthOf(pageSize));
    if pageSize >= 4096 {
      Times(s, s, 2028, 2028);
      Times(s, s * s, 2028, 2028 * 2028);
    } else if pageSize >= 512 {
      Times(s, s, 236, 236);
      Times(s, s * s, 236, 236 * 236);
      Times(s, s * (s * s), 236, 236 * (236 * 236));
    }
  }

  lemma Times(a: nat, b: nat, c: nat, d: nat)
    requires a >= c && b >= d
    ensures a * b >= c * d
  {
    Grow(a, c, b);
    Grow(b, d, c);
  }

  /** Page numbers stay within 32 bits. */
  lemma {:induction false} OverSmall(slots: nat, n: nat, up: nat)
    requires slots >= 2
    ensures Over(slots, n, up) <= n + up
    decreases up
  {
    if up > 0 {
      OverSmall(slots, n / slots, up - 1);
      HalfAtMost(n, slots);
    }
  }

  lemma HalfAtMost(n: nat, s: nat)
    requires s >= 2
    ensures n / s + n / s <= n
  {
    Split(n, s);
    Grow(s, 2, n / s);
  }

  lemma PageIdFits(slots: nat, depth: nat, pageId: int)
    requires slots >= 108 && 0 < depth <= 4 && 1 <= pageId <= I32_MAX
    ensures PageId(slots, depth, FsmAddress((pageId - 1) / slots, 0)) < I32_MAX
  {
    var n := (pageId - 1) / slots;
    OverSmall(slots, n, depth - 1);
    NodeSmall(pageId - 1, slots);
    assert n * Size(slots, 0) == n;
  }

  lemma NodeSmall(n: nat, s: nat)
    requires s >= 108
    ensures 108 * (n / s) <= n
  {
    Split(n, s);
    Grow(s, 108, n / s);
  }

  lemma SmallIsItself(n: nat)
    requires n <= I32_MAX
    ensures AsI32(n) == n
  {
  }
}
