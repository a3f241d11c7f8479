/** The free space map: FSM pages linked into a tree of fixed depth over the slots of all heap pages. */
module FreeSpaceMap {
  import opened Bytes
  import opened Wrappers
  import opened FsmAddresses
  import opened FsmTree
  import opened PageLayout

  datatype FsmError =
    | InvalidPageLayout | Address(error: AddressError) | MissingPage | CorruptRootSlotData | CorruptedState | OutOfIds

  // -------- the pages as one tree --------

  /** What a page size fixes: 2^k - 1 inner nodes and the slots of a page, and the levels of pages. */
  datatype Layout = Layout(k: nat, slots: nat, depth: nat) {
    function Inner(): nat { Pow2(k) - 1 }

    ghost predicate Ok() { k > 0 && 0 < slots <= Pow2(k) && depth > 0 }
  }

  type Pages = map<int, seq<Byte>>

  /** The tree on the page of node n of a level; empty when there is no such page. */
  function TreeAt(l: Layout, pages: Pages, level: nat, n: nat): seq<Byte>
    requires l.Ok() && level < l.depth
  {
    var id := PageId(l.slots, l.depth, FsmAddress(n, level));
    if id in pages then pages[id] else []
  }

  function SlotOf(l: Layout, t: seq<Byte>, slot: nat): int {
    if l.Inner() + slot < |t| then t[l.Inner() + slot] else 0
  }

  /** The value of slot c of a level, counted over all its pages; 0 when the page is missing. */
  function Value(l: Layout, pages: Pages, level: nat, c: nat): int
    requires l.Ok() && level < l.depth
  {
    SlotOf(l, TreeAt(l, pages, level, Quot(c, l.slots)), Rem(c, l.slots))
  }

  /** The root value of the page of node n of a level; 0 when the page is missing. */
  function Top(l: Layout, pages: Pages, level: nat, n: nat): int
    requires l.Ok() && level < l.depth
  {
    var t := TreeAt(l, pages, level, n);
    if |t| > 0 then t[0] else 0
  }

  ghost predicate IsTree(l: Layout, t: seq<Byte>) {
    l.Ok() && |t| == l.Inner() + l.slots && MaxTree(t, l.Inner())
  }

  /** The pages are numbered without gaps and each holds a max-tree. */
  ghost predicate Trees(l: Layout, pages: Pages, nextId: int) {
    && nextId >= 1
    && (forall id :: id in pages <==> 1 <= id < nextId)
    && (forall id :: id in pages ==> IsTree(l, pages[id]))
  }

  ghost predicate Link(l: Layout, pages: Pages, level: nat, c: nat)
    requires l.Ok() && 0 < level < l.depth
  {
    Value(l, pages, level, c) <= Top(l, pages, level - 1, c)
  }

  /** An upper slot never promises more than the page below it offers, except perhaps one slot. */
  ghost predicate LinkedExcept(l: Layout, pages: Pages, level: nat, c: nat)
    requires l.Ok()
  {
    forall j: nat, d: nat :: 0 < j < l.depth && !(j == level && d == c) ==> Link(l, pages, j, d)
  }

  ghost predicate Linked(l: Layout, pages: Pages)
    requires l.Ok()
  {
    forall j: nat, d: nat :: 0 < j < l.depth ==> Link(l, pages, j, d)
  }

  /** Rewriting one page changes nothing on the others. */
  lemma OtherTreesStay(l: Layout, pages: Pages, level: nat, n: nat, t: seq<Byte>, j: nat, m: nat)
    requires l.Ok() && level < l.depth && j < l.depth
    ensures var id := PageId(l.slots, l.depth, FsmAddress(n, level));
            TreeAt(l, pages[id := t], j, m) == if j == level && m == n then t else TreeAt(l, pages, j, m)
  {
    LocateUndoesPageId(l.slots, l.depth, FsmAddress(n, level));
    LocateUndoesPageId(l.slots, l.depth, FsmAddress(m, j));
  }

  /** Setting one slot of a page. */
  ghost predicate SlotSet(l: Layout, t: seq<Byte>, u: seq<Byte>, slot: nat, v: Byte) {
    && IsTree(l, t) && IsTree(l, u) && slot < l.slots && u[0] >= v
    && u[l.Inner()..] == t[l.Inner()..][slot := v]
  }

  lemma SetSlotOf(l: Layout, t: seq<Byte>, u: seq<Byte>, slot: nat, v: Byte, other: nat)
    requires SlotSet(l, t, u, slot, v) && other < l.slots
    ensures SlotOf(l, u, other) == if other == slot then v else SlotOf(l, t, other)
  {
    var i := l.Inner();
    assert u[i..][other] == u[i + other] && t[i..][other] == t[i + other];
  }

  lemma SameSlot(c: nat, d: nat, s: nat)
    requires s > 0
    ensures Rem(c, s) < s && Rem(d, s) < s
    ensures c == d <==> Quot(c, s) == Quot(d, s) && Rem(c, s) == Rem(d, s)
  {
    Split(c, s);
    Split(d, s);
  }

  /** Setting one slot of the map changes this value and no other. */
  lemma SetChangesOne(l: Layout, pages: Pages, u: seq<Byte>, level: nat, c: nat, v: Byte, j: nat, d: nat)
    requires l.Ok() && level < l.depth && j < l.depth
    requires SlotSet(l, TreeAt(l, pages, level, Quot(c, l.slots)), u, Rem(c, l.slots), v)
    ensures var id := PageId(l.slots, l.depth, FsmAddress(Quot(c, l.slots), level));
            && Value(l, pages[id := u], j, d) == (if j == level && d == c then v else Value(l, pages, j, d))
            && (!(j == level && d == Quot(c, l.slots)) ==> Top(l, pages[id := u], j, d) == Top(l, pages, j, d))
            && Top(l, pages[id := u], level, Quot(c, l.slots)) >= v
  {
    hide TreeAt, SlotOf, PageId, IsTree, Quot, Rem, SlotSet;
    SameSlot(c, d, l.slots);
    var n, m := Quot(c, l.slots), Quot(d, l.slots);
    OtherTreesStay(l, pages, level, n, u, j, m);
    OtherTreesStay(l, pages, level, n, u, j, d);
    OtherTreesStay(l, pages, level, n, u, level, n);
    SetSlotOf(l, TreeAt(l, pages, level, n), u, Rem(c, l.slots), v, Rem(d, l.slots));
    SetTop(l, TreeAt(l, pages, level, n), u, Rem(c, l.slots), v);
  }

  lemma SetTop(l: Layout, t: seq<Byte>, u: seq<Byte>, slot: nat, v: Byte)
    requires SlotSet(l, t, u, slot, v)
    ensures |u| > 0 && u[0] >= v
  {
  }

  /** Setting a slot to no more than the page below offers moves the doubt one level up. */
  lemma SetMovesDoubtUp(l: Layout, pages: Pages, u: seq<Byte>, level: nat, c: nat, v: Byte)
    requires l.Ok() && level < l.depth
    requires SlotSet(l, TreeAt(l, pages, level, Quot(c, l.slots)), u, Rem(c, l.slots), v)
    requires LinkedExcept(l, pages, level, c)
    requires level > 0 ==> Top(l, pages, level - 1, c) >= v
    ensures var id := PageId(l.slots, l.depth, FsmAddress(Quot(c, l.slots), level));
            LinkedExcept(l, pages[id := u], level + 1, Quot(c, l.slots))
  {
    hide TreeAt, SlotOf, PageId, SlotSet, Value, Top, Quot;
    var up := Quot(c, l.slots);
    var id := PageId(l.slots, l.depth, FsmAddress(up, level));
    forall j: nat, d: nat {:trigger Link(l, pages[id := u], j, d)} | 0 < j < l.depth && !(j == level + 1 && d == up)
      ensures Link(l, pages[id := u], j, d)
    {
      SetChangesOne(l, pages, u, level, c, v, j, d);
      SetChangesOne(l, pages, u, level, c, v, j - 1, d);
      assert (j == level && d == c) || Link(l, pages, j, d);
    }
  }

  /** A new, empty page promises nothing and offers nothing. */
  lemma EmptyPageIsSilent(l: Layout, pages: Pages, id: int, t: seq<Byte>, level: nat, c: nat)
    requires l.Ok() && level < l.depth && id !in pages
    requires forall i :: 0 <= i < |t| ==> t[i] == 0
    ensures Value(l, pages[id := t], level, c) == Value(l, pages, level, c)
    ensures Top(l, pages[id := t], level, c) == Top(l, pages, level, c)
  {
  }

  // -------- categories --------

  function Step(pageSize: int): int { pageSize / 256 }

  function PageSpaceToCategory(pageSize: int, available: nat): (cat: Byte)
    requires FsmPageSize(pageSize)
  {
    if available >= MaxTuple(pageSize) then 255
    else if available / Step(pageSize) > 254 then 254
    else available / Step(pageSize)
  }

  function SpaceNeededToCategory(pageSize: int, needed: nat): (cat: Byte)
    requires FsmPageSize(pageSize)
  {
    if needed == 0 then 1
    else
      var cat := (needed + Step(pageSize) - 1) / Step(pageSize);
      if cat > 255 then 255 else cat
  }

  function Min(a: int, b: int): int { if a <= b then a else b }

  /** A page whose category covers a request has room for it, or for the largest record there is. */
  lemma CategoryIsEnough(pageSize: int, available: nat, needed: nat)
    requires FsmPageSize(pageSize)
    requires PageSpaceToCategory(pageSize, available) >= SpaceNeededToCategory(pageSize, needed)
    ensures available >= Min(needed, MaxTuple(pageSize))
  {
    var step := Step(pageSize);
    if available < MaxTuple(pageSize) && needed > 0 {
      RoundUp(available, needed, step);
    }
  }

  lemma RoundUp(a: nat, n: nat, s: int)
    requires s > 0 && a / s >= (n + s - 1) / s
    ensures a >= n
  {
  }

  /** What is recorded for a page, by the numbers of the page size: 255 exactly for the room of an empty page,
      and below that the whole steps of a 256th of a page that are free, 254 at most. */
  lemma CategoryIsExact(pageSize: int, available: nat)
    requires FsmPageSize(pageSize)
    ensures var cat, step := PageSpaceToCategory(pageSize, available), pageSize / 256;
            && (cat == 255 <==> available >= pageSize - 21)
            && (available < pageSize - 21 ==> forall c :: 1 <= c <= 254 ==> (cat >= c <==> available >= c * step))
  {
    var cat, step := PageSpaceToCategory(pageSize, available), pageSize / 256;
    if available < pageSize - 21 {
      forall c | 1 <= c <= 254 ensures cat >= c <==> available >= c * step { QuotAtLeast(available, step, c); }
    }
  }

  lemma QuotAtLeast(n: nat, s: int, c: nat)
    requires s > 0
    ensures n / s >= c <==> n >= c * s
  {
    hide Quot, Rem;
    SplitNamed(n, s);
    QuotIs(n, s);
    var q := Quot(n, s);
    if q >= c { Scaled(c, q, s); } else { Scaled(q + 1, c, s); Distribute(s, q, 1); }
  }

  lemma QuotIs(n: nat, s: int)
    requires s > 0
    ensures Quot(n, s) == n / s
  {
  }

  lemma Scaled(a: nat, b: nat, s: int)
    requires a <= b && s > 0
    ensures a * s <= b * s
  {
  }

  /** What is asked for is the least number of steps that covers the need; 1 at least, and 255 where 254 do not. */
  lemma RequestIsLeast(pageSize: int, needed: nat)
    requires FsmPageSize(pageSize)
    ensures var cat, step := SpaceNeededToCategory(pageSize, needed), pageSize / 256;
            && 1 <= cat <= 255 && (cat < 255 ==> needed <= cat * step)
            && forall c :: 1 <= c < cat ==> c * step < needed
  {
    if needed > 0 { LeastCover(needed, pageSize / 256); }
  }

  lemma LeastCover(n: nat, s: int)
    requires s > 0 && n > 0
    ensures var q := (n + s - 1) / s;
            q >= 1 && n <= q * s && forall c :: 1 <= c < q ==> c * s < n
  {
    var m := n + s - 1;
    hide Quot, Rem;
    SplitNamed(m, s);
    QuotIs(m, s);
    var q := Quot(m, s);
    QuotAtLeast(m, s, 1);
    forall c | 1 <= c < q ensures c * s < n { BelowQuot(m, s, c, q); }
  }

  lemma BelowQuot(m: nat, s: int, c: nat, q: nat)
    requires s > 0 && c < q && q * s <= m
    ensures c * s <= m - s
  {
    Scaled(c + 1, q, s);
    Distribute(s, c, 1);
  }

  /** A recorded page covers a request exactly if it has the room of an empty page, or whole steps of the page
      size lie between the need and its space. */
  lemma EnoughExactlyWhen(pageSize: int, available: nat, needed: nat)
    requires FsmPageSize(pageSize)
    ensures PageSpaceToCategory(pageSize, available) >= SpaceNeededToCategory(pageSize, needed)
            <==> (available >= pageSize - 21
                  || exists c :: 1 <= c <= 254 && needed <= c * (pageSize / 256) && c * (pageSize / 256) <= available)
  {
    hide PageSpaceToCategory, SpaceNeededToCategory, FsmPageSize;
    var step, cat := pageSize / 256, SpaceNeededToCategory(pageSize, needed);
    CategoryIsExact(pageSize, available);
    RequestIsLeast(pageSize, needed);
    if available < pageSize - 21 {
      if PageSpaceToCategory(pageSize, available) >= cat { assert needed <= cat * step && cat * step <= available; }
      if c :| 1 <= c <= 254 && needed <= c * step && c * step <= available {
        assert PageSpaceToCategory(pageSize, available) >= c;
      }
    }
  }

  /** So a step more than the need is always enough, as far as 254 steps go. */
  lemma OneStepMoreIsEnough(pageSize: int, available: nat, needed: nat)
    requires FsmPageSize(pageSize) && needed <= 254 * (pageSize / 256) && available >= needed + pageSize / 256
    ensures PageSpaceToCategory(pageSize, available) >= SpaceNeededToCategory(pageSize, needed)
  {
    hide PageSpaceToCategory, SpaceNeededToCategory;
    var step, cat := pageSize / 256, SpaceNeededToCategory(pageSize, needed);
    RequestIsLeast(pageSize, needed);
    EnoughExactlyWhen(pageSize, available, needed);
    assert 254 * step < needed || cat <= 254;
    if cat > 1 {
      Distribute(step, cat - 1, 1);
      assert (cat - 1) * step < needed;
    }
  }

  /** More room never lowers the category. */
  lemma CategoryGrows(pageSize: int, a: nat, b: nat)
    requires FsmPageSize(pageSize) && a <= b
    ensures PageSpaceToCategory(pageSize, a) <= PageSpaceToCategory(pageSize, b)
  {
    QuotGrows(a, b, Step(pageSize));
  }

  lemma QuotGrows(a: nat, b: nat, s: int)
    requires s > 0 && a <= b
    ensures Quot(a, s) <= Quot(b, s)
  {
    hide Quot, Rem;
    SplitNamed(a, s);
    SplitNamed(b, s);
    var p, q := Quot(a, s), Quot(b, s);
    if p > q {
      Grow(p, q + 1, s);
      Distribute(s, q, 1);
    }
  }

  // -------- recording --------

  /** Below a level the ancestors of slot g hold the category; every other value is as before. */
  ghost predicate RecordedBelow(l: Layout, before: Pages, after: Pages, g: nat, cat: Byte, upTo: nat)
    requires l.Ok()
  {
    forall j: nat, d: nat :: j < l.depth ==>
      Value(l, after, j, d) == if j < upTo && d == RootAncestor(l.slots, g, j) then cat else Value(l, before, j, d)
  }

  /** Recording a category for heap slot g sets exactly the ancestors of g. */
  ghost predicate Recorded(l: Layout, before: Pages, after: Pages, g: nat, cat: Byte)
    requires l.Ok()
  {
    RecordedBelow(l, before, after, g, cat, l.depth)
  }

  /** The same values everywhere; only empty pages may have come. */
  ghost predicate SameValues(l: Layout, before: Pages, after: Pages)
    requires l.Ok()
  {
    forall j: nat, d: nat :: j < l.depth ==>
      Value(l, after, j, d) == Value(l, before, j, d) && Top(l, after, j, d) == Top(l, before, j, d)
  }

  lemma {:induction false} AncestorAbove(slots: nat, n: nat, up: nat)
    requires slots > 0
    ensures RootAncestor(slots, n, up + 1) == Quot(RootAncestor(slots, n, up), slots)
    decreases up
  {
    if up > 0 { AncestorAbove(slots, n / slots, up - 1); }
  }

  lemma RecordStep(l: Layout, before: Pages, pages: Pages, u: seq<Byte>, g: nat, level: nat, cat: Byte)
    requires l.Ok() && level < l.depth && RecordedBelow(l, before, pages, g, cat, level)
    requires var c := RootAncestor(l.slots, g, level);
             SlotSet(l, TreeAt(l, pages, level, Quot(c, l.slots)), u, Rem(c, l.slots), cat)
    ensures var c := RootAncestor(l.slots, g, level);
            var id := PageId(l.slots, l.depth, FsmAddress(Quot(c, l.slots), level));
            RecordedBelow(l, before, pages[id := u], g, cat, level + 1)
  {
    hide TreeAt, PageId, SlotSet, Value, Top, Quot, Rem, RootAncestor;
    var c := RootAncestor(l.slots, g, level);
    var id := PageId(l.slots, l.depth, FsmAddress(Quot(c, l.slots), level));
    forall j: nat, d: nat {:trigger Value(l, pages[id := u], j, d)} | j < l.depth
      ensures Value(l, pages[id := u], j, d)
           == if j < level + 1 && d == RootAncestor(l.slots, g, j) then cat else Value(l, before, j, d)
    {
      SetChangesOne(l, pages, u, level, c, cat, j, d);
    }
  }

  lemma SilentPage(l: Layout, pages: Pages, id: int, t: seq<Byte>)
    requires l.Ok() && id !in pages && forall i :: 0 <= i < |t| ==> t[i] == 0
    ensures SameValues(l, pages, pages[id := t])
  {
    hide Value, Top;
    forall j: nat, d: nat {:trigger Value(l, pages[id := t], j, d)} | j < l.depth
      ensures Value(l, pages[id := t], j, d) == Value(l, pages, j, d)
      ensures Top(l, pages[id := t], j, d) == Top(l, pages, j, d)
    {
      EmptyPageIsSilent(l, pages, id, t, j, d);
    }
  }

  lemma SameLinks(l: Layout, before: Pages, after: Pages)
    requires l.Ok() && SameValues(l, before, after) && Linked(l, before)
    ensures Linked(l, after)
  {
    hide Value, Top;
    forall j: nat, d: nat | 0 < j < l.depth ensures Link(l, after, j, d) {
      assert Link(l, before, j, d);
    }
  }

  // -------- the map --------

  /** The exponent of a page size. */
  function Exponent(pageSize: int): (k: nat)
    requires FsmPageSize(pageSize)
    ensures TreePage(pageSize, k)
  {
    PowersOfTwo();
    if pageSize == 256 then 7 else if pageSize == 512 then 8 else if pageSize == 1024 then 9
    else if pageSize == 2048 then 10 else if pageSize == 4096 then 11 else if pageSize == 8192 then 12
    else if pageSize == 16384 then 13 else 14
  }

  lemma PowersOfTwo()
    ensures Pow2(8) == 256 && Pow2(9) == 512 && Pow2(10) == 1024 && Pow2(11) == 2048
    ensures Pow2(12) == 4096 && Pow2(13) == 8192 && Pow2(14) == 16384 && Pow2(15) == 32768
  {
    assert Pow2(8) == 256;
    assert Pow2(9) == 2 * Pow2(8);
    assert Pow2(10) == 2 * Pow2(9);
    assert Pow2(11) == 2 * Pow2(10);
    assert Pow2(12) == 2 * Pow2(11);
    assert Pow2(13) == 2 * Pow2(12);
    assert Pow2(14) == 2 * Pow2(13);
    assert Pow2(15) == 2 * Pow2(14);
  }

  function LayoutOf(pageSize: int): (l: Layout)
    requires FsmPageSize(pageSize)
    ensures l.Ok() && l.Inner() == NonLeafNodes(pageSize) && l.slots == LeafNodes(pageSize) >= 108
  {
    Layout(Exponent(pageSize), SlotsOf(pageSize), DepthOf(pageSize))
  }

  type Heap = map<int, nat>

  /** The category recorded for a heap page is at most its own; nothing is recorded for a missing page. */
  ghost predicate Bounded(pageSize: int, pages: Pages, heap: Heap, id: int)
    requires FsmPageSize(pageSize) && id >= 1
  {
    Value(LayoutOf(pageSize), pages, 0, id - 1) <= if id in heap then PageSpaceToCategory(pageSize, heap[id]) else 0
  }

  ghost predicate BoundedBut(pageSize: int, pages: Pages, heap: Heap, pending: int)
    requires FsmPageSize(pageSize)
  {
    forall id :: id >= 1 && id != pending ==> Bounded(pageSize, pages, heap, id)
  }

  ghost predicate FsmPages(pageSize: int, pages: Pages, nextId: int)
    requires FsmPageSize(pageSize)
  {
    Trees(LayoutOf(pageSize), pages, nextId) && Linked(LayoutOf(pageSize), pages) && nextId <= I32_MAX
  }

  ghost predicate HeapPages(heap: Heap, nextHeapId: int) {
    (forall id :: id in heap <==> 1 <= id < nextHeapId) && 1 <= nextHeapId <= I32_MAX
  }

  lemma EmptyPageKeepsPages(pageSize: int, pages: Pages, nextId: int, t: seq<Byte>)
    requires FsmPageSize(pageSize) && FsmPages(pageSize, pages, nextId) && nextId < I32_MAX
    requires IsTree(LayoutOf(pageSize), t) && forall i :: 0 <= i < |t| ==> t[i] == 0
    ensures FsmPages(pageSize, pages[nextId := t], nextId + 1)
    ensures SameValues(LayoutOf(pageSize), pages, pages[nextId := t])
  {
    hide IsTree, Linked, SameValues;
    var l := LayoutOf(pageSize);
    SilentPage(l, pages, nextId, t);
    SameLinks(l, pages, pages[nextId := t]);
  }

  lemma SameBounds(pageSize: int, before: Pages, after: Pages, heap: Heap, pending: int)
    requires FsmPageSize(pageSize) && SameValues(LayoutOf(pageSize), before, after)
    requires BoundedBut(pageSize, before, heap, pending)
    ensures BoundedBut(pageSize, after, heap, pending)
  {
    hide Value, Top, LayoutOf, PageSpaceToCategory;
    forall id | id >= 1 && id != pending ensures Bounded(pageSize, after, heap, id) {
      assert Bounded(pageSize, before, heap, id);
    }
  }

  lemma SameValuesChain(l: Layout, a: Pages, b: Pages, c: Pages)
    requires l.Ok() && SameValues(l, a, b) && SameValues(l, b, c)
    ensures SameValues(l, a, c)
  {
    hide Value, Top;
  }

  /** The work on one level goes on here: slot g's ancestor is about to be set. */
  ghost predicate Recording(l: Layout, before: Pages, pages: Pages, nextId: int, g: nat, cat: Byte, level: nat)
    requires l.Ok()
  {
    && Trees(l, pages, nextId)
    && LinkedExcept(l, pages, level, RootAncestor(l.slots, g, level))
    && RecordedBelow(l, before, pages, g, cat, level)
    && (0 < level <= l.depth ==> Top(l, pages, level - 1, RootAncestor(l.slots, g, level)) >= cat)
  }

  lemma LevelDone(l: Layout, before: Pages, pages: Pages, nextId: int, g: nat, cat: Byte, level: nat, u: seq<Byte>)
    requires l.Ok() && level < l.depth && Recording(l, before, pages, nextId, g, cat, level)
    requires var c := RootAncestor(l.slots, g, level);
             SlotSet(l, TreeAt(l, pages, level, Quot(c, l.slots)), u, Rem(c, l.slots), cat)
    ensures var id := PageId(l.slots, l.depth, FsmAddress(Quot(RootAncestor(l.slots, g, level), l.slots), level));
            id in pages ==> Recording(l, before, pages[id := u], nextId, g, cat, level + 1)
  {
    hide TreeAt, PageId, Value, Top, Quot, Rem, RootAncestor, LinkedExcept, RecordedBelow, MaxTree;
    var c := RootAncestor(l.slots, g, level);
    AncestorAbove(l.slots, g, level);
    SetMovesDoubtUp(l, pages, u, level, c, cat);
    RecordStep(l, before, pages, u, g, level, cat);
    SetChangesOne(l, pages, u, level, c, cat, level, c);
  }

  lemma PageOfRecording(l: Layout, before: Pages, pages: Pages, nextId: int, g: nat, cat: Byte, level: nat)
    requires l.Ok() && level < l.depth && Recording(l, before, pages, nextId, g, cat, level)
    ensures var c := RootAncestor(l.slots, g, level);
            var id := PageId(l.slots, l.depth, FsmAddress(Quot(c, l.slots), level));
            && Rem(c, l.slots) < l.slots
            && (1 <= id < nextId ==>
                id in pages && IsTree(l, pages[id]) && TreeAt(l, pages, level, Quot(c, l.slots)) == pages[id])
  {
    hide PageId, Quot, Rem, RootAncestor, MaxTree, LinkedExcept, RecordedBelow, Top;
    var c := RootAncestor(l.slots, g, level);
    SameSlot(c, c, l.slots);
  }

  /** Recording starts with every link in order and ends with it. */
  lemma RecordingStarts(l: Layout, pages: Pages, nextId: int, g: nat, cat: Byte)
    requires l.Ok() && Trees(l, pages, nextId) && Linked(l, pages)
    ensures Recording(l, pages, pages, nextId, g, cat, 0)
  {
    hide Value, Top, Link, RootAncestor;
  }

  lemma RecordingEnds(l: Layout, before: Pages, pages: Pages, nextId: int, g: nat, cat: Byte)
    requires l.Ok() && Recording(l, before, pages, nextId, g, cat, l.depth)
    ensures Trees(l, pages, nextId) && Linked(l, pages) && Recorded(l, before, pages, g, cat)
  {
    hide Value, Top, Link, RootAncestor;
  }

  /** Every page on the way up from an existing leaf page exists. */
  lemma AncestorsExist(l: Layout, g: nat, level: nat)
    requires l.Ok() && level < l.depth
    ensures var leaf := PageId(l.slots, l.depth, FsmAddress(Quot(g, l.slots), 0));
            1 <= PageId(l.slots, l.depth, FsmAddress(Quot(RootAncestor(l.slots, g, level), l.slots), level)) <= leaf
    decreases level
  {
    if level > 0 {
      AncestorsExist(l, g, level - 1);
      AncestorAbove(l.slots, g, level - 1);
      ParentComesFirst(l.slots, l.depth, FsmAddress(RootAncestor(l.slots, g, level), level - 1));
    }
  }

  /** Recording its own category puts a page's bound right and leaves the others. */
  lemma RecordedIsBounded(pageSize: int, before: Pages, after: Pages, heap: Heap, id: int)
    requires FsmPageSize(pageSize) && id >= 1 && id in heap && BoundedBut(pageSize, before, heap, id)
    requires Recorded(LayoutOf(pageSize), before, after, id - 1, PageSpaceToCategory(pageSize, heap[id]))
    ensures BoundedBut(pageSize, after, heap, 0)
  {
    hide Value, LayoutOf, PageSpaceToCategory;
    var l := LayoutOf(pageSize);
    forall i | i >= 1 ensures Bounded(pageSize, after, heap, i) {
      assert RootAncestor(l.slots, id - 1, 0) == id - 1;
      var d: nat := i - 1;
      assert Value(l, after, 0, d) == if d == id - 1 then PageSpaceToCategory(pageSize, heap[id])
             else Value(l, before, 0, d);
      assert i == id || Bounded(pageSize, before, heap, i);
    }
  }

  lemma RecordedAfterSame(l: Layout, a: Pages, b: Pages, c: Pages, g: nat, cat: Byte)
    requires l.Ok() && SameValues(l, a, b) && Recorded(l, b, c, g, cat)
    ensures Recorded(l, a, c, g, cat)
  {
    hide Value, Top, RootAncestor;
  }

  /** Where recording for a heap page starts. */
  lemma StartOfUpdate(slots: nat, depth: nat, pageId: int)
    requires slots >= 108 && 0 < depth <= 4 && 1 <= pageId <= I32_MAX
    ensures var a := FsmAddress(Quot(pageId - 1, slots), 0);
            && HeapPageToAddress(slots, pageId) == Ok((a, Rem(pageId - 1, slots)))
            && RootAncestor(slots, pageId - 1, 0) == pageId - 1
            && PageId(slots, depth, a) < I32_MAX && AsI32(PageId(slots, depth, a)) == PageId(slots, depth, a)
  {
    Split(pageId - 1, slots);
    PageIdFits(slots, depth, pageId);
    SmallIsItself(PageId(slots, depth, FsmAddress(Quot(pageId - 1, slots), 0)));
  }

  /** The next step up from the ancestor of slot g. */
  lemma UpTheTree(slots: nat, rootLevel: nat, g: nat, level: nat)
    requires slots > 0 && level != rootLevel
    ensures var c := RootAncestor(slots, g, level + 1);
            var from := FsmAddress(Quot(RootAncestor(slots, g, level), slots), level);
            FsmAddresses.Parent(slots, rootLevel, from) == Ok((FsmAddress(Quot(c, slots), level + 1), Rem(c, slots)))
  {
    AncestorAbove(slots, g, level);
  }

  lemma TreeThere(l: Layout, pages: Pages, nextId: int, a: FsmAddress)
    requires l.Ok() && a.level < l.depth && Trees(l, pages, nextId)
    requires 1 <= PageId(l.slots, l.depth, a) < nextId
    ensures var id := PageId(l.slots, l.depth, a);
            && id in pages && IsTree(l, pages[id]) && TreeAt(l, pages, a.level, a.nodeNumber) == pages[id]
            && |pages[id]| > 0 && Top(l, pages, a.level, a.nodeNumber) == pages[id][0]
  {
    hide PageId;
  }

  /** The root of a page, and a slot of it, say that there is enough below. */
  ghost predicate Offers(l: Layout, pages: Pages, a: FsmAddress, cat: int) {
    l.Ok() && a.level < l.depth && Top(l, pages, a.level, a.nodeNumber) >= cat
  }

  ghost predicate Promises(l: Layout, pages: Pages, a: FsmAddress, slot: nat, cat: int) {
    l.Ok() && a.level < l.depth && slot < l.slots && Value(l, pages, a.level, a.nodeNumber * l.slots + slot) >= cat
  }

  lemma PromiseOnPage(l: Layout, pages: Pages, a: FsmAddress, slot: nat, cat: int)
    requires l.Ok() && a.level < l.depth && slot < l.slots
    requires SlotOf(l, TreeAt(l, pages, a.level, a.nodeNumber), slot) >= cat
    ensures Promises(l, pages, a, slot, cat)
  {
    hide TreeAt, SlotOf;
    DivUnique(a.nodeNumber, slot, l.slots);
  }

  /** The first slot of a page that promises enough. */
  ghost predicate FirstPromise(l: Layout, pages: Pages, a: FsmAddress, slot: nat, cat: int) {
    Promises(l, pages, a, slot, cat) && forall h: nat :: h < slot ==> !Promises(l, pages, a, h, cat)
  }

  lemma FirstPromiseOnPage(l: Layout, pages: Pages, a: FsmAddress, slot: nat, cat: int)
    requires l.Ok() && a.level < l.depth && slot < l.slots
    requires FirstSlot(l, TreeAt(l, pages, a.level, a.nodeNumber), slot, cat)
    ensures FirstPromise(l, pages, a, slot, cat)
  {
    PromiseOnPage(l, pages, a, slot, cat);
    hide TreeAt, SlotOf, Value, Quot, Rem;
    forall h: nat | h < slot ensures !Promises(l, pages, a, h, cat) { ValueOnPage(l, pages, a, h); }
  }

  lemma ValueOnPage(l: Layout, pages: Pages, a: FsmAddress, h: nat)
    requires l.Ok() && a.level < l.depth && h < l.slots
    ensures Value(l, pages, a.level, a.nodeNumber * l.slots + h)
            == SlotOf(l, TreeAt(l, pages, a.level, a.nodeNumber), h)
  {
    hide TreeAt, SlotOf;
    DivUnique(a.nodeNumber, h, l.slots);
  }

  ghost predicate FirstSlot(l: Layout, t: seq<Byte>, slot: nat, cat: int) {
    SlotOf(l, t, slot) >= cat && forall h: nat :: h < slot ==> SlotOf(l, t, h) < cat
  }

  /** From root node 0 down to slot c of a level, the first promising slot is taken on every page. */
  ghost predicate LeftmostWay(l: Layout, pages: Pages, level: nat, c: nat, cat: int)
    requires l.Ok() && level < l.depth
    decreases l.depth - level
  {
    && FirstPromise(l, pages, FsmAddress(Quot(c, l.slots), level), Rem(c, l.slots), cat)
    && if level + 1 < l.depth then LeftmostWay(l, pages, level + 1, Quot(c, l.slots), cat) else Quot(c, l.slots) == 0
  }

  lemma WayGoesOn(l: Layout, pages: Pages, a: FsmAddress, slot: nat, cat: int)
    requires l.Ok() && a.level < l.depth && FirstPromise(l, pages, a, slot, cat)
    requires if a.level + 1 < l.depth then LeftmostWay(l, pages, a.level + 1, a.nodeNumber, cat) else a.nodeNumber == 0
    ensures LeftmostWay(l, pages, a.level, a.nodeNumber * l.slots + slot, cat)
  {
    hide FirstPromise;
    assert slot < l.slots by { FirstIsSlot(l, pages, a, slot, cat); }
    DivUnique(a.nodeNumber, slot, l.slots);
  }

  /** From slot h on, the first one of a page that promises enough; the number of slots if there is none. */
  ghost function FirstFrom(l: Layout, pages: Pages, a: FsmAddress, h: nat, cat: int): nat
    requires l.Ok() && a.level < l.depth
    decreases l.slots - h
  {
    if h >= l.slots || Value(l, pages, a.level, a.nodeNumber * l.slots + h) >= cat then h
    else FirstFrom(l, pages, a, h + 1, cat)
  }

  /** Where the way over first promising slots leads. */
  ghost function Target(l: Layout, pages: Pages, level: nat, cat: int): nat
    requires l.Ok() && level < l.depth
    decreases l.depth - level
  {
    var n := if level + 1 < l.depth then Target(l, pages, level + 1, cat) else 0;
    n * l.slots + FirstFrom(l, pages, FsmAddress(n, level), 0, cat)
  }

  lemma {:induction false} FirstPromiseIsFirst(l: Layout, pages: Pages, a: FsmAddress, h: nat, slot: nat, cat: int)
    requires l.Ok() && a.level < l.depth && h <= slot && FirstPromise(l, pages, a, slot, cat)
    ensures FirstFrom(l, pages, a, h, cat) == slot
    decreases slot - h
  {
    hide Value;
    if h < slot {
      assert !Promises(l, pages, a, h, cat);
      FirstPromiseIsFirst(l, pages, a, h + 1, slot, cat);
    }
  }

  /** There is one such way only. */
  lemma {:induction false} WayIsTarget(l: Layout, pages: Pages, level: nat, c: nat, cat: int)
    requires l.Ok() && level < l.depth && LeftmostWay(l, pages, level, c, cat)
    ensures c == Target(l, pages, level, cat)
    decreases l.depth - level
  {
    hide FirstPromise, FirstFrom;
    var a := FsmAddress(Quot(c, l.slots), level);
    FirstPromiseIsFirst(l, pages, a, 0, Rem(c, l.slots), cat);
    SplitNamed(c, l.slots);
    if level + 1 < l.depth { WayIsTarget(l, pages, level + 1, a.nodeNumber, cat); }
  }

  lemma {:induction false} WayBeforeSame(l: Layout, before: Pages, after: Pages, level: nat, c: nat, cat: int)
    requires l.Ok() && level < l.depth && SameValues(l, before, after) && LeftmostWay(l, after, level, c, cat)
    ensures LeftmostWay(l, before, level, c, cat)
    decreases l.depth - level
  {
    var a, slot := FsmAddress(Quot(c, l.slots), level), Rem(c, l.slots);
    hide Value, Top, Quot, Rem;
    forall h: nat | h <= slot ensures Promises(l, before, a, h, cat) <==> Promises(l, after, a, h, cat) {
      assert Value(l, after, level, a.nodeNumber * l.slots + h) == Value(l, before, level, a.nodeNumber * l.slots + h);
    }
    if level + 1 < l.depth { WayBeforeSame(l, before, after, level + 1, a.nodeNumber, cat); }
  }

  lemma FirstIsSlot(l: Layout, pages: Pages, a: FsmAddress, slot: nat, cat: int)
    requires FirstPromise(l, pages, a, slot, cat)
    ensures slot < l.slots && Promises(l, pages, a, slot, cat)
  {
    hide Value;
  }

  /** Only an existing heap page has something recorded. */
  lemma LeafSlotIsAPage(pageSize: int, pages: Pages, heap: Heap, nextHeapId: int, a: FsmAddress, slot: nat, cat: int)
    requires FsmPageSize(pageSize) && HeapPages(heap, nextHeapId) && BoundedBut(pageSize, pages, heap, 0)
    requires a.level == 0 && cat > 0 && Promises(LayoutOf(pageSize), pages, a, slot, cat)
    ensures var r := AddressToHeapPage(SlotsOf(pageSize), a, slot);
            r.Ok? && r.value in heap && PageSpaceToCategory(pageSize, heap[r.value]) >= cat
            && r.value == a.nodeNumber * SlotsOf(pageSize) + slot + 1
  {
    hide Value, PageSpaceToCategory;
    var c: nat := a.nodeNumber * SlotsOf(pageSize) + slot;
    assert Bounded(pageSize, pages, heap, c + 1);
    SmallIsItself(c);
  }

  /** The page below a slot with enough has enough, and exists. */
  lemma ChildKeepsThePromise(l: Layout, pages: Pages, nextId: int, a: FsmAddress, slot: nat, cat: int)
    requires Promises(l, pages, a, slot, cat) && Linked(l, pages) && Trees(l, pages, nextId) && a.level > 0 && cat > 0
    ensures var r := Child(l.slots, a, slot);
            && r == Ok(FsmAddress(a.nodeNumber * l.slots + slot, a.level - 1)) && Offers(l, pages, r.value, cat)
            && 1 <= PageId(l.slots, l.depth, r.value) < nextId
  {
    hide Value, PageId, MaxTree;
    assert Link(l, pages, a.level, a.nodeNumber * l.slots + slot);
  }

  /** A new heap page takes nothing recorded with it. */
  lemma NewPageKeepsBounds(pageSize: int, pages: Pages, heap: Heap, id: int)
    requires FsmPageSize(pageSize) && BoundedBut(pageSize, pages, heap, 0) && id !in heap && id >= 1
    ensures BoundedBut(pageSize, pages, heap[id := DataSize(pageSize)], 0)
  {
    hide Value;
    var grown := heap[id := DataSize(pageSize)];
    forall i | i >= 1 ensures Bounded(pageSize, pages, grown, i) {
      assert Bounded(pageSize, pages, heap, i);
    }
  }

  lemma SameRootTop(l: Layout, before: Pages, after: Pages)
    requires l.Ok() && SameValues(l, before, after)
    ensures Top(l, after, l.depth - 1, 0) == Top(l, before, l.depth - 1, 0)
  {
    hide Top, Value;
    assert Value(l, after, l.depth - 1, 0) == Value(l, before, l.depth - 1, 0);
  }

  lemma HeapIdsArePositive(heap: Heap, nextHeapId: int, id: int)
    requires HeapPages(heap, nextHeapId)
    ensures id in heap ==> id >= 1
  {
  }

  /** The store keeps the FSM pages and, of the heap pages, the space each has available. */
  class Fsm {
    const pageSize: int
    const rootLevel: nat
    const depth: nat
    const slots: nat

    var pages: Pages
    var nextId: int
    var heap: map<int, nat>
    var nextHeapId: int

    ghost predicate Shape() {
      && FsmPageSize(pageSize) && slots == SlotsOf(pageSize) && depth == DepthOf(pageSize) && rootLevel == depth - 1
    }

    ghost function L(): Layout
      requires Shape()
    {
      LayoutOf(pageSize)
    }

    /** What holds at all times, but for the bound of a page that has been written and not recorded yet. */
    ghost predicate Sound(pending: int)
      reads this
    {
      && Shape() && FsmPages(pageSize, pages, nextId) && HeapPages(heap, nextHeapId)
      && BoundedBut(pageSize, pages, heap, pending)
    }

    ghost predicate Valid()
      reads this
    {
      Sound(0)
    }

    constructor (pageSize: int)
      requires FsmPageSize(pageSize)
      ensures Valid() && this.pageSize == pageSize && pages == map[] && heap == map[] && nextHeapId == 1
    {
      this.pageSize := pageSize;
      depth := DepthOf(pageSize);
      rootLevel := DepthOf(pageSize) - 1;
      slots := SlotsOf(pageSize);
      pages, nextId := map[], 1;
      heap, nextHeapId := map[], 1;
    }

    /** Page sizes below 256 bytes are refused. */
    static method New(pageSize: int) returns (r: Result<Fsm, FsmError>)
      requires PageSize(pageSize)
      ensures r.Ok? <==> pageSize >= 256
      ensures r.Err? ==> r.error == InvalidPageLayout
      ensures r.Ok? ==> fresh(r.value) && r.value.Valid() && r.value.pageSize == pageSize && r.value.heap == map[]
      ensures r.Ok? ==> r.value.pages == map[]
    {
      if pageSize < 256 {
        return Err(InvalidPageLayout);
      }
      var f := new Fsm(pageSize);
      r := Ok(f);
    }

    // ---- pages ----

    method ReadTree(id: int) returns (r: Result<BinaryTree, FsmError>)
      requires Shape()
      ensures r.Ok? <==> id in pages && |pages[id]| == Nodes(pageSize)
      ensures r.Ok? ==> fresh(r.value) && fresh(r.value.arr) && r.value.Shape() && r.value.arr[..] == pages[id]
      ensures r.Ok? ==> r.value.leafNodes == slots && r.value.nonLeafNodes == L().Inner()
    {
      if id !in pages {
        return Err(MissingPage);
      }
      var bytes := pages[id];
      if |bytes| != Nodes(pageSize) {
        return Err(CorruptRootSlotData);
      }
      var t := new BinaryTree.Deserialize(bytes, pageSize, Exponent(pageSize));
      r := Ok(t);
    }

    /** Append an empty page. */
    method AllocateNewFsmAndInit(ghost pending: int)
      requires Sound(pending) && nextId < I32_MAX
      modifies `pages, `nextId
      ensures Sound(pending) && nextId == old(nextId) + 1 && SameValues(L(), old(pages), pages)
    {
      hide FsmPages, BoundedBut, SameValues;
      var id := nextId;
      nextId := nextId + 1;
      var tree := new BinaryTree(pageSize, Exponent(pageSize));
      ghost var t := tree.arr[..];
      assert forall i :: 0 <= i < |t| ==> t[i] == 0;
      EmptyPageKeepsPages(pageSize, pages, id, t);
      pages := pages[id := tree.arr[..]];
      SameBounds(pageSize, old(pages), pages, heap, pending);
    }

    /** Set one slot of the page it lies on. */
    method RecordAt(fsmPageId: int, slot: nat, cat: Byte, ghost before: Pages, ghost g: nat, ghost level: nat)
      returns (r: Result<(), FsmError>)
      requires Shape() && level < depth && Recording(L(), before, pages, nextId, g, cat, level)
      requires var c := RootAncestor(slots, g, level);
               slot == Rem(c, slots) && fsmPageId == PageId(slots, depth, FsmAddress(Quot(c, slots), level))
      requires 1 <= fsmPageId < nextId
      modifies `pages
      ensures r.Ok? && Recording(L(), before, pages, nextId, g, cat, level + 1)
    {
      ghost var l := L();
      PageOfRecording(l, before, pages, nextId, g, cat, level);
      hide *;
      var read := ReadTree(fsmPageId);
      var tree := read.value;
      SetOnTree(tree, l, slot, cat);
      LevelDone(l, before, pages, nextId, g, cat, level, tree.arr[..]);
      pages := pages[fsmPageId := tree.arr[..]];
      r := Ok(());
    }

    static method SetOnTree(tree: BinaryTree, ghost l: Layout, slot: nat, cat: Byte)
      requires tree.Shape() && tree.nonLeafNodes == l.Inner() && tree.leafNodes == l.slots
      requires IsTree(l, tree.arr[..]) && slot < l.slots
      modifies tree.arr
      ensures SlotSet(l, old(tree.arr[..]), tree.arr[..], slot, cat)
    {
      tree.SetAvailableSpace(slot, cat);
    }

    /** Make sure the FSM pages up to an id exist. */
    method AllocateUpTo(last: int, ghost pending: int)
      requires Sound(pending) && last < I32_MAX
      modifies `pages, `nextId
      ensures Sound(pending) && nextId == (if last >= old(nextId) then last + 1 else old(nextId))
      ensures SameValues(L(), old(pages), pages)
    {
      assert SameValues(L(), pages, pages);
      assert nextId >= 1 && nextId <= I32_MAX;
      hide *;
      while nextId <= last
        invariant Sound(pending) && SameValues(L(), old(pages), pages)
        invariant old(nextId) <= nextId <= (if last >= old(nextId) then last + 1 else old(nextId))
      {
        ghost var was := pages;
        AllocateNewFsmAndInit(pending);
        SameValuesChain(L(), old(pages), was, pages);
      }
    }

    /** Record the space a heap page has available: on every level the ancestor slot of the page gets
        the page's own category. */
    method Update(pageId: int, freeSpace: nat) returns (r: Result<(), FsmError>)
      requires Sound(pageId) && pageId <= I32_MAX
      requires pageId >= 1 ==> pageId in heap && heap[pageId] == freeSpace
      modifies `pages, `nextId
      ensures pageId < 1 ==>
                r == Err(Address(AddressError.CorruptedState)) && pages == old(pages) && nextId == old(nextId)
      ensures pageId >= 1 ==> r.Ok? && Valid()
      ensures pageId >= 1 ==>
                Recorded(L(), old(pages), pages, pageId - 1, PageSpaceToCategory(pageSize, freeSpace))
    {
      var cat := PageSpaceToCategory(pageSize, freeSpace);
      var at := HeapPageToAddress(slots, pageId);
      if at.Err? {
        return Err(Address(at.error));
      }
      var (addr, slot) := at.value;
      StartOfUpdate(slots, depth, pageId);
      ghost var l := L();
      ghost var g: nat := pageId - 1;
      assert BoundedBut(pageSize, pages, heap, pageId);
      assert Sound(pageId) && l.slots == slots && l.depth == depth;
      hide *;
      var fsmPageId := LogicalAddressToPageId(slots, depth, addr);
      AllocateUpTo(fsmPageId, pageId);
      ghost var ready := pages;
      SoundPages(pageId);
      UpdateLevels(addr, slot, fsmPageId, cat, g);
      RecordedAfterSame(l, old(pages), ready, pages, g, cat);
      RecordedIsBounded(pageSize, old(pages), pages, heap, pageId);
      SoundAgain();
      r := Ok(());
    }

    lemma SoundPages(pending: int)
      requires Sound(pending)
      ensures Shape() && Trees(L(), pages, nextId) && Linked(L(), pages) && nextId <= I32_MAX
              && HeapPages(heap, nextHeapId)
      ensures L().slots == slots && L().depth == depth && L() == LayoutOf(pageSize) && nextHeapId >= 1
      ensures RootTop() == Top(L(), pages, L().depth - 1, 0)
    {
    }

    lemma ValidIsSound()
      requires Valid()
      ensures Sound(0)
    {
    }

    lemma SoundIsValid()
      requires Sound(0)
      ensures Valid()
    {
    }

    lemma SoundAgain()
      requires Shape() && Trees(L(), pages, nextId) && Linked(L(), pages) && nextId <= I32_MAX
      requires HeapPages(heap, nextHeapId) && BoundedBut(pageSize, pages, heap, 0)
      ensures Valid()
    {
    }

    /** From the leaf page up to the root page. */
    method UpdateLevels(leaf: FsmAddress, leafSlot: nat, leafId: int, cat: Byte, ghost g: nat)
      requires Shape() && Trees(L(), pages, nextId) && Linked(L(), pages)
      requires leaf == FsmAddress(Quot(g, slots), 0) && leafSlot == Rem(g, slots)
      requires leafId == PageId(slots, depth, leaf) && leafId < nextId && leafId < I32_MAX
      modifies `pages
      ensures Trees(L(), pages, nextId) && Linked(L(), pages) && Recorded(L(), old(pages), pages, g, cat)
    {
      ghost var l := L();
      assert l.slots == slots && l.depth == depth && rootLevel == depth - 1;
      assert RootAncestor(slots, g, 0) == g;
      RecordingStarts(l, pages, nextId, g, cat);
      hide *;
      var addr, slot, fsmPageId := leaf, leafSlot, leafId;
      var level := 0;
      while level < depth
        invariant level <= depth && Recording(l, old(pages), pages, nextId, g, cat, level)
        invariant level < depth ==>
                    var c := RootAncestor(slots, g, level);
                    && addr == FsmAddress(Quot(c, slots), level) && slot == Rem(c, slots)
                    && fsmPageId == PageId(slots, depth, addr)
      {
        AncestorsExist(l, g, level);
        var done := RecordAt(fsmPageId, slot, cat, old(pages), g, level);
        if level < rootLevel {
          UpTheTree(slots, rootLevel, g, level);
          var up := FsmAddresses.Parent(slots, rootLevel, addr);
          addr, slot := up.value.0, up.value.1;
          AncestorsExist(l, g, level + 1);
          SmallIsItself(PageId(slots, depth, addr));
          fsmPageId := LogicalAddressToPageId(slots, depth, addr);
        }
        level := level + 1;
      }
      RecordingEnds(l, old(pages), pages, nextId, g, cat);
    }

    // ---- finding a page ----

    ghost function RootTop(): int
      reads this
      requires Shape()
    {
      Top(L(), pages, depth - 1, 0)
    }

    /** The tree of an existing page says which of its slots offers enough. */
    method SearchPage(pageId: int, addr: FsmAddress, cat: Byte) returns (r: Result<Option<nat>, FsmError>)
      requires Shape() && Trees(L(), pages, nextId)
      requires addr.level < depth && pageId == PageId(slots, depth, addr) && 1 <= pageId < nextId
      ensures r.Ok? && (r.value.Some? <==> Offers(L(), pages, addr, cat))
      ensures r.value.Some? ==> FirstPromise(L(), pages, addr, r.value.value, cat)
    {
      ghost var l := L();
      assert l.slots == slots && l.depth == depth;
      TreeThere(l, pages, nextId, addr);
      assert Offers(l, pages, addr, cat) <==> pages[pageId][0] >= cat;
      hide *;
      var read := ReadTree(pageId);
      r := SearchTree(read.value, l, cat);
      if r.value.Some? {
        FirstPromiseOnPage(l, pages, addr, r.value.value, cat);
      }
    }

    static method SearchTree(tree: BinaryTree, ghost l: Layout, cat: Byte) returns (r: Result<Option<nat>, FsmError>)
      requires tree.Shape() && tree.nonLeafNodes == l.Inner() && tree.leafNodes == l.slots
      requires IsTree(l, tree.arr[..])
      ensures r.Ok? && (r.value.None? <==> tree.arr[0] < cat)
      ensures r.value.Some? ==> r.value.value < l.slots && FirstSlot(l, tree.arr[..], r.value.value, cat)
    {
      var found := tree.FindAvailable(cat);
      match found {
        case None => r := Ok(None);
        case Some(slot) =>
          r := Ok(Some(slot.slotIndex));
          ghost var t, inner := tree.arr[..], l.Inner();
          assert forall h :: 0 <= h < l.slots ==> tree.Slots()[h] == t[inner + h];
      }
    }

    /** Counting on from the last 31-bit id is a panic. */
    method AllocateHeapPage() returns (r: Result<int, FsmError>)
      requires Valid()
      modifies `heap, `nextHeapId
      ensures r == if old(nextHeapId) < I32_MAX then Ok(old(nextHeapId)) else Err(OutOfIds)
      ensures r.Ok? ==>
                && Valid() && nextHeapId == r.value + 1
                && r.value !in old(heap) && heap == old(heap)[r.value := DataSize(pageSize)]
      ensures r.Err? ==> Valid() && heap == old(heap) && nextHeapId == old(nextHeapId)
    {
      if nextHeapId == I32_MAX {
        return Err(OutOfIds);
      }
      var id := nextHeapId;
      NewPageKeepsBounds(pageSize, pages, heap, id);
      nextHeapId := nextHeapId + 1;
      heap := heap[id := DataSize(pageSize)];
      r := Ok(id);
    }

    method ReadHeapPage(id: int) returns (r: Result<int, FsmError>)
      ensures r == if id in heap then Ok(id) else Err(MissingPage)
    {
      if id in heap {
        r := Ok(id);
      } else {
        r := Err(MissingPage);
      }
    }

    lemma ReadyToDescend(cat: Byte)
      requires Valid() && cat > 0 && nextId > depth
      ensures var l := L();
              && l.Ok() && l.slots == slots && l.depth == depth && l == LayoutOf(pageSize) && depth >= 3
              && Shape() && FsmPageSize(pageSize) && slots == SlotsOf(pageSize) && slots > 0 && nextId <= I32_MAX
              && Trees(l, pages, nextId) && Linked(l, pages)
              && HeapPages(heap, nextHeapId) && BoundedBut(pageSize, pages, heap, 0)
              && PageId(slots, depth, FsmAddress(0, depth - 1)) == 1
              && (Offers(l, pages, FsmAddress(0, depth - 1), cat) <==> RootTop() >= cat)
    {
      SoundPages(0);
    }

    lemma ReadyToSearch(bytes: nat)
      requires Valid()
      ensures Sound(0) && Shape() && FsmPageSize(pageSize) && rootLevel + 1 == depth && depth < I32_MAX
      ensures L().Ok() && L().depth == depth
      ensures SpaceNeededToCategory(pageSize, bytes) > 0
      ensures RootTop() == Top(L(), pages, depth - 1, 0)
    {
    }

    /** From the root page down to a heap page; None when the root has too little to offer. */
    method Descend(cat: Byte) returns (r: Result<Option<int>, FsmError>)
      requires Valid() && cat > 0 && nextId > depth
      ensures r.Ok? && (r.value.Some? <==> RootTop() >= cat)
      ensures r.value.Some? ==> r.value.value in heap && PageSpaceToCategory(pageSize, heap[r.value.value]) >= cat
      ensures r.value.Some? ==> r.value.value >= 1 && LeftmostWay(L(), pages, 0, r.value.value - 1, cat)
    {
      hide *;
      ReadyToDescend(cat);
      ghost var l := L();
      var addr := FsmAddress(0, depth - 1);
      ghost var root := addr;
      var shouldNeverFail := false;
      var heapPageId := 0;
      var i := 0;
      while i < depth
        invariant i <= depth && (shouldNeverFail <==> i > 0)
        invariant i < depth ==> addr.level == depth - 1 - i && 1 <= PageId(slots, depth, addr) < nextId
        invariant i == 0 ==> addr == root
        invariant 0 < i < depth ==> Offers(l, pages, addr, cat)
        invariant i > 0 ==> Offers(l, pages, root, cat)
        invariant 0 < i < depth ==> LeftmostWay(l, pages, addr.level + 1, addr.nodeNumber, cat)
        invariant i == depth ==> heapPageId in heap && PageSpaceToCategory(pageSize, heap[heapPageId]) >= cat
        invariant i == depth ==> heapPageId >= 1 && LeftmostWay(l, pages, 0, heapPageId - 1, cat)
      {
        SmallIsItself(PageId(slots, depth, addr));
        var pageId := LogicalAddressToPageId(slots, depth, addr);
        var search := SearchPage(pageId, addr, cat);
        var slot := search.value;
        if slot.Some? {
          FirstIsSlot(l, pages, addr, slot.value, cat);
          WayGoesOn(l, pages, addr, slot.value, cat);
          if addr.level == 0 {
            LeafSlotIsAPage(pageSize, pages, heap, nextHeapId, addr, slot.value, cat);
            heapPageId := AddressToHeapPage(slots, addr, slot.value).value;
          } else {
            ChildKeepsThePromise(l, pages, nextId, addr, slot.value, cat);
            addr := Child(slots, addr, slot.value).value;
            shouldNeverFail := true;
          }
        } else {
          if shouldNeverFail {
            return Err(FsmError.CorruptedState);
          }
          return Ok(None);
        }
        i := i + 1;
      }
      HeapIdsArePositive(heap, nextHeapId, heapPageId);
      if heapPageId < 1 {
        return Err(FsmError.CorruptedState);
      }
      r := Ok(Some(heapPageId));
    }

    /** The root promises too little for a request. */
    ghost predicate NeedsNewPage(bytes: nat)
      reads this
      requires Shape()
    {
      RootTop() < SpaceNeededToCategory(pageSize, bytes)
    }

    /** The page a request is to get. */
    ghost function ChosenPage(bytes: nat): int
      reads this
      requires Shape()
    {
      if NeedsNewPage(bytes) then nextHeapId else Target(L(), pages, 0, SpaceNeededToCategory(pageSize, bytes)) + 1
    }

    ghost predicate OutOfPages(bytes: nat)
      reads this
      requires Shape()
    {
      NeedsNewPage(bytes) && nextHeapId >= I32_MAX
    }

    lemma ChoiceMeans(bytes: nat)
      requires Shape()
      ensures NeedsNewPage(bytes) <==> RootTop() < SpaceNeededToCategory(pageSize, bytes)
      ensures OutOfPages(bytes) <==> NeedsNewPage(bytes) && nextHeapId >= I32_MAX
      ensures ChosenPage(bytes)
           == if NeedsNewPage(bytes) then nextHeapId
             else Target(L(), pages, 0, SpaceNeededToCategory(pageSize, bytes)) + 1
    {
    }

    /** The chosen page is one of the heap, unless a new one is needed. */
    lemma ChosenPageExists(bytes: nat)
      requires Valid() && !NeedsNewPage(bytes)
      ensures ChosenPage(bytes) in heap
    {
      hide *;
      ReadyToSearch(bytes);
      ChoiceMeans(bytes);
      SoundPages(0);
      BoundsKnown();
      var l, cat := L(), SpaceNeededToCategory(pageSize, bytes);
      assert Offers(l, pages, FsmAddress(0, depth - 1), cat) by { OffersAtRoot(cat); }
      TargetKeepsThePromise(l, pages, nextId, 0, cat);
      var a := FsmAddress(if 1 < l.depth then Target(l, pages, 1, cat) else 0, 0);
      var slot := FirstFrom(l, pages, a, 0, cat);
      LeafSlotIsAPage(pageSize, pages, heap, nextHeapId, a, slot, cat);
      TargetMeans(cat);
    }

    lemma OffersAtRoot(cat: int)
      requires Shape() && RootTop() >= cat
      ensures Offers(L(), pages, FsmAddress(0, depth - 1), cat)
    {
    }

    lemma BoundsKnown()
      requires Valid()
      ensures BoundedBut(pageSize, pages, heap, 0) && depth == L().depth && slots == L().slots == SlotsOf(pageSize)
    {
    }

    lemma TargetMeans(cat: int)
      requires Shape()
      ensures var n := if 1 < L().depth then Target(L(), pages, 1, cat) else 0;
              Target(L(), pages, 0, cat) == n * L().slots + FirstFrom(L(), pages, FsmAddress(n, 0), 0, cat)
    {
    }

    lemma ChosenOnWay(was: Pages, bytes: nat, id: int)
      requires Shape() && SameValues(L(), was, pages) && id >= 1
      requires LeftmostWay(L(), pages, 0, id - 1, SpaceNeededToCategory(pageSize, bytes))
      ensures id == Target(L(), was, 0, SpaceNeededToCategory(pageSize, bytes)) + 1
      ensures LeftmostWay(L(), was, 0, id - 1, SpaceNeededToCategory(pageSize, bytes))
    {
      hide LeftmostWay, SameValues, Target;
      var cat := SpaceNeededToCategory(pageSize, bytes);
      WayBeforeSame(L(), was, pages, 0, id - 1, cat);
      WayIsTarget(L(), was, 0, id - 1, cat);
    }

    /** A page with enough space: an existing one exactly when the root promises it, and then the one
        the first promising slots lead to; else a new page, as long as there are ids. */
    method FindAvailablePage(bytes: nat) returns (r: Result<int, FsmError>)
      requires Valid()
      modifies this
      ensures Valid() && SameValues(L(), old(pages), pages)
      ensures nextId == if old(nextId) <= depth then depth + 1 else old(nextId)
      ensures r == if old(OutOfPages(bytes)) then Err(OutOfIds) else Ok(old(ChosenPage(bytes)))
      ensures r.Err? ==> heap == old(heap) && nextHeapId == old(nextHeapId)
      ensures r.Ok? && old(NeedsNewPage(bytes)) ==>
                && r.value == old(nextHeapId) && nextHeapId == old(nextHeapId) + 1
                && r.value !in old(heap) && heap == old(heap)[r.value := DataSize(pageSize)]
      ensures r.Ok? && !old(NeedsNewPage(bytes)) ==>
                && r.value in heap && heap == old(heap) && nextHeapId == old(nextHeapId)
                && r.value >= 1 && LeftmostWay(L(), old(pages), 0, r.value - 1, SpaceNeededToCategory(pageSize, bytes))
                && heap[r.value] >= Min(bytes, MaxTuple(pageSize))
    {
      hide *;
      ReadyToSearch(bytes);
      ChoiceMeans(bytes);
      ghost var was := pages;
      var cat := SpaceNeededToCategory(pageSize, bytes);
      AllocateUpTo(rootLevel + 1, 0);
      SameRootTop(L(), old(pages), pages);
      SoundIsValid();
      ReadyToSearch(bytes);
      var search := Descend(cat);
      match search.value {
        case None =>
          r := AllocateHeapPage();
        case Some(id) =>
          ChosenOnWay(was, bytes, id);
          CategoryIsEnough(pageSize, heap[id], bytes);
          r := ReadHeapPage(id);
      }
    }

    /** Write a heap page back. Until it is recorded its own bound may be off; with no less space than
        before it holds anyway, so deleting records never needs the map. */
    method WritePage(id: int, freeSpace: nat)
      requires Valid() && id in heap
      modifies `heap
      ensures Sound(id) && heap == old(heap)[id := freeSpace]
      ensures freeSpace >= old(heap[id]) ==> Valid()
    {
      WrittenPageBounds(pageSize, pages, heap, id, freeSpace);
      heap := heap[id := freeSpace];
      assert HeapPages(heap, nextHeapId);
    }

    /** Any run of requests, each leaving its page with the space the caller makes of it: no request
        fails, and every page handed out has what was asked for. */
    method Run(requests: seq<Request>) returns (answers: seq<Answer>)
      requires Valid() && nextHeapId + |requests| < I32_MAX
      modifies this
      ensures Valid() && |answers| == |requests|
      ensures forall i :: 0 <= i < |answers| ==> Served(pageSize, requests[i], answers[i])
    {
      answers := [];
      var i := 0;
      hide *;
      while i < |requests|
        invariant i <= |requests| && |answers| == i && Valid() && nextHeapId + |requests| - i < I32_MAX
        invariant forall h :: 0 <= h < i ==> Served(pageSize, requests[h], answers[h])
      {
        var answer := Serve(requests[i]);
        answers := answers + [answer];
        i := i + 1;
      }
    }

    method Serve(request: Request) returns (answer: Answer)
      requires Valid() && nextHeapId < I32_MAX
      modifies this
      ensures Valid() && nextHeapId <= old(nextHeapId) + 1
      ensures Served(pageSize, request, answer)
    {
      SpaceOfNewPage(pageSize, request.bytes);
      ChoiceMeans(request.bytes);
      var r := FindAvailablePage(request.bytes);
      answer := Answer(r.value, heap[r.value]);
      assert Served(pageSize, request, answer);
      SoundPages(0);
      assert 1 <= r.value <= I32_MAX;
      hide *;
      WritePage(r.value, request.spaceLeft);
      var done := Update(r.value, request.spaceLeft);
    }
  }

  /** A request for a page, and the space its page is left with. */
  datatype Request = Request(bytes: nat, spaceLeft: nat)

  datatype Answer = Answer(pageId: int, space: nat)

  predicate Served(pageSize: int, request: Request, answer: Answer) {
    answer.pageId >= 1 && answer.space >= Min(request.bytes, MaxTuple(pageSize))
  }

  lemma SpaceOfNewPage(pageSize: int, bytes: nat)
    requires FsmPageSize(pageSize)
    ensures DataSize(pageSize) >= Min(bytes, MaxTuple(pageSize))
  {
  }

  lemma WrittenPageBounds(pageSize: int, pages: Pages, heap: Heap, id: int, freeSpace: nat)
    requires FsmPageSize(pageSize) && BoundedBut(pageSize, pages, heap, 0) && id in heap
    ensures BoundedBut(pageSize, pages, heap[id := freeSpace], id)
    ensures freeSpace >= heap[id] ==> BoundedBut(pageSize, pages, heap[id := freeSpace], 0)
  {
    var after := heap[id := freeSpace];
    hide Value, PageSpaceToCategory;
    if freeSpace >= heap[id] { CategoryGrows(pageSize, heap[id], freeSpace); }
    forall i | i >= 1 && (i != id || freeSpace >= heap[id]) ensures Bounded(pageSize, pages, after, i) {
      assert Bounded(pageSize, pages, heap, i);
    }
  }

  /** What a page offers, one of its slots promises. */
  lemma TopAttained(l: Layout, pages: Pages, nextId: int, a: FsmAddress) returns (slot: nat)
    requires l.Ok() && a.level < l.depth && Trees(l, pages, nextId) && Top(l, pages, a.level, a.nodeNumber) > 0
    ensures Promises(l, pages, a, slot, Top(l, pages, a.level, a.nodeNumber))
  {
    var t := TreeAt(l, pages, a.level, a.nodeNumber);
    assert IsTree(l, t) && t[0] == Top(l, pages, a.level, a.nodeNumber);
    hide TreeAt, Top, PageId, Trees;
    slot := RootSlot(l, t);
    PromiseOnPage(l, pages, a, slot, t[0]);
  }

  lemma {:induction false} FirstFromFinds(l: Layout, pages: Pages, a: FsmAddress, h: nat, slot: nat, cat: int)
    requires l.Ok() && a.level < l.depth && h <= slot && Promises(l, pages, a, slot, cat)
    ensures FirstFrom(l, pages, a, h, cat) <= slot && Promises(l, pages, a, FirstFrom(l, pages, a, h, cat), cat)
    decreases slot - h
  {
    hide Value;
    if h < slot && !Promises(l, pages, a, h, cat) { FirstFromFinds(l, pages, a, h + 1, slot, cat); }
  }

  /** Where the root page promises enough, every page on the way does, down to a slot that has it. */
  lemma {:induction false} TargetKeepsThePromise(l: Layout, pages: Pages, nextId: int, level: nat, cat: int)
    requires l.Ok() && level < l.depth && Trees(l, pages, nextId) && Linked(l, pages)
    requires Offers(l, pages, FsmAddress(0, l.depth - 1), cat) && cat > 0
    ensures var n := if level + 1 < l.depth then Target(l, pages, level + 1, cat) else 0;
            Promises(l, pages, FsmAddress(n, level), FirstFrom(l, pages, FsmAddress(n, level), 0, cat), cat)
    decreases l.depth - level
  {
    hide Trees, Linked, FirstFrom, Top, Value;
    var n := 0;
    if level + 1 < l.depth {
      TargetKeepsThePromise(l, pages, nextId, level + 1, cat);
      var up := FsmAddress(if level + 2 < l.depth then Target(l, pages, level + 2, cat) else 0, level + 1);
      n := Target(l, pages, level + 1, cat);
      ChildKeepsThePromise(l, pages, nextId, up, FirstFrom(l, pages, up, 0, cat), cat);
    }
    assert Offers(l, pages, FsmAddress(n, level), cat);
    var slot := TopAttained(l, pages, nextId, FsmAddress(n, level));
    FirstFromFinds(l, pages, FsmAddress(n, level), 0, slot, cat);
  }

  lemma RootSlot(l: Layout, t: seq<Byte>) returns (slot: nat)
    requires IsTree(l, t)
    ensures slot < l.slots && |t| > 0 && SlotOf(l, t, slot) == t[0]
  {
    RootIsMaximum(t, l.Inner(), l.k);
    var y :| l.Inner() <= y < |t| && t[y] == t[0];
    slot := y - l.Inner();
  }

  function RootValue(l: Layout, pages: Pages, c: nat): int
    requires l.Ok()
  {
    Value(l, pages, l.depth - 1, c)
  }

  /** On the root level only slot 0 is used, and it holds v. */
  ghost predicate RootLevelHolds(l: Layout, pages: Pages, v: int)
    requires l.Ok()
  {
    forall c: nat :: RootValue(l, pages, c) == if c == 0 then v else 0
  }

  lemma RootOffersNoMore(l: Layout, pages: Pages, nextId: int, v: int)
    requires l.Ok() && Trees(l, pages, nextId) && RootLevelHolds(l, pages, v) && v >= 0
    ensures Top(l, pages, l.depth - 1, 0) <= v
  {
    if Top(l, pages, l.depth - 1, 0) > 0 {
      var slot := TopAttained(l, pages, nextId, FsmAddress(0, l.depth - 1));
      assert RootValue(l, pages, slot) >= Top(l, pages, l.depth - 1, 0);
    }
  }

  lemma RootOffersIt(l: Layout, pages: Pages, nextId: int, v: int)
    requires l.Ok() && Trees(l, pages, nextId) && RootLevelHolds(l, pages, v) && v >= 0
    ensures Top(l, pages, l.depth - 1, 0) == v
  {
    RootOffersNoMore(l, pages, nextId, v);
    var t := TreeAt(l, pages, l.depth - 1, 0);
    assert RootValue(l, pages, 0) == v;
    ValueOnPage(l, pages, FsmAddress(0, l.depth - 1), 0);
    if |t| > 0 {
      assert IsTree(l, t);
      RootIsMaximum(t, l.Inner(), l.k);
    }
  }

  /** The lowest heap pages reach the root level at slot 0. */
  lemma RecordedAtRoot(l: Layout, before: Pages, after: Pages, g: nat, cat: Byte, v: int)
    requires l.Ok() && l.depth >= 2 && g < l.slots
    requires RootLevelHolds(l, before, v) && Recorded(l, before, after, g, cat)
    ensures RootLevelHolds(l, after, cat)
    ensures forall c: nat :: Value(l, after, 0, c) == if c == g then cat as int else Value(l, before, 0, c)
  {
    hide Value;
    LowPagesBelowSlotZero(l.slots, g, l.depth - 1);
    assert RootAncestor(l.slots, g, 0) == g;
    assert forall c: nat :: RootValue(l, after, c) == if c == 0 then cat as int else RootValue(l, before, c);
  }

  lemma {:induction false} LowPagesBelowSlotZero(slots: nat, g: nat, up: nat)
    requires g < slots && up >= 1
    ensures RootAncestor(slots, g, up) == 0
    decreases up
  {
    DivUnique(0, g, slots);
    if up > 1 { LowPagesBelowSlotZero(slots, 0, up - 1); }
  }

  lemma SameOnRootLevel(l: Layout, before: Pages, after: Pages, v: int)
    requires l.Ok() && RootLevelHolds(l, before, v) && SameValues(l, before, after)
    ensures RootLevelHolds(l, after, v)
    ensures forall c: nat :: Value(l, after, 0, c) == Value(l, before, 0, c)
  {
    hide Value, Top;
    assert forall c: nat :: RootValue(l, after, c) == RootValue(l, before, c);
  }

  lemma NumbersOf512()
    ensures FsmPageSize(512) && 3 < I32_MAX
    ensures LayoutOf(512).slots == 236 && LayoutOf(512).depth == 4 && RootLevelHolds(LayoutOf(512), map[], 0)
    ensures SpaceNeededToCategory(512, 491) == 246 && SpaceNeededToCategory(512, 100) == 50
    ensures PageSpaceToCategory(512, 480) == 240 && PageSpaceToCategory(512, 0) == 0
  {
  }

  /** A recorded page with room can stay hidden: recording a full neighbour takes its promise off the
      upper levels, and the next request gets a new page. */
  method RoomIsHidden() returns (f: Fsm, r: Result<int, FsmError>)
    ensures f.Valid() && f.pageSize == 512 && r == Ok(3) && 1 in f.heap && f.heap[1] == 480
    ensures Value(f.L(), f.pages, 0, 0) == 240 > SpaceNeededToCategory(f.pageSize, 100)
  {
    NumbersOf512();
    hide *;
    f := new Fsm(512);
    ghost var l := LayoutOf(512);
    f.ValidIsSound();
    f.SoundPages(0);
    var first := StoreInNewPage(f, 491, 480, l, 0);
    var second := StoreInNewPage(f, 491, 0, l, 240);
    f.ValidIsSound();
    f.SoundPages(0);
    ghost var before := f.pages;
    RootOffersNoMore(l, before, f.nextId, 0);
    f.ChoiceMeans(100);
    r := f.FindAvailablePage(100);
    SameOnRootLevel(l, before, f.pages, 0);
  }

  /** Fill a new page: the root level holds too little for the request. */
  method StoreInNewPage(f: Fsm, bytes: nat, spaceLeft: nat, ghost l: Layout, ghost v: int) returns (id: int)
    requires f.Valid() && f.pageSize == 512 && l == LayoutOf(512) && f.nextHeapId < 3
    requires RootLevelHolds(l, f.pages, v) && 0 <= v < SpaceNeededToCategory(512, bytes)
    modifies f
    ensures f.Valid() && id == old(f.nextHeapId) && f.nextHeapId == id + 1
    ensures f.heap == old(f.heap)[id := spaceLeft]
    ensures RootLevelHolds(l, f.pages, PageSpaceToCategory(512, spaceLeft))
    ensures forall c: nat :: Value(l, f.pages, 0, c)
                          == if c == id - 1 then PageSpaceToCategory(512, spaceLeft) as int
                            else Value(l, old(f.pages), 0, c)
  {
    NumbersOf512();
    hide *;
    f.ValidIsSound();
    f.SoundPages(0);
    RootOffersNoMore(l, f.pages, f.nextId, v);
    f.ChoiceMeans(bytes);
    ghost var before := f.pages;
    var found := f.FindAvailablePage(bytes);
    id := found.value;
    SameOnRootLevel(l, before, f.pages, v);
    ghost var ready := f.pages;
    f.WritePage(id, spaceLeft);
    var done := f.Update(id, spaceLeft);
    RecordedAtRoot(l, ready, f.pages, id - 1, PageSpaceToCategory(512, spaceLeft), v);
  }
}
