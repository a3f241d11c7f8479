/** The whole index: root handling, allocation, and runs of operations from an empty store. */
module BTreeStates {
  import opened Wrappers
  import opened Entries
  import opened BTree
  import opened BTreeSplit
  import opened BTreeInsert
  import opened BTreeDelete

  /** The root tree (None before the first access) and the allocator. */
  datatype State = State(root: Option<Tree>, alloc: Alloc)

  const EMPTY := State(None, Alloc(None, 0))

  datatype Opened = Opened(tree: Tree, alloc: Alloc)

  /** Reading the root allocates an empty leaf the first time. */
  function Open(s: State): Opened {
    if s.root.Some? then Opened(s.root.value, s.alloc)
    else Opened(BlankPage(NextId(s.alloc), StaleLink(s.alloc)), Next(s.alloc))
  }

  /** A full root is split below a new root. */
  function Grow(d: int, t: Tree, a: Alloc): Opened
    requires Shaped(t) && |t.keys| > 0
  {
    if !IsFull(d, t) then Opened(t, a)
    else
      var s := Split(t, a);
      Opened(Tree(NextId(s.alloc), [s.key], [], [s.left, s.right], StaleLink(s.alloc)), Next(s.alloc))
  }

  lemma GrowShape(d: int, t: Tree, a: Alloc)
    requires Shaped(t) && Balanced(t) && d >= 4 && IsFull(d, t)
    ensures var g := Grow(d, t, a);
            && Shaped(g.tree) && KidsBalanced(g.tree) && !IsLeaf(g.tree) && g.alloc.free == None
            && (a.free == None ==> Balanced(g.tree))
  {
    SplitShape(t, a);
    var s := Split(t, a);
    var g := Grow(d, t, a);
    assert g.tree.kids[0] == s.left;
    forall c | c in g.tree.kids ensures c == s.left || c == s.right {}
  }

  /** The tree an insertion starts from. */
  function Start(d: int, s: State): (o: Opened)
    requires s.root.Some? ==> Shaped(s.root.value) && Balanced(s.root.value)
    requires d >= 4
    ensures Shaped(o.tree) && KidsBalanced(o.tree)
  {
    var o := Open(s);
    if IsFull(d, o.tree) then
      GrowShape(d, o.tree, o.alloc);
      Grow(d, o.tree, o.alloc)
    else o
  }

  datatype InsertResult = InsertResult(state: State, ok: bool)

  ghost predicate RootReady(s: State) {
    s.root.Some? ==> Shaped(s.root.value) && Balanced(s.root.value)
  }

  /** A duplicate is reported only when the root itself is the leaf; below it the error is dropped. */
  function InsertInto(d: int, s: State, key: int, val: Val): InsertResult
    requires RootReady(s) && d >= 4
  {
    var o := Start(d, s);
    if IsLeaf(o.tree) && key in o.tree.keys then InsertResult(State(Some(o.tree), o.alloc), false)
    else
      var r := Insert(d, o.tree, key, val, o.alloc);
      InsertResult(State(Some(r.tree), r.alloc), true)
  }

  datatype DeleteResult = DeleteResult(state: State, value: Option<Val>, freed: seq<FreePage>)

  /** Each released page becomes the head of the free list; the link to the previous head is not stored. */
  function Release(a: Alloc, freed: seq<FreePage>): Alloc {
    if freed == [] then a else Alloc(Some(freed[|freed| - 1]), a.pages)
  }

  /** A root that lost its last key gives way to its only child. */
  function Collapse(t: Tree): (Tree, seq<FreePage>) {
    if t.keys == [] && !IsLeaf(t) then (t.kids[0], [Released(t)]) else (t, [])
  }

  /** The tree after a deletion and a possible change of root. */
  function Remaining(d: int, t: Tree, key: int): Deleted
    requires Shaped(t) && Balanced(t) && d >= 4
  {
    var x := Delete(d, t, key);
    var (u, more) := Collapse(x.tree);
    Deleted(u, x.value, x.freed + more)
  }

  function DeleteFrom(d: int, s: State, key: int): DeleteResult
    requires RootReady(s) && d >= 4
  {
    var o := Open(s);
    var x := Remaining(d, o.tree, key);
    DeleteResult(State(Some(x.tree), Release(o.alloc, x.freed)), x.value, x.freed)
  }

  function Lookup(s: State, key: int): Option<Val>
    requires RootReady(s)
  {
    Find(Open(s).tree, key)
  }

  // -------- the invariant of a store --------

  function Pairs(s: State): seq<Entry> { if s.root.Some? then Flat(s.root.value) else [] }

  function Abs(s: State): map<int, Val> { ToMap(Pairs(s)) }

  function PagesOf(s: State): multiset<int> { if s.root.Some? then Bag(s.root.value) else multiset{} }

  function FreeOf(a: Alloc): multiset<int> { if a.free.Some? then multiset{a.free.value.id} else multiset{} }

  /** Every page in use or on the free list was handed out once and is held once. */
  ghost predicate PagesHeldOnce(held: multiset<int>, a: Alloc) {
    forall x :: (held + FreeOf(a))[x] <= (if 0 <= x < a.pages then 1 else 0)
  }

  ghost predicate Inv(d: int, s: State) {
    && (s.root.Some? ==> Valid(d, s.root.value))
    && (s.root.None? ==> s.alloc == Alloc(None, 0))
    && PagesHeldOnce(PagesOf(s), s.alloc)
  }

  /** The page handed out next is neither in the tree nor, if it is a new one, on the free list. */
  lemma NextPageIsUnused(d: int, s: State)
    requires Inv(d, s)
    ensures NextId(s.alloc) !in PagesOf(s)
    ensures s.alloc.free == None ==> NextId(s.alloc) !in PagesOf(s) + FreeOf(s.alloc)
    ensures PagesHeldOnce(PagesOf(s) + multiset{NextId(s.alloc)}, Next(s.alloc))
  {
    hide PagesOf, Valid;
    var id := NextId(s.alloc);
    assert (PagesOf(s) + FreeOf(s.alloc))[id] <= if 0 <= id < s.alloc.pages then 1 else 0;
    forall x ensures (PagesOf(s) + multiset{id} + FreeOf(Next(s.alloc)))[x]
                  <= (if 0 <= x < Next(s.alloc).pages then 1 else 0)
    {
      assert (PagesOf(s) + FreeOf(s.alloc))[x] <= if 0 <= x < s.alloc.pages then 1 else 0;
    }
  }

  lemma EmptyInv(d: int)
    ensures Inv(d, EMPTY) && Abs(EMPTY) == map[]
  {
  }

  lemma OpenInv(d: int, s: State)
    requires Inv(d, s) && DegreeAccepted(d)
    ensures var o := Open(s);
            Inv(d, State(Some(o.tree), o.alloc)) && Flat(o.tree) == Pairs(s)
  {
    if s.root.None? {
      var t := Open(s).tree;
      LeavesOne(t);
      ChainOne(t, None);
      assert Bag(t) == multiset{0} + BagOf([]);
    }
  }

  // -------- lookup and deletion --------

  lemma LookupIsMapLookup(d: int, s: State, key: int)
    requires Inv(d, s) && DegreeAccepted(d)
    ensures Lookup(s, key) == if key in Abs(s) then Some(Abs(s)[key]) else None
  {
    OpenInv(d, s);
    var t := Open(s).tree;
    FindIsGet(t, key, None, None);
    GetIsLookup(Flat(t), key);
  }

  lemma CollapseValid(d: int, t: Tree)
    requires DegreeAccepted(d) && d >= 6
    requires Shaped(t) && Balanced(t) && Ordered(t, None, None) && FilledKids(d, t)
    requires |t.keys| <= MaxKeys(d) && Chained(Leaves(t), None)
    ensures var (u, more) := Collapse(t);
            && Shaped(u) && Balanced(u) && Ordered(u, None, None) && FilledKids(d, u)
            && |u.keys| <= MaxKeys(d) && (!IsLeaf(u) ==> |u.keys| >= 1)
            && Leaves(u) == Leaves(t) && Bag(u) + IdsOf(more) == Bag(t)
  {
    if t.keys == [] && !IsLeaf(t) {
      assert t.kids[0] in t.kids && t.kids == [t.kids[0]];
      assert KidOrdered(t, 0, None, None);
      LeavesOne(t.kids[0]);
      assert IdsOf([Released(t)]) == multiset{t.id};
    } else {
      assert IdsOf([]) == multiset{};
    }
  }

  /** The released pages keep the books balanced: only the last of them stays reachable. */
  lemma ReleaseHeldOnce(was: multiset<int>, now: multiset<int>, freed: seq<FreePage>, a: Alloc)
    requires PagesHeldOnce(was, a) && now + IdsOf(freed) == was
    ensures PagesHeldOnce(now, Release(a, freed))
  {
    if freed != [] {
      var last := freed[|freed| - 1];
      assert freed == freed[..|freed| - 1] + [last];
      IdsConcat(freed[..|freed| - 1], [last]);
      assert IdsOf([last]) == multiset{last.id};
      forall x ensures (now + FreeOf(Release(a, freed)))[x] <= (if 0 <= x < a.pages then 1 else 0) {
        assert (was + FreeOf(a))[x] <= (if 0 <= x < a.pages then 1 else 0);
      }
    } else {
      assert now == was;
    }
  }

  lemma RemainingTree(d: int, t: Tree, key: int)
    requires DegreeAccepted(d) && d >= 6 && Valid(d, t)
    ensures var x := Remaining(d, t, key);
            && Shaped(x.tree) && Balanced(x.tree) && Ordered(x.tree, None, None) && FilledKids(d, x.tree)
            && |x.tree.keys| <= MaxKeys(d) && (!IsLeaf(x.tree) ==> |x.tree.keys| >= 1)
            && Chained(Leaves(x.tree), None)
            && Flat(x.tree) == Del(Flat(t), key) && x.value == Get(Flat(t), key)
            && Bag(x.tree) + IdsOf(x.freed) == Bag(t)
  {
    hide Leaves, EntriesOf, Bag, Delete, Ordered, IdsOf, Get, Del;
    DeleteShape(d, t, key);
    DeleteRefines(d, t, key, None, None);
    DeleteFilled(d, t, key);
    DeleteChained(d, t, key, None);
    DeleteBag(d, t, key);
    var x := Delete(d, t, key);
    CollapseValid(d, x.tree);
    IdsConcat(x.freed, Collapse(x.tree).1);
  }

  lemma DeleteRefinesMap(d: int, s: State, key: int)
    requires Inv(d, s) && DegreeAccepted(d) && d >= 6
    ensures var x := DeleteFrom(d, s, key);
            && Inv(d, x.state)
            && Abs(x.state) == Abs(s) - {key}
            && x.value == (if key in Abs(s) then Some(Abs(s)[key]) else None)
            && PagesOf(x.state) + IdsOf(x.freed) == Bag(Open(s).tree)
  {
    hide Delete, Bag, Leaves, EntriesOf, Get, Del, ToMap, IdsOf;
    OpenInv(d, s);
    var o := Open(s);
    RemainingTree(d, o.tree, key);
    var x := Remaining(d, o.tree, key);
    ReleaseHeldOnce(Bag(o.tree), Bag(x.tree), x.freed, o.alloc);
    BagDistinct(x.tree, Release(o.alloc, x.freed));
    FlatWithin(o.tree, None, None);
    DelIsRemoval(Flat(o.tree), key);
    GetIsLookup(Flat(o.tree), key);
  }

  lemma BagDistinct(t: Tree, a: Alloc)
    requires PagesHeldOnce(Bag(t), a)
    ensures Distinct(t)
  {
    forall x ensures Bag(t)[x] <= 1 {
      assert (Bag(t) + FreeOf(a))[x] <= 1;
    }
  }

  // -------- insertion --------

  /** What a caller can check before inserting: no split would take the page of the free
      list, and no split of a last child would promote the key itself. */
  predicate SafeInsert(d: int, s: State, key: int)
    requires RootReady(s) && d >= 4
  {
    var o := Start(d, s);
    && (IsFull(d, Open(s).tree) ==> Open(s).alloc.free == None)
    && Safe(d, o.tree, key, o.alloc)
  }

  lemma GrowValid(d: int, t: Tree, a: Alloc)
    requires DegreeAccepted(d) && d >= 6 && Valid(d, t) && a.free == None && IsFull(d, t)
    ensures var g := Grow(d, t, a);
            && Shaped(g.tree) && Balanced(g.tree) && Ordered(g.tree, None, None) && FilledKids(d, g.tree)
            && |g.tree.keys| == 1 && !IsLeaf(g.tree)
            && Chained(Leaves(g.tree), None) && Flat(g.tree) == Flat(t)
            && g.alloc == Alloc(None, a.pages + 2) && Bag(g.tree) == Bag(t) + Range(a.pages, a.pages + 2)
  {
    hide Leaves, EntriesOf, Bag, LeftHalf, RightHalf, Ordered, Distinct;
    GrowShape(d, t, a);
    SplitFilled(d, t, a);
    SplitFresh(t, a);
    HalvesOrdered(t, a.pages, None, None, None);
    HalvesLeaves(t, a.pages, None, None);
    TwoHalves(d, Split(t, a), a.pages + 1);
    RangeOne(a.pages);
    RangeOne(a.pages + 1);
    RangeSplit(a.pages, a.pages + 1, a.pages + 2);
  }

  /** A root with one key above two halves. */
  lemma TwoHalves(d: int, s: SplitResult, id: int)
    requires Ordered(s.left, None, Some(s.key)) && Ordered(s.right, Some(s.key), None)
    requires Filled(d, s.left) && Filled(d, s.right)
    ensures var u := Tree(id, [s.key], [], [s.left, s.right], None);
            && Ordered(u, None, None) && FilledKids(d, u)
            && Leaves(u) == Leaves(s.left) + Leaves(s.right)
            && Bag(u) == multiset{id} + (Bag(s.left) + Bag(s.right))
  {
    var u := Tree(id, [s.key], [], [s.left, s.right], None);
    PairLeaves(s.left, s.right);
    forall c | c in u.kids ensures Filled(d, c) { assert c == s.left || c == s.right; }
    forall i | 0 <= i < 2 ensures KidOrdered(u, i, None, None) {}
  }

  lemma InsertHeldOnce(was: multiset<int>, now: multiset<int>, a: Alloc, b: Alloc)
    requires PagesHeldOnce(was, a) && a.pages <= b.pages && b.free == a.free
    requires now == was + Range(a.pages, b.pages)
    ensures PagesHeldOnce(now, b)
  {
    forall x ensures (now + FreeOf(b))[x] <= (if 0 <= x < b.pages then 1 else 0) {
      RangeMember(a.pages, b.pages, x);
      assert (was + FreeOf(a))[x] <= (if 0 <= x < a.pages then 1 else 0);
    }
  }

  /** Inserting into a tree that meets the invariant, apart from being a fresh root of two halves. */
  lemma InsertValid(d: int, t: Tree, key: int, val: Val, a: Alloc)
    requires DegreeAccepted(d) && d >= 6 && Shaped(t) && Balanced(t) && Safe(d, t, key, a)
    requires Ordered(t, None, None) && FilledKids(d, t) && !IsFull(d, t)
    requires !IsLeaf(t) ==> |t.keys| >= 1
    requires Chained(Leaves(t), None) && PagesHeldOnce(Bag(t), a)
    ensures var r := Insert(d, t, key, val, a);
            && Inv(d, State(Some(r.tree), r.alloc)) && Flat(r.tree) == Ins(Flat(t), key, val)
            && (IsLeaf(r.tree) <==> IsLeaf(t))
  {
    InsertShape(d, t, key, val, a);
    InsertRefines(d, t, key, val, a, None, None);
    InsertFilled(d, t, key, val, a);
    InsertChained(d, t, key, val, a, None);
    InsertBag(d, t, key, val, a);
    var r := Insert(d, t, key, val, a);
    InsertHeldOnce(Bag(t), Bag(r.tree), a, r.alloc);
    BagDistinct(r.tree, r.alloc);
  }

  lemma StartValid(d: int, s: State)
    requires Inv(d, s) && DegreeAccepted(d) && d >= 6
    requires IsFull(d, Open(s).tree) ==> Open(s).alloc.free == None
    ensures var o := Start(d, s);
            && Shaped(o.tree) && Balanced(o.tree) && Ordered(o.tree, None, None) && FilledKids(d, o.tree)
            && !IsFull(d, o.tree) && (!IsLeaf(o.tree) ==> |o.tree.keys| >= 1)
            && Chained(Leaves(o.tree), None) && PagesHeldOnce(Bag(o.tree), o.alloc)
            && Flat(o.tree) == Pairs(s)
  {
    OpenInv(d, s);
    var o := Open(s);
    if IsFull(d, o.tree) {
      GrowValid(d, o.tree, o.alloc);
      var g := Grow(d, o.tree, o.alloc);
      InsertHeldOnce(Bag(o.tree), Bag(g.tree), o.alloc, g.alloc);
    }
  }

  lemma LeafKeys(t: Tree, key: int)
    requires Shaped(t) && IsLeaf(t)
    ensures key in t.keys <==> key in ToMap(Flat(t))
  {
    LeavesOne(t);
    ToMapKeys(Flat(t), key);
    if key in t.keys {
      var q :| 0 <= q < |t.keys| && t.keys[q] == key;
      assert Flat(t)[q].0 == key;
    }
  }

  /** A safe insertion adds an absent key and changes nothing for a present one;
      an error is only returned for a present key. */
  lemma SafeInsertRefinesMap(d: int, s: State, key: int, val: Val)
    requires Inv(d, s) && DegreeAccepted(d) && d >= 6 && SafeInsert(d, s, key)
    ensures var r := InsertInto(d, s, key, val);
            && Inv(d, r.state)
            && Abs(r.state) == (if key in Abs(s) then Abs(s) else Abs(s)[key := val])
            && (!r.ok ==> key in Abs(s))
  {
    StartValid(d, s);
    var o := Start(d, s);
    FlatWithin(o.tree, None, None);
    InsIsUpdate(Flat(o.tree), key, val);
    if IsLeaf(o.tree) && key in o.tree.keys {
      LeafKeys(o.tree, key);
      OpenInv(d, s);
    } else {
      InsertValid(d, o.tree, key, val, o.alloc);
    }
  }

  /** A duplicate at a root leaf changes nothing, so the answer is the only difference. */
  lemma InsertIntoIs(d: int, s: State, key: int, val: Val)
    requires RootReady(s) && d >= 4
    ensures var o := Start(d, s);
            var r := Insert(d, o.tree, key, val, o.alloc);
            var x := InsertInto(d, s, key, val);
            && x.state == State(Some(r.tree), r.alloc)
            && (x.ok <==> !(IsLeaf(o.tree) && key in o.tree.keys))
  {
  }

  /** The guard is exact: an insertion leaves the map and the search order as they should be
      if and only if it holds. */
  lemma InsertIsRightExactlyWhenSafe(d: int, s: State, key: int, val: Val)
    requires Inv(d, s) && DegreeAccepted(d) && d >= 6
    ensures var u := InsertInto(d, s, key, val).state;
            SafeInsert(d, s, key) <==>
            (Ordered(u.root.value, None, None) && Pairs(u) == Ins(Pairs(s), key, val))
  {
    if !SafeInsert(d, s, key) {
      UnsafeInsertLoses(d, s, key, val);
      InsLength(Pairs(s), key, val);
    } else {
      StartValid(d, s);
      var o := Start(d, s);
      if IsLeaf(o.tree) && key in o.tree.keys {
        LeafDuplicate(o.tree, key, val);
      } else {
        InsertValid(d, o.tree, key, val, o.alloc);
      }
    }
  }

  /** The same for the map: it is right, in a store that is in order, if and only if the guard holds. */
  lemma MapIsRightExactlyWhenSafe(d: int, s: State, key: int, val: Val)
    requires Inv(d, s) && DegreeAccepted(d) && d >= 6
    ensures var u := InsertInto(d, s, key, val).state;
            SafeInsert(d, s, key) <==>
            Inv(d, u) && Abs(u) == if key in Abs(s) then Abs(s) else Abs(s)[key := val]
  {
    hide SafeInsert, InsertInto, PagesOf, PagesHeldOnce, Ins, ToMap, Flat;
    var u := InsertInto(d, s, key, val).state;
    InsertionGivesARoot(d, s, key, val);
    if SafeInsert(d, s, key) { SafeInsertRefinesMap(d, s, key, val); }
    InsertIsRightExactlyWhenSafe(d, s, key, val);
    PairsSorted(d, s);
    InsSorted(Pairs(s), key, val);
    InsIsUpdate(Pairs(s), key, val);
    if Inv(d, u) {
      PairsSorted(d, u);
      if ToMap(Pairs(u)) == ToMap(Ins(Pairs(s), key, val)) { MapDeterminesList(Pairs(u), Ins(Pairs(s), key, val)); }
    }
  }

  /** Without the guard the order is lost, or pairs are. */
  lemma UnsafeInsertLoses(d: int, s: State, key: int, val: Val)
    requires Inv(d, s) && DegreeAccepted(d) && d >= 6 && !SafeInsert(d, s, key)
    ensures var u := InsertInto(d, s, key, val).state;
            !Ordered(u.root.value, None, None) || |Pairs(u)| < |Pairs(s)|
  {
    OpenInv(d, s);
    var p := Open(s);
    var o := Start(d, s);
    if IsFull(d, p.tree) && p.alloc.free.Some? {
      ReuseAtRootLoses(d, p.tree, key, val, p.alloc);
    } else {
      StartValid(d, s);
      if !KeepsHalves(d, o.tree, key, o.alloc) {
        ReuseLoses(d, o.tree, key, val, o.alloc);
      } else if o.alloc.free.Some? {
        NoSplitNoSeparator(d, o.tree, key, o.alloc);
      } else {
        SeparatorBreaksOrder(d, o.tree, key, val, o.alloc, None, None, None, None);
      }
    }
  }

  /** An insertion leaves the map as it was, in a store that is in order, if and only if the guard holds
      and the key was there. */
  lemma MapIsKeptExactlyWhenPresent(d: int, s: State, key: int, val: Val)
    requires Inv(d, s) && DegreeAccepted(d) && d >= 6
    ensures var u := InsertInto(d, s, key, val).state;
            Inv(d, u) && Abs(u) == Abs(s) <==> SafeInsert(d, s, key) && key in Abs(s)
  {
    hide SafeInsert, InsertInto, PagesOf, PagesHeldOnce, ToMap, Flat;
    var u := InsertInto(d, s, key, val).state;
    InsertionGivesARoot(d, s, key, val);
    if SafeInsert(d, s, key) {
      SafeInsertRefinesMap(d, s, key, val);
    } else if Inv(d, u) && Abs(u) == Abs(s) {
      UnsafeInsertLoses(d, s, key, val);
      PairsSorted(d, s);
      PairsSorted(d, u);
      MapDeterminesList(Pairs(u), Pairs(s));
    }
  }

  /** The root is a leaf with room that holds the key. */
  ghost predicate Refuses(d: int, s: State, key: int)
    requires RootReady(s) && d >= 4
  {
    s.root.Some? && IsLeaf(s.root.value) && !IsFull(d, s.root.value) && key in s.root.value.keys
  }

  /** An insertion is refused there and nowhere else, and then nothing changes. */
  lemma RefusedExactlyWhen(d: int, s: State, key: int, val: Val)
    requires RootReady(s) && d >= 4
    ensures var r := InsertInto(d, s, key, val);
            && (r.ok <==> !Refuses(d, s, key)) && (!r.ok ==> r.state == s)
    ensures Refuses(d, s, key) ==> SafeInsert(d, s, key)
    ensures Refuses(d, s, key) && Inv(d, s) ==> key in Abs(s)
  {
    if s.root.Some? && IsFull(d, s.root.value) { GrowShape(d, s.root.value, s.alloc); }
    if Refuses(d, s, key) { LeafKeys(s.root.value, key); }
  }

  lemma InsertionGivesARoot(d: int, s: State, key: int, val: Val)
    requires RootReady(s) && d >= 4
    ensures InsertInto(d, s, key, val).state.root.Some?
  {
  }

  lemma PairsSorted(d: int, s: State)
    requires Inv(d, s)
    ensures Sorted(Pairs(s))
    ensures s.root.Some? ==> Ordered(s.root.value, None, None)
  {
    if s.root.Some? { FlatWithin(s.root.value, None, None); }
  }

  lemma LeafDuplicate(t: Tree, key: int, val: Val)
    requires Shaped(t) && IsLeaf(t) && SortedKeys(t.keys) && key in t.keys
    ensures Ins(Flat(t), key, val) == Flat(t)
  {
    InsertLeafFlat(t, key, val);
  }

  lemma ReuseAtRootLoses(d: int, t: Tree, key: int, val: Val, a: Alloc)
    requires DegreeAccepted(d) && d >= 6 && Valid(d, t) && a.free.Some? && IsFull(d, t)
    ensures var g := Grow(d, t, a);
            && Shaped(g.tree) && KidsBalanced(g.tree)
            && |Flat(Insert(d, g.tree, key, val, g.alloc).tree)| < |Flat(t)|
  {
    GrowShape(d, t, a);
    var g := Grow(d, t, a);
    var s := Split(t, a);
    var r := RightHalf(t, NextId(a), StaleLink(a));
    InsertGrowth(d, g.tree, key, val, g.alloc);
    assert g.tree.kids == [s.left, s.right];
    PairLeaves(s.left, s.right);
    EntriesConcat(Leaves(s.left), Leaves(s.right));
    BlankHoldsNothing(NextId(a), StaleLink(a));
    HalvesLeaves(t, NextId(a), StaleLink(a), None);
    EntriesConcat(Leaves(s.left), Leaves(r));
    RightHalfPairs(d, t, NextId(a), StaleLink(a));
  }

  // -------- runs --------

  datatype Op = InsertOp(key: int, val: Val) | DeleteOp(key: int) | FindOp(key: int)

  datatype Answer = Accepted | Duplicate | Got(value: Option<Val>)

  datatype StepResult = StepResult(state: State, answer: Answer)

  function Apply(d: int, s: State, op: Op): StepResult
    requires RootReady(s) && d >= 4
  {
    match op
    case InsertOp(k, v) =>
      var r := InsertInto(d, s, k, v);
      StepResult(r.state, if r.ok then Accepted else Duplicate)
    case DeleteOp(k) =>
      var x := DeleteFrom(d, s, k);
      StepResult(x.state, Got(x.value))
    case FindOp(k) =>
      var o := Open(s);
      StepResult(State(Some(o.tree), o.alloc), Got(Lookup(s, k)))
  }

  /** The finite map after one operation. */
  function MapAfter(m: map<int, Val>, op: Op): map<int, Val> {
    match op
    case InsertOp(k, v) => if k in m then m else m[k := v]
    case DeleteOp(k) => m - {k}
    case FindOp(_) => m
  }

  /** The answers a finite map allows. */
  predicate Allowed(m: map<int, Val>, op: Op, answer: Answer) {
    match op
    case InsertOp(k, _) => answer == Accepted || (answer == Duplicate && k in m)
    case DeleteOp(k) => answer == Got(if k in m then Some(m[k]) else None)
    case FindOp(k) => answer == Got(if k in m then Some(m[k]) else None)
  }

  predicate SafeOp(d: int, s: State, op: Op)
    requires RootReady(s) && d >= 4
  {
    op.InsertOp? ==> SafeInsert(d, s, op.key)
  }

  lemma StepRefinesMap(d: int, s: State, op: Op)
    requires Inv(d, s) && DegreeAccepted(d) && d >= 6 && SafeOp(d, s, op)
    ensures var r := Apply(d, s, op);
            && Inv(d, r.state) && Abs(r.state) == MapAfter(Abs(s), op) && Allowed(Abs(s), op, r.answer)
  {
    hide InsertInto, DeleteFrom, SafeInsert, Lookup, Leaves, EntriesOf, ToMap, Valid;
    match op
    case InsertOp(k, v) => SafeInsertRefinesMap(d, s, k, v);
    case DeleteOp(k) => DeleteRefinesMap(d, s, k);
    case FindOp(k) =>
      LookupIsMapLookup(d, s, k);
      OpenInv(d, s);
  }

  datatype Run = Run(state: State, answers: seq<Answer>)

  /** The run goes on as long as the invariant that makes the next step well defined holds. */
  ghost function Execute(d: int, s: State, ops: seq<Op>): Run
    requires d >= 4
    decreases |ops|
  {
    if ops == [] || !RootReady(s) then Run(s, [])
    else
      var r := Apply(d, s, ops[0]);
      var rest := Execute(d, r.state, ops[1..]);
      Run(rest.state, [r.answer] + rest.answers)
  }

  /** Every insertion of the run meets the guard. */
  ghost predicate SafeRun(d: int, s: State, ops: seq<Op>)
    requires d >= 4
    decreases |ops|
  {
    ops == [] || (RootReady(s) && SafeOp(d, s, ops[0]) && SafeRun(d, Apply(d, s, ops[0]).state, ops[1..]))
  }

  function MapRun(m: map<int, Val>, ops: seq<Op>): map<int, Val>
    decreases |ops|
  {
    if ops == [] then m else MapRun(MapAfter(m, ops[0]), ops[1..])
  }

  predicate AllAllowed(m: map<int, Val>, ops: seq<Op>, answers: seq<Answer>)
    decreases |ops|
  {
    |answers| == |ops| &&
    (ops == [] || (Allowed(m, ops[0], answers[0]) && AllAllowed(MapAfter(m, ops[0]), ops[1..], answers[1..])))
  }

  /** Every safe run refines a finite map, answer by answer, and keeps the whole invariant. */
  lemma {:induction false} RunRefinesMap(d: int, s: State, ops: seq<Op>)
    requires Inv(d, s) && DegreeAccepted(d) && d >= 6 && SafeRun(d, s, ops)
    ensures var r := Execute(d, s, ops);
            && Inv(d, r.state) && Abs(r.state) == MapRun(Abs(s), ops) && AllAllowed(Abs(s), ops, r.answers)
    decreases |ops|
  {
    if ops != [] {
      StepRefinesMap(d, s, ops[0]);
      RunRefinesMap(d, Apply(d, s, ops[0]).state, ops[1..]);
      assert Execute(d, s, ops).answers[1..] == Execute(d, Apply(d, s, ops[0]).state, ops[1..]).answers;
    }
  }

  lemma SafeRunFromEmpty(d: int, ops: seq<Op>)
    requires DegreeAccepted(d) && d >= 6 && SafeRun(d, EMPTY, ops)
    ensures var r := Execute(d, EMPTY, ops);
            && Inv(d, r.state) && Abs(r.state) == MapRun(map[], ops) && AllAllowed(map[], ops, r.answers)
  {
    EmptyInv(d);
    RunRefinesMap(d, EMPTY, ops);
  }
}
