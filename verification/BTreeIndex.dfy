/** The index as its users see it: a store of pages with a root, and scans along the leaf chain. */
module BTreeScan {
  import opened Wrappers
  import opened Entries
  import opened BTree
  import opened BTreeInsert
  import opened StoredTrees

  // -------- leaves of a tree --------

  function LeafIds(ls: seq<Tree>): multiset<int> {
    if ls == [] then multiset{} else multiset{ls[0].id} + LeafIds(ls[1..])
  }

  lemma {:induction false} LeafIdsConcat(a: seq<Tree>, b: seq<Tree>)
    ensures LeafIds(a + b) == LeafIds(a) + LeafIds(b)
  {
    if a == [] {
      assert a + b == b;
    } else {
      assert (a + b)[1..] == a[1..] + b;
      LeafIdsConcat(a[1..], b);
    }
  }

  lemma {:induction false} LeafIdsInBag(t: Tree)
    ensures LeafIds(Leaves(t)) <= Bag(t)
    decreases t, 1
  {
    if IsLeaf(t) {
      assert Leaves(t)[1..] == [];
      assert LeafIds(Leaves(t)) == multiset{t.id};
    } else {
      LeafIdsOfInBag(t.kids);
    }
  }

  lemma {:induction false} LeafIdsOfInBag(ts: seq<Tree>)
    ensures LeafIds(LeavesOf(ts)) <= BagOf(ts)
    decreases ts, 0
  {
    if ts != [] {
      LeafIdsInBag(ts[0]);
      LeafIdsOfInBag(ts[1..]);
      LeafIdsConcat(Leaves(ts[0]), LeavesOf(ts[1..]));
    }
  }

  /** No two leaves share a page. */
  lemma LeavesApart(t: Tree, i: nat, j: nat)
    requires Distinct(t) && i < j < |Leaves(t)|
    ensures Leaves(t)[i].id != Leaves(t)[j].id
  {
    var ls := Leaves(t);
    var x := ls[i].id;
    LeafIdsInBag(t);
    assert ls == ls[..j] + ls[j..];
    LeafIdsConcat(ls[..j], ls[j..]);
    assert ls[..j] == ls[..i] + ls[i..j];
    LeafIdsConcat(ls[..i], ls[i..j]);
    assert x in LeafIds(ls[i..j]);
    assert ls[j].id in LeafIds(ls[j..]);
    assert Bag(t)[x] <= 1;
  }

  /** Every leaf is a leaf, and persisted as it should be. */
  lemma {:induction false} LeavesStored(p: map<int, PageImage>, t: Tree, i: nat)
    requires Shaped(t) && Stored(p, t) && i < |Leaves(t)|
    ensures var l := Leaves(t)[i];
            IsLeaf(l) && |l.keys| == |l.vals| && l.id in p && p[l.id] == ImageOf(l)
    decreases t, 1
  {
    if !IsLeaf(t) { LeavesOfStored(p, t.kids, i); }
  }

  lemma {:induction false} LeavesOfStored(p: map<int, PageImage>, ts: seq<Tree>, i: nat)
    requires forall c {:trigger c in ts} :: c in ts ==> Shaped(c) && Stored(p, c)
    requires i < |LeavesOf(ts)|
    ensures var l := LeavesOf(ts)[i];
            IsLeaf(l) && |l.keys| == |l.vals| && l.id in p && p[l.id] == ImageOf(l)
    decreases ts, 0
  {
    assert ts[0] in ts;
    if i < |Leaves(ts[0])| {
      LeavesStored(p, ts[0], i);
    } else {
      forall c | c in ts[1..] ensures Shaped(c) && Stored(p, c) { assert c in ts; }
      LeavesOfStored(p, ts[1..], i - |Leaves(ts[0])|);
    }
  }

  // -------- what a scan returns --------

  function Values(f: seq<Entry>): seq<Val> { seq(|f|, i requires 0 <= i < |f| => f[i].1) }

  predicate Wanted(k: int, key: int, smaller: bool, withEqual: bool) {
    (if smaller then k < key else k > key) || (withEqual && k == key)
  }

  /** The values of the wanted pairs, in the order of the list. */
  function Select(f: seq<Entry>, key: int, smaller: bool, withEqual: bool): seq<Val> {
    if f == [] then []
    else (if Wanted(f[0].0, key, smaller, withEqual) then [f[0].1] else [])
         + Select(f[1..], key, smaller, withEqual)
  }

  /** The values of some keys, taken from a map in ascending order of the keys. */
  ghost predicate InKeyOrder(m: map<int, Val>, ks: seq<int>, result: seq<Val>) {
    && (forall i, j :: 0 <= i < j < |ks| ==> ks[i] < ks[j])
    && |result| == |ks| && forall i :: 0 <= i < |ks| ==> ks[i] in m && result[i] == m[ks[i]]
  }

  lemma {:induction false} SelectedKeys(f: seq<Entry>, key: int, smaller: bool, withEqual: bool) returns (ks: seq<int>)
    requires Sorted(f)
    ensures InKeyOrder(ToMap(f), ks, Select(f, key, smaller, withEqual))
    ensures forall k :: k in ks <==>
              k in ToMap(f) && ((withEqual && k == key) || (smaller && k < key) || (!smaller && key < k))
  {
    ks := [];
    if f != [] {
      var rest := SelectedKeys(f[1..], key, smaller, withEqual);
      var head := if Wanted(f[0].0, key, smaller, withEqual) then [f[0].0] else [];
      ks := head + rest;
      FirstKeyIsLeast(f);
      FirstIsNotBehind(f);
    }
  }

  lemma FirstIsNotBehind(f: seq<Entry>)
    requires Sorted(f) && f != []
    ensures forall k :: k in ToMap(f[1..]) ==> f[0].0 < k
  {
    forall k | k in ToMap(f[1..]) ensures f[0].0 < k {
      ToMapKeys(f[1..], k);
      var i :| 0 <= i < |f[1..]| && f[1..][i].0 == k;
      assert f[i + 1].0 == k;
    }
  }

  lemma {:induction false} SelectConcat(a: seq<Entry>, b: seq<Entry>, key: int, smaller: bool, withEqual: bool)
    ensures Select(a + b, key, smaller, withEqual)
         == Select(a, key, smaller, withEqual) + Select(b, key, smaller, withEqual)
  {
    if a == [] {
      assert a + b == b;
    } else {
      assert (a + b)[1..] == a[1..] + b && (a + b)[0] == a[0];
      SelectConcat(a[1..], b, key, smaller, withEqual);
      var head := if Wanted(a[0].0, key, smaller, withEqual) then [a[0].1] else [];
      var x, y := Select(a[1..], key, smaller, withEqual), Select(b, key, smaller, withEqual);
      assert head + (x + y) == (head + x) + y;
    }
  }

  lemma {:induction false} SelectAll(f: seq<Entry>, key: int, smaller: bool, withEqual: bool)
    requires forall i :: 0 <= i < |f| ==> Wanted(f[i].0, key, smaller, withEqual)
    ensures Select(f, key, smaller, withEqual) == Values(f)
  {
    if f != [] {
      SelectAll(f[1..], key, smaller, withEqual);
      assert Values(f) == [f[0].1] + Values(f[1..]);
    }
  }

  lemma {:induction false} SelectNone(f: seq<Entry>, key: int, smaller: bool, withEqual: bool)
    requires forall i :: 0 <= i < |f| ==> !Wanted(f[i].0, key, smaller, withEqual)
    ensures Select(f, key, smaller, withEqual) == []
  {
    if f != [] { SelectNone(f[1..], key, smaller, withEqual); }
  }

  lemma {:induction false} SelectSnoc(f: seq<Entry>, n: nat, key: int, smaller: bool, withEqual: bool)
    requires n < |f|
    ensures Select(f[..n + 1], key, smaller, withEqual)
         == Select(f[..n], key, smaller, withEqual)
            + if Wanted(f[n].0, key, smaller, withEqual) then [f[n].1] else []
  {
    assert f[..n + 1] == f[..n] + [f[n]];
    SelectConcat(f[..n], [f[n]], key, smaller, withEqual);
    assert [f[n]][1..] == [];
  }

  /** The pairs around leaf m: those before it, its own, and those behind it. */
  lemma LeafCut(ls: seq<Tree>, m: nat)
    requires m < |ls|
    ensures EntriesOf(ls) == EntriesOf(ls[..m]) + LeafEntries(ls[m]) + EntriesOf(ls[m + 1..])
  {
    hide *;
    var a, b := ls[..m], ls[m + 1..];
    assert ls == a + [ls[m]] + b;
    EntriesCut(a, [ls[m]], b);
    LeavesOne(ls[m]);
  }

  lemma LeafCutLeft(ls: seq<Tree>, m: nat)
    requires m < |ls|
    ensures EntriesOf(ls[..m + 1]) == EntriesOf(ls[..m]) + LeafEntries(ls[m])
  {
    hide *;
    LeavesOne(ls[m]);
    EntriesConcat(ls[..m], [ls[m]]);
    assert ls[..m + 1] == ls[..m] + [ls[m]];
  }

  /** In a sorted list everything before a position is smaller, everything behind it greater. */
  lemma SortedAround(a: seq<Entry>, b: seq<Entry>, c: seq<Entry>, q: nat)
    requires q < |b| && Sorted(a + b + c)
    ensures AllBelow(a, b[q].0) && AllAbove(c, b[q].0)
  {
    var f := a + b + c;
    assert f[|a| + q] == b[q];
    forall i | 0 <= i < |a| ensures a[i].0 < b[q].0 { assert f[i] == a[i]; }
    forall i | 0 <= i < |c| ensures b[q].0 < c[i].0 { assert f[|a| + |b| + i] == c[i]; }
  }

  /** Around a key that leaf m holds, earlier leaves are smaller and later ones greater. */
  lemma LeafSeparates(ls: seq<Tree>, m: nat, key: int)
    requires m < |ls| && Sorted(EntriesOf(ls)) && |ls[m].keys| == |ls[m].vals| && key in ls[m].keys
    ensures AllBelow(EntriesOf(ls[..m]), key) && AllAbove(EntriesOf(ls[m + 1..]), key)
  {
    var q :| 0 <= q < |ls[m].keys| && ls[m].keys[q] == key;
    assert LeafEntries(ls[m])[q].0 == key;
    hide EntriesOf, LeafEntries;
    LeafCut(ls, m);
    SortedAround(EntriesOf(ls[..m]), LeafEntries(ls[m]), EntriesOf(ls[m + 1..]), q);
  }

  lemma SelectSmaller(a: seq<Entry>, b: seq<Entry>, c: seq<Entry>, key: int, withEqual: bool)
    requires AllBelow(a, key) && AllAbove(c, key)
    ensures Select(a + b + c, key, true, withEqual) == Values(a) + Select(b, key, true, withEqual)
  {
    SelectAll(a, key, true, withEqual);
    SelectNone(c, key, true, withEqual);
    hide Select, Values;
    SelectConcat(a + b, c, key, true, withEqual);
    SelectConcat(a, b, key, true, withEqual);
  }

  lemma SelectGreater(a: seq<Entry>, b: seq<Entry>, c: seq<Entry>, key: int, withEqual: bool)
    requires AllBelow(a, key) && AllAbove(c, key)
    ensures Select(a + b + c, key, false, withEqual) == Select(b, key, false, withEqual) + Values(c)
  {
    SelectNone(a, key, false, withEqual);
    SelectAll(c, key, false, withEqual);
    hide Select, Values;
    SelectConcat(a + b, c, key, false, withEqual);
    SelectConcat(a, b, key, false, withEqual);
  }

  lemma SmallerByLeaves(ls: seq<Tree>, m: nat, key: int, withEqual: bool)
    requires m < |ls| && Sorted(EntriesOf(ls)) && |ls[m].keys| == |ls[m].vals| && key in ls[m].keys
    ensures Select(EntriesOf(ls), key, true, withEqual)
         == Values(EntriesOf(ls[..m])) + Select(LeafEntries(ls[m]), key, true, withEqual)
  {
    hide *;
    LeafCut(ls, m);
    LeafSeparates(ls, m, key);
    SelectSmaller(EntriesOf(ls[..m]), LeafEntries(ls[m]), EntriesOf(ls[m + 1..]), key, withEqual);
  }

  lemma GreaterByLeaves(ls: seq<Tree>, m: nat, key: int, withEqual: bool)
    requires m < |ls| && Sorted(EntriesOf(ls)) && |ls[m].keys| == |ls[m].vals| && key in ls[m].keys
    ensures Select(EntriesOf(ls), key, false, withEqual)
         == Select(LeafEntries(ls[m]), key, false, withEqual) + Values(EntriesOf(ls[m + 1..]))
  {
    hide *;
    LeafCut(ls, m);
    LeafSeparates(ls, m, key);
    SelectGreater(EntriesOf(ls[..m]), LeafEntries(ls[m]), EntriesOf(ls[m + 1..]), key, withEqual);
  }

  /** The values of leaves m up to, but not including, n. */
  function Stretch(ls: seq<Tree>, m: nat, n: nat): seq<Val>
    requires m <= n <= |ls|
  {
    Values(EntriesOf(ls[m..n]))
  }

  lemma StretchStep(ls: seq<Tree>, m: nat, n: nat)
    requires m <= n < |ls| && |ls[n].keys| == |ls[n].vals|
    ensures Stretch(ls, m, n + 1) == Stretch(ls, m, n) + ls[n].vals
  {
    var part := ls[m..n + 1];
    assert part[..n - m] == ls[m..n] && part[..n - m + 1] == part && part[n - m] == ls[n];
    LeafCutLeft(part, n - m);
    ValuesConcat(EntriesOf(ls[m..n]), LeafEntries(ls[n]));
    assert Values(LeafEntries(ls[n])) == ls[n].vals;
  }

  lemma ValuesConcat(a: seq<Entry>, b: seq<Entry>)
    ensures Values(a + b) == Values(a) + Values(b)
  {
  }

  lemma StretchEnds(ls: seq<Tree>, m: nat)
    requires m <= |ls|
    ensures Stretch(ls, m, m) == []
    ensures Stretch(ls, 0, m) == Values(EntriesOf(ls[..m]))
    ensures Stretch(ls, m, |ls|) == Values(EntriesOf(ls[m..]))
  {
    assert ls[m..m] == [] && ls[0..m] == ls[..m] && ls[m..|ls|] == ls[m..];
  }

  /** The leaf a lookup ends in, by its position. */
  lemma {:induction false} FoundLeafIndex(t: Tree, key: int) returns (m: nat)
    requires Shaped(t)
    ensures m < |Leaves(t)| && Leaves(t)[m] == FindLeaf(t, key)
  {
    if IsLeaf(t) {
      m := 0;
    } else {
      var i := ChildIndex(t.keys, key);
      assert t.kids[i] in t.kids;
      var k := FoundLeafIndex(t.kids[i], key);
      KidCut(t, i);
      m := |LeavesOf(t.kids[..i])| + k;
    }
  }
}

module BTreeIndex {
  import opened Wrappers
  import opened Entries
  import opened BTree
  import opened BTreeSplit
  import opened BTreeInsert
  import opened BTreeDelete
  import opened BTreeStates
  import opened StoredTrees
  import opened PageNodes
  import opened BTreeScan
  import opened BTreeLinks

  datatype StoreError = InvalidConfiguration | NodeOperation

  /** A split root and its new parent use the pages of the root, the free page and fresh ones. */
  lemma GrowHolds(d: int, t: Tree, a: Alloc)
    requires Shaped(t) && |t.keys| > 1 && IsFull(d, t)
    ensures var g := Grow(d, t, a);
            && Bag(g.tree) + FreeOf(g.alloc) <= Bag(t) + FreeOf(a) + Range(a.pages, g.alloc.pages)
            && a.pages <= g.alloc.pages
  {
    var s := Split(t, a);
    var g := Grow(d, t, a);
    HalvesHold(t, a);
    PairLeaves(s.left, s.right);
    assert g.tree.kids == [s.left, s.right];
    assert Bag(g.tree) == multiset{g.tree.id} + (Bag(s.left) + Bag(s.right));
    GrowFacts(d, t, a);
    GrowArith(Bag(s.left) + Bag(s.right), Bag(t), a);
  }

  lemma GrowArith(lr: multiset<int>, t: multiset<int>, a: Alloc)
    requires lr <= t + multiset{NextId(a)}
    ensures var b := Next(a);
            multiset{NextId(b)} + lr + FreeOf(Next(b)) <= t + FreeOf(a) + Range(a.pages, Next(b).pages)
  {
    RangeOne(a.pages);
    RangeOne(a.pages + 1);
    RangeSplit(a.pages, a.pages + 1, a.pages + 2);
  }

  lemma HalvesHold(t: Tree, a: Alloc)
    requires Shaped(t) && |t.keys| > 1
    ensures Bag(Split(t, a).left) + Bag(Split(t, a).right) <= Bag(t) + multiset{NextId(a)}
  {
    SplitParts(t, a);
    HalvesLeaves(t, NextId(a), StaleLink(a), None);
    RightBag(t, NextId(a), StaleLink(a));
    hide Bag, Split, LeftHalf, RightHalf;
    AddRest(Bag(LeftHalf(t, NextId(a))), Bag(Split(t, a).right), Bag(RightHalf(t, NextId(a), StaleLink(a))));
  }

  lemma GrowFacts(d: int, t: Tree, a: Alloc)
    requires Shaped(t) && |t.keys| > 1 && IsFull(d, t)
    ensures var s := Split(t, a);
            var g := Grow(d, t, a);
            && s.alloc == Next(a) && s.alloc.free == None && g.alloc == Next(s.alloc)
            && g.tree.id == NextId(s.alloc) && g.tree.kids == [s.left, s.right] && s.left.id == t.id
            && ImageOf(g.tree)
               == ImageOf(BlankPage(NextId(s.alloc), StaleLink(s.alloc))).(keys := [s.key],
                 children := [s.left.id, s.right.id])
            && ImageOf(BlankPage(NextId(s.alloc), StaleLink(s.alloc))).keys == []
            && ImageOf(BlankPage(NextId(s.alloc), StaleLink(s.alloc))).children == []
  {
  }

  /** Allocating the new root leaves both halves as they are. */
  lemma GrowStored(p: map<int, PageImage>, g: Tree, l: Tree, r: Tree, b: Alloc, blank: PageImage)
    requires Stored(p, l) && Stored(p, r) && g.kids == [l, r] && PagesHeldOnce(Bag(g), b)
    ensures KidsStored(p[g.id := blank], g)
  {
    var q := p[g.id := blank];
    HeldFacts(g, b);
    KidDistinct(g, 0);
    KidDistinct(g, 1);
    StoredFrame(p, q, l);
    StoredFrame(p, q, r);
    forall c | c in g.kids ensures Stored(q, c) { assert c == l || c == r; }
  }

  /** Splitting the root and allocating a new one touches the root, the free page and fresh pages. */
  lemma GrownElsewhere(p: map<int, PageImage>, q: map<int, PageImage>, r: map<int, PageImage>, t: Tree, a: Alloc)
    requires Shaped(t) && |t.keys| > 1 && forall x :: x in p ==> x < a.pages
    requires SameExcept(p, q, multiset{t.id, Split(t, a).right.id})
    requires SameExcept(q, r, multiset{NextId(Split(t, a).alloc)})
    ensures SameExcept(p, r, Bag(t) + FreeOf(a))
  {
    hide Bag;
    SplitParts(t, a);
    BagHasId(t);
  }

  /** An operation below a root does not touch the root page itself. */
  lemma RootUntouched(p: map<int, PageImage>, q: map<int, PageImage>, t: Tree, a: Alloc)
    requires t.id in p && PagesHeldOnce(Bag(t), a) && SameExcept(p, q, BagOf(t.kids) + FreeOf(a))
    ensures t.id in q && q[t.id] == p[t.id]
    ensures a.free.Some? ==> a.free.value.id != t.id
  {
    HeldFacts(t, a);
    assert Bag(t) == multiset{t.id} + BagOf(t.kids);
    assert Bag(t)[t.id] <= 1;
    BagHasId(t);
  }

  lemma SameWithRoot(p: map<int, PageImage>, q: map<int, PageImage>, t: Tree, a: Alloc, img: PageImage)
    requires SameExcept(p, q, BagOf(t.kids) + FreeOf(a))
    ensures SameExcept(p, q, Bag(t) + FreeOf(a))
    ensures SameExcept(p, q[t.id := img], Bag(t) + FreeOf(a))
  {
    assert Bag(t) == multiset{t.id} + BagOf(t.kids);
  }

  lemma StoredRoot(q: map<int, PageImage>, t: Tree, a: Alloc)
    requires KidsStored(q, t) && PagesHeldOnce(Bag(t), a) && t.id in q
    ensures Stored(q[t.id := ImageOf(t)], t)
    ensures a.free.Some? ==> a.free.value.id != t.id
  {
    HeldFacts(t, a);
    BagHasId(t);
    StoredAfterWrite(q, q[t.id := ImageOf(t)], t);
  }

  lemma DuplicateChangesNothing(d: int, p: map<int, PageImage>, t: Tree, key: int, val: Val, a: Alloc)
    requires Shaped(t) && KidsBalanced(t) && d >= 4 && IsLeaf(t) && key in t.keys
    requires t.id in p && p[t.id] == ImageOf(t)
    ensures Insert(d, t, key, val, a) == Inserted(t, a) && Stored(p, t)
  {
  }

  lemma StartIs(d: int, s: State)
    requires Inv(d, s) && DegreeAccepted(d) && d >= 6
    ensures var p := Open(s);
            && Shaped(p.tree) && Balanced(p.tree)
            && Start(d, s) == (if IsFull(d, p.tree) then Grow(d, p.tree, p.alloc) else p)
  {
    OpenInv(d, s);
  }

  lemma GrowSorted(d: int, t: Tree, a: Alloc)
    requires Shaped(t) && SortedPages(t) && (IsFull(d, t) ==> |t.keys| > 1)
    ensures |t.keys| > 0 ==> SortedPages(Grow(d, t, a).tree)
  {
    if IsFull(d, t) && |t.keys| > 0 {
      HalvesSorted(t, NextId(a), StaleLink(a));
      var g := Grow(d, t, a).tree;
      var s := Split(t, a);
      forall c | c in g.kids ensures SortedPages(c) { assert c == s.left || c == s.right; }
    }
  }

  lemma DeleteKeepsLink(d: int, t: Tree, key: int)
    requires Shaped(t) && Balanced(t) && d >= 4 && !IsLeaf(t)
    ensures Delete(d, t, key).tree.next == t.next && !IsLeaf(Delete(d, t, key).tree)
  {
    RepairShape(d, t, ChildIndex(t.keys, key));
  }

  lemma KeyInLeaf(t: Tree, key: int)
    requires Shaped(t) && Ordered(t, None, None)
    ensures key in FindLeaf(t, key).keys <==> key in ToMap(Flat(t))
  {
    var l := FindLeaf(t, key);
    var m := FoundLeafIndex(t, key);
    FoundLeafShaped(t, key);
    FindIsGet(t, key, None, None);
    GetIsLookup(Flat(t), key);
    GetIsLookup(LeafEntries(l), key);
    ToMapKeys(LeafEntries(l), key);
    if key in l.keys {
      var q :| 0 <= q < |l.keys| && l.keys[q] == key;
      assert LeafEntries(l)[q].0 == key;
    }
  }

  lemma {:induction false} FoundLeafShaped(t: Tree, key: int)
    requires Shaped(t)
    ensures |FindLeaf(t, key).keys| == |FindLeaf(t, key).vals|
  {
    if !IsLeaf(t) {
      assert t.kids[ChildIndex(t.keys, key)] in t.kids;
      FoundLeafShaped(t.kids[ChildIndex(t.keys, key)], key);
    }
  }

  lemma DeleteFromIs(d: int, s: State, key: int)
    requires Inv(d, s) && DegreeAccepted(d) && d >= 6
    ensures var t := Open(s).tree;
            && Shaped(t) && Balanced(t) && Ordered(t, None, None)
            && var x := Delete(d, t, key);
               var (u, more) := Collapse(x.tree);
               && DeleteFrom(d, s, key).state == BTreeStates.State(Some(u), Release(Open(s).alloc, x.freed + more))
               && DeleteFrom(d, s, key).value == x.value
  {
    OpenInv(d, s);
  }

  /** The link of leaf n leads to leaf n + 1, as it is persisted. */
  lemma ChainStep(p: map<int, PageImage>, t: Tree, n: nat)
    requires Shaped(t) && Stored(p, t) && Chained(Leaves(t), None) && n < |Leaves(t)|
    ensures var ls := Leaves(t);
            && |ls[n].keys| == |ls[n].vals| && ls[n].vals == ImageOf(ls[n]).values
            && (n + 1 == |ls| ==> ImageOf(ls[n]).nextLeaf == None)
            && (n + 1 < |ls| ==> ImageOf(ls[n]).nextLeaf == Some(ls[n + 1].id)
                                 && ls[n + 1].id in p && p[ls[n + 1].id] == ImageOf(ls[n + 1]))
  {
    LeavesStored(p, t, n);
    if n + 1 < |Leaves(t)| { LeavesStored(p, t, n + 1); }
  }

  lemma CollapseLast(a: Alloc, f: seq<FreePage>, t: Tree)
    ensures Release(a, f + [Released(t)]) == Alloc(Some(FreePage(t.id, t.next)), Release(a, f).pages)
    ensures Release(a, f + []) == Release(a, f)
  {
    assert f + [] == f;
  }

  /** Pages touched while the tree to insert into is opened, and by the insertion itself. */
  lemma SameThroughStart(d: int, s: State, p: map<int, PageImage>, q: map<int, PageImage>, r: map<int, PageImage>)
    requires Inv(d, s) && DegreeAccepted(d) && d >= 6 && s.root.Some?
    requires forall x :: x in p ==> 0 <= x < s.alloc.pages
    requires SameExcept(p, q, Bag(s.root.value) + FreeOf(s.alloc))
    requires SameExcept(q, r, Bag(Start(d, s).tree) + FreeOf(Start(d, s).alloc))
    ensures SameExcept(p, r, Bag(s.root.value) + FreeOf(s.alloc))
  {
    hide Bag, FreeOf, Grow, Range;
    StartIs(d, s);
    var t, a, o := s.root.value, s.alloc, Start(d, s);
    if IsFull(d, t) { GrowHolds(d, t, a); }
    forall x | x in p && x !in Bag(t) + FreeOf(a) ensures x !in Bag(o.tree) + FreeOf(o.alloc) {
      RangeMember(a.pages, o.alloc.pages, x);
      assert IsFull(d, t) ==>
          (Bag(o.tree) + FreeOf(o.alloc))[x] <= (Bag(t) + FreeOf(a) + Range(a.pages, o.alloc.pages))[x];
    }
  }

  /** An insertion that splits a leaf into the free page gives that leaf a new link and no other page. */
  lemma LinkAfterInsert(d: int, s: State, key: int, val: Val,
                        p: map<int, PageImage>, q: map<int, PageImage>, r: map<int, PageImage>)
    requires Inv(d, s) && DegreeAccepted(d) && d >= 6 && SplitsLeafIntoFree(d, s, key)
    requires forall x :: x in p ==> 0 <= x < s.alloc.pages
    requires var f := s.alloc.free.value;
             Stored(p, s.root.value) && f.id in p && p[f.id].nextLeaf == f.next
    requires SameExcept(p, q, Bag(s.root.value) + FreeOf(s.alloc))
    requires SameExcept(q, r, Bag(Start(d, s).tree) + FreeOf(Start(d, s).alloc))
    requires var u := InsertInto(d, s, key, val).state.root;
             u.Some? && Stored(r, u.value)
    ensures OneNewLink(p, r, FindLeaf(s.root.value, key).id, s.alloc.free.value.id)
  {
    hide Bag, Leaves, KeepsLinks, LinksInto, InsertInto, Start, Stored, OneNewLink, OnlyLeafIsFull, SameExcept;
    var t, f, u := s.root.value, s.alloc.free.value, InsertInto(d, s, key, val).state.root.value;
    HeldFacts(t, s.alloc);
    SplitLeafLinks(d, s, key, val);
    InsertIntoKeepsLinks(d, s, key, val);
    SameThroughStart(d, s, p, q, r);
    PagesLinked(p, r, t, u, FindLeaf(t, key), f);
  }

  class BTreeStore {
    const pager: NodePager
    var root: Option<int>
    /** The tree that lies in the pages. */
    ghost var tree: Option<Tree>

    ghost function State(): State
      requires pager.Valid()
      reads this, pager
    {
      BTreeStates.State(tree, pager.Allocator())
    }

    /** The pages are those of the tree, each held once. */
    ghost predicate Lies()
      reads this, pager
    {
      && pager.Valid() && DegreeAccepted(pager.maxDegree)
      && root == (if tree.Some? then Some(tree.value.id) else None)
      && (tree.Some? ==> Stored(pager.pages, tree.value))
      && PagesHeldOnce(PagesOf(State()), pager.Allocator())
    }

    ghost predicate Valid()
      reads this, pager
    {
      Lies() && pager.maxDegree >= 6 && Inv(pager.maxDegree, State())
    }

    constructor (maxDegree: nat)
      requires DegreeAccepted(maxDegree)
      ensures Lies() && fresh(pager) && pager.maxDegree == maxDegree && State() == EMPTY
      ensures maxDegree >= 6 ==> Valid()
    {
      pager := new NodePager(maxDegree);
      root, tree := None, None;
    }

    /** A degree below 4 or an odd one is refused. */
    static method Create(maxDegree: nat) returns (r: Result<BTreeStore, StoreError>)
      ensures r.Ok? <==> maxDegree >= 4 && maxDegree % 2 == 0
      ensures r.Err? ==> r.error == InvalidConfiguration
      ensures r.Ok? ==> r.value.Lies() && r.value.pager.maxDegree == maxDegree && r.value.State() == EMPTY
    {
      if maxDegree < 4 { return Err(InvalidConfiguration); }
      if maxDegree % 2 != 0 { return Err(InvalidConfiguration); }
      var s := new BTreeStore(maxDegree);
      return Ok(s);
    }

    /** The root page; an empty leaf is allocated the first time. */
    method Root() returns (node: NodePage)
      requires Valid()
      modifies this, pager
      ensures Valid() && fresh(node) && node.maxDegree == pager.maxDegree
      ensures var o := Open(old(State()));
              && State() == BTreeStates.State(Some(o.tree), o.alloc) && tree == Some(o.tree)
              && node.Image() == ImageOf(o.tree)
      ensures old(root).Some? ==> pager.pages == old(pager.pages)
    {
      OpenInv(pager.maxDegree, State());
      if root.Some? {
        node := pager.ReadPage(root.value);
      } else {
        node := pager.AllocateNewPage();
        root := Some(node.id);
        tree := Some(BlankPage(NextId(old(pager.Allocator())), StaleLink(old(pager.Allocator()))));
      }
    }

    method Find(key: int) returns (r: Result<Option<Val>, NodeError>)
      requires Valid()
      modifies this, pager
      ensures Valid() && Abs(State()) == old(Abs(State()))
      ensures r == Ok(if key in old(Abs(State())) then Some(old(Abs(State()))[key]) else None)
    {
      var s := State();
      LookupIsMapLookup(pager.maxDegree, s, key);
      OpenInv(pager.maxDegree, s);
      var node := Root();
      OrderedSorted(tree.value, None, None);
      FilledNoEmptyNode(pager.maxDegree, tree.value);
      r := node.FindValue(pager, key, tree.value);
    }

    /** Put a new root above a full one. */
    method GrowRoot(node: NodePage, ghost t: Tree) returns (newRoot: NodePage)
      requires pager.Valid() && node.Image() == ImageOf(t) && Stored(pager.pages, t)
      requires Shaped(t) && Balanced(t) && pager.maxDegree >= 4 && IsFull(pager.maxDegree, t)
      requires PagesHeldOnce(Bag(t), pager.Allocator())
      modifies this`root, pager, node
      ensures pager.Valid() && fresh(newRoot) && newRoot.maxDegree == pager.maxDegree && newRoot.changed
      ensures var g := Grow(pager.maxDegree, t, old(pager.Allocator()));
              && newRoot.Image() == ImageOf(g.tree) && KidsStored(pager.pages, g.tree) && g.tree.id in pager.pages
              && pager.Allocator() == g.alloc && root == Some(g.tree.id)
              && PagesHeldOnce(Bag(g.tree), g.alloc)
      ensures SameExcept(old(pager.pages), pager.pages, Bag(t) + FreeOf(old(pager.Allocator())))
    {
      ghost var a, p := pager.Allocator(), pager.pages;
      ghost var s := BTreeSplit.Split(t, a);
      ghost var g := Grow(pager.maxDegree, t, a);
      GrowHolds(pager.maxDegree, t, a);
      HeldGrows(Bag(t), Bag(g.tree), a, g.alloc);
      GrowFacts(pager.maxDegree, t, a);
      assert |t.keys| > 1 && KidsStored(pager.pages, t) && t.id in pager.pages;
      var leftId := node.id;
      hide *;
      var right, key := node.Split(pager, t);
      ghost var q := pager.pages;
      GrowStored(pager.pages, g.tree, s.left, s.right, g.alloc,
                 ImageOf(BlankPage(NextId(s.alloc), StaleLink(s.alloc))));
      newRoot := NewRoot(key, leftId, right.id);
      GrownElsewhere(p, q, pager.pages, t, a);
    }

    method NewRoot(key: int, leftId: int, rightId: int) returns (newRoot: NodePage)
      requires pager.Valid()
      modifies this`root, pager
      ensures pager.Valid() && fresh(newRoot) && newRoot.maxDegree == pager.maxDegree && newRoot.changed
      ensures var a := old(pager.Allocator());
              var blank := ImageOf(BlankPage(NextId(a), StaleLink(a)));
              && newRoot.Image() == blank.(keys := [key], children := [leftId, rightId])
              && pager.pages == old(pager.pages)[NextId(a) := blank] && pager.Allocator() == Next(a)
              && root == Some(NextId(a))
    {
      newRoot := pager.AllocateNewPage();
      newRoot.changed := true;
      newRoot.keys := newRoot.keys + [key];
      newRoot.children := newRoot.children + [leftId];
      newRoot.children := newRoot.children + [rightId];
      root := Some(newRoot.id);
    }

    /** Insert at the root page and write it back. */
    method InsertAtRoot(node: NodePage, key: int, value: Val, ghost t: Tree) returns (ok: bool)
      requires pager.Valid() && node.maxDegree == pager.maxDegree && pager.maxDegree >= 4
      requires Shaped(t) && KidsBalanced(t) && SortedPages(t) && node.Image() == ImageOf(t)
      requires KidsStored(pager.pages, t)
      requires t.id in pager.pages && (!node.changed || IsLeaf(t) ==> pager.pages[t.id] == ImageOf(t))
      requires PagesHeldOnce(Bag(t), pager.Allocator())
      modifies pager, node
      ensures pager.Valid() && (ok <==> !(IsLeaf(t) && key in t.keys))
      ensures var r := BTreeInsert.Insert(pager.maxDegree, t, key, value, old(pager.Allocator()));
              && r.tree.id == t.id && pager.Allocator() == r.alloc
              && PagesHeldOnce(Bag(r.tree), r.alloc) && Stored(pager.pages, r.tree)
      ensures SameExcept(old(pager.pages), pager.pages, Bag(t) + FreeOf(old(pager.Allocator())))
    {
      hide *;
      ghost var a, p := pager.Allocator(), pager.pages;
      InsertHolds(pager.maxDegree, t, key, value, a);
      ghost var r := BTreeInsert.Insert(pager.maxDegree, t, key, value, a);
      HeldGrows(Bag(t), Bag(r.tree), a, r.alloc);
      ok := node.Insert(pager, key, value, t);
      RootUntouched(p, pager.pages, t, a);
      StoredRoot(pager.pages, r.tree, r.alloc);
      SameWithRoot(p, pager.pages, t, a, ImageOf(r.tree));
      if !ok {
        DuplicateChangesNothing(pager.maxDegree, pager.pages, t, key, value, a);
        return;
      }
      pager.Persist(node, r.tree);
    }

    /** Insert a pair. The state becomes what the node code computes; when the guard holds,
        that is insertion into the map. */
    method Insert(key: int, value: Val) returns (r: Result<(), StoreError>)
      requires Valid()
      modifies this, pager
      ensures Lies()
      ensures var x := InsertInto(pager.maxDegree, old(State()), key, value);
              State() == x.state && (r.Ok? <==> x.ok)
      ensures SafeInsert(pager.maxDegree, old(State()), key) ==>
                && Valid()
                && Abs(State()) == (if key in old(Abs(State())) then old(Abs(State()))
                                    else old(Abs(State()))[key := value])
                && (r.Err? ==> key in old(Abs(State())))
      ensures SplitsLeafIntoFree(pager.maxDegree, old(State()), key) ==>
                OneNewLink(old(pager.pages), pager.pages, FindLeaf(old(tree).value, key).id,
                           old(pager.firstDeleted).value)
    {
      ghost var s, d, p := State(), pager.maxDegree, pager.pages;
      var node, t := OpenForInsert();
      ghost var b, q := pager.Allocator(), pager.pages;
      hide BTreeInsert.Insert, InsertInto, SafeInsert, Inv, Shaped, Stored, KidsStored, PagesHeldOnce, Start, ToMap,
        Bag;
      var ok := InsertAtRoot(node, key, value, t);
      tree := Some(BTreeInsert.Insert(d, t, key, value, b).tree);
      InsertIntoIs(d, s, key, value);
      if SafeInsert(d, s, key) { SafeInsertRefinesMap(d, s, key, value); }
      if SplitsLeafIntoFree(d, s, key) { LinkAfterInsert(d, s, key, value, p, q, pager.pages); }
      return if ok then Ok(()) else Err(NodeOperation);
    }

    /** The page an insertion starts at: the root, or a new root above its halves. */
    method OpenForInsert() returns (node: NodePage, ghost t: Tree)
      requires Valid()
      modifies this, pager
      ensures pager.Valid() && fresh(node) && node.maxDegree == pager.maxDegree
      ensures var o := Start(pager.maxDegree, old(State()));
              t == o.tree && pager.Allocator() == o.alloc
      ensures Shaped(t) && KidsBalanced(t) && SortedPages(t) && node.Image() == ImageOf(t) && KidsStored(pager.pages, t)
      ensures t.id in pager.pages && (!node.changed || IsLeaf(t) ==> pager.pages[t.id] == ImageOf(t))
      ensures PagesHeldOnce(Bag(t), pager.Allocator()) && root == Some(t.id)
      ensures old(tree).Some? ==>
                SameExcept(old(pager.pages), pager.pages, Bag(old(tree).value) + FreeOf(old(pager.Allocator())))
    {
      ghost var s, d := State(), pager.maxDegree;
      node := Root();
      t := tree.value;
      StartIs(d, s);
      OrderedSorted(t, None, None);
      GrowSorted(d, t, pager.Allocator());
      if node.IsFullPage() {
        ghost var a := pager.Allocator();
        GrowShape(d, t, a);
        node := GrowRoot(node, t);
        t := Grow(d, t, a).tree;
      }
    }

    /** Delete a pair and return its value. */
    method Delete(key: int) returns (res: Option<Val>)
      requires Valid()
      modifies this, pager
      ensures Valid()
      ensures State() == DeleteFrom(pager.maxDegree, old(State()), key).state
      ensures Abs(State()) == old(Abs(State())) - {key}
      ensures res == if key in old(Abs(State())) then Some(old(Abs(State()))[key]) else None
    {
      hide *;
      ValidFacts();
      ghost var s, d := State(), pager.maxDegree;
      DeleteRefinesMap(d, s, key);
      DeleteFromIs(d, s, key);
      ghost var t, a := Open(s).tree, Open(s).alloc;
      ghost var x := BTreeDelete.Delete(d, t, key);
      var node := Root();
      RootFacts();
      res := DeleteAtRoot(node, key, t);
      node := SettleRoot(node, x, t, a);
      Adopt(Collapse(x.tree).0);
    }

    lemma ValidFacts()
      requires Valid()
      ensures pager.Valid() && DegreeAccepted(pager.maxDegree) && pager.maxDegree >= 6 && pager.maxDegree >= 4
      ensures Inv(pager.maxDegree, State())
    {
    }

    lemma RootFacts()
      requires Valid() && tree.Some?
      ensures var t := tree.value;
              && Shaped(t) && Balanced(t) && Ordered(t, None, None) && Stored(pager.pages, t)
              && PagesHeldOnce(Bag(t), pager.Allocator()) && root == Some(t.id) && pager.Valid()
              && DegreeAccepted(pager.maxDegree) && pager.maxDegree >= 6
              && State() == BTreeStates.State(Some(t), pager.Allocator())
    {
    }

    /** Take note of the tree that now lies in the pages. */
    ghost method Adopt(u: Tree)
      requires pager.Valid() && DegreeAccepted(pager.maxDegree) && pager.maxDegree >= 6
      requires root == Some(u.id) && Stored(pager.pages, u)
      requires Inv(pager.maxDegree, BTreeStates.State(Some(u), pager.Allocator()))
      modifies this`tree
      ensures Valid() && State() == BTreeStates.State(Some(u), pager.Allocator())
    {
      tree := Some(u);
    }

    method DeleteAtRoot(node: NodePage, key: int, ghost t: Tree) returns (res: Option<Val>)
      requires pager.Valid() && node.maxDegree == pager.maxDegree && pager.maxDegree >= 4
      requires Shaped(t) && Balanced(t) && Ordered(t, None, None) && node.Image() == ImageOf(t)
      requires Stored(pager.pages, t) && PagesHeldOnce(Bag(t), pager.Allocator())
      modifies pager, node
      ensures pager.Valid()
      ensures var x := BTreeDelete.Delete(pager.maxDegree, t, key);
              && node.Image() == ImageOf(x.tree) && KidsStored(pager.pages, x.tree) && res == x.value
              && pager.Allocator() == Release(old(pager.Allocator()), x.freed)
              && Shaped(x.tree) && Balanced(x.tree) && x.tree.id == t.id && (!IsLeaf(t) ==> x.tree.next == t.next)
              && (IsLeaf(x.tree) <==> IsLeaf(t))
              && PagesHeldOnce(Bag(x.tree), pager.Allocator())
              && (!node.changed ==> ImageOf(x.tree) == ImageOf(t))
      ensures t.id in pager.pages && pager.pages[t.id] == ImageOf(t)
    {
      ghost var a, p := pager.Allocator(), pager.pages;
      DeleteShape(pager.maxDegree, t, key);
      if !IsLeaf(t) { DeleteKeepsLink(pager.maxDegree, t, key); }
      DeleteBag(pager.maxDegree, t, key);
      ghost var x := BTreeDelete.Delete(pager.maxDegree, t, key);
      ReleaseHeldOnce(Bag(t), Bag(x.tree), x.freed, a);
      assert t.id in p && p[t.id] == ImageOf(t) && KidsStored(p, t);
      assert IsLeaf(t) ==> IsLeaf(x.tree);
      hide *;
      res := node.Delete(pager, key, t, None, None);
      SameExceptMore(p, pager.pages, BagOf(t.kids), FreeOf(a));
      RootUntouched(p, pager.pages, t, a);
    }

    /** A root without keys gives way to its only child; otherwise the root is written back. */
    method SettleRoot(node: NodePage, ghost x: Deleted, ghost t: Tree, ghost a: Alloc) returns (now: NodePage)
      requires pager.Valid() && node.Image() == ImageOf(x.tree) && KidsStored(pager.pages, x.tree)
      requires Shaped(x.tree) && x.tree.id == t.id && (!IsLeaf(t) ==> x.tree.next == t.next)
      requires (IsLeaf(x.tree) <==> IsLeaf(t)) && t.id in pager.pages && pager.pages[t.id] == ImageOf(t)
      requires !node.changed ==> ImageOf(x.tree) == ImageOf(t)
      requires pager.Allocator() == Release(a, x.freed) && PagesHeldOnce(Bag(x.tree), pager.Allocator())
      requires root == Some(t.id)
      modifies this`root, pager, node
      ensures pager.Valid()
      ensures var (u, more) := Collapse(x.tree);
              && Stored(pager.pages, u) && root == Some(u.id)
              && pager.Allocator() == Release(a, x.freed + more)
    {
      CollapseLast(a, x.freed, x.tree);
      HeldFacts(x.tree, pager.Allocator());
      BagHasId(x.tree);
      StoredRoot(pager.pages, x.tree, pager.Allocator());
      now := node;
      if |node.keys| == 0 && !node.IsLeafPage() {
        var newRoot := node.children[0];
        node.children := node.children[1..];
        node.changed := true;
        var ok := pager.DeletePage(node.id);
        assert ok;
        StoredKid(pager.pages, x.tree, 0);
        now := pager.ReadPage(newRoot);
        root := Some(newRoot);
        ok := pager.WritePage(now);
        assert ok;
      } else {
        pager.Persist(node, x.tree);
      }
    }

    // -------- scans --------

    /** The page after a leaf in the chain. */
    method NextNode(node: NodePage) returns (next: NodePage?)
      requires node.nextLeaf.Some? ==> node.nextLeaf.value in pager.pages
      ensures next == null <==> node.nextLeaf.None?
      ensures next != null ==> fresh(next) && next.Image() == pager.pages[node.nextLeaf.value]
    {
      if node.nextLeaf.Some? {
        next := pager.ReadPage(node.nextLeaf.value);
      } else {
        next := null;
      }
    }

    /** The leaf that holds the key, or null. */
    method FindNodePage(key: int, ghost t: Tree) returns (node: NodePage?, ghost m: nat)
      requires Valid() && tree == Some(t)
      ensures m < |Leaves(t)| && Leaves(t)[m] == FindLeaf(t, key)
      ensures node == null <==> key !in Abs(State())
      ensures node != null ==> fresh(node) && node.Image() == ImageOf(Leaves(t)[m]) && key in Leaves(t)[m].keys
    {
      m := FoundLeafIndex(t, key);
      OrderedSorted(t, None, None);
      FilledNoEmptyNode(pager.maxDegree, t);
      FindLeafFacts(pager.pages, t, key);
      KeyInLeaf(t, key);
      var rootPage := pager.ReadPage(root.value);
      var id := rootPage.FindNode(pager, key, t);
      if id.Some? {
        node := pager.ReadPage(id.value);
      } else {
        node := null;
      }
    }

    /** The values of the smaller keys in key order, with or without the key's own. For a key the
        index does not hold the answer is empty. */
    method FindSmallerThan(key: int, withEqual: bool) returns (result: seq<Val>)
      requires Valid()
      modifies this, pager
      ensures Valid() && Abs(State()) == old(Abs(State()))
      ensures key !in old(Abs(State())) ==> result == []
      ensures key in old(Abs(State())) ==>
                exists ks: seq<int> ::
                  && InKeyOrder(old(Abs(State())), ks, result)
                  && forall k :: k in ks <==> k in old(Abs(State())) && (k < key || (withEqual && k == key))
    {
      hide Leaves, EntriesOf, Bag, Ordered, FilledKids, Chained, Distinct, Shaped, Balanced, Stored, Select, ToMap;
      OpenInv(pager.maxDegree, State());
      var rootPage := Root();
      RootFacts();
      ghost var t := tree.value;
      ghost var ls := Leaves(t);
      FlatWithin(t, None, None);
      var first := rootPage.FindLeftMostNode(pager, t);
      LeavesStored(pager.pages, t, 0);
      var node := pager.ReadPage(first);
      var target, m := FindNodePage(key, t);
      if target == null {
        return [];
      }
      LeavesStored(pager.pages, t, m);
      result := ScanUpTo(node, target.id, key, withEqual, t, m);
      SmallerByLeaves(ls, m, key, withEqual);
      PairsSorted(pager.maxDegree, State());
      ghost var ks := SelectedKeys(Pairs(State()), key, true, withEqual);
    }

    /** Collect from the first leaf up to the target, of which only the wanted pairs. */
    method ScanUpTo(first: NodePage, targetId: int, key: int, withEqual: bool, ghost t: Tree, ghost m: nat)
      returns (result: seq<Val>)
      requires ChainReady(t) && m < |Leaves(t)| && Leaves(t)[m].id == targetId && first.Image() == ImageOf(Leaves(t)[0])
      ensures result == Values(EntriesOf(Leaves(t)[..m])) + Select(LeafEntries(Leaves(t)[m]), key, true, withEqual)
    {
      ghost var ls := Leaves(t);
      result := [];
      var node: NodePage? := first;
      ghost var n := 0;
      StretchEnds(ls, 0);
      StretchEnds(ls, m);
      while node != null
        invariant n <= m && node != null && node.Image() == ImageOf(ls[n])
        invariant result == Stretch(ls, 0, n)
        decreases m - n
      {
        LeavesStored(pager.pages, t, n);
        hide Values, EntriesOf, LeafEntries, Select, Stored, Shaped, Stretch;
        if targetId == node.id {
          if n < m { LeavesApart(t, n, m); }
          var part := TakeWanted(node, key, true, withEqual, ls[m]);
          result := result + part;
          return;
        }
        result := result + node.values;
        StretchStep(ls, 0, n);
        LeavesStored(pager.pages, t, n + 1);
        node := NextNode(node);
        n := n + 1;
      }
    }

    /** The tree lies in the pages and its leaves are linked. */
    ghost predicate ChainReady(t: Tree)
      reads this, pager
    {
      Shaped(t) && Stored(pager.pages, t) && Distinct(t) && Chained(Leaves(t), None)
    }

    /** The wanted values of one leaf. */
    method TakeWanted(node: NodePage, key: int, smaller: bool, withEqual: bool, ghost l: Tree)
      returns (result: seq<Val>)
      requires node.Image() == ImageOf(l) && |l.keys| == |l.vals|
      ensures result == Select(LeafEntries(l), key, smaller, withEqual)
    {
      result := [];
      ghost var f := LeafEntries(l);
      for i := 0 to |node.keys|
        invariant result == Select(f[..i], key, smaller, withEqual)
      {
        SelectSnoc(f, i, key, smaller, withEqual);
        if (if smaller then node.keys[i] < key else node.keys[i] > key) || (withEqual && node.keys[i] == key) {
          result := result + [node.values[i]];
        }
      }
      assert f[..|node.keys|] == f;
    }

    /** The values of the greater keys in key order, with or without the key's own. For a key the
        index does not hold the answer is empty. */
    method FindGreaterThan(key: int, withEqual: bool) returns (result: seq<Val>)
      requires Valid()
      modifies this, pager
      ensures Valid() && Abs(State()) == old(Abs(State()))
      ensures key !in old(Abs(State())) ==> result == []
      ensures key in old(Abs(State())) ==>
                exists ks: seq<int> ::
                  && InKeyOrder(old(Abs(State())), ks, result)
                  && forall k :: k in ks <==> k in old(Abs(State())) && (key < k || (withEqual && k == key))
    {
      hide Leaves, EntriesOf, Bag, Ordered, FilledKids, Chained, Distinct, Shaped, Balanced, Stored, Select, ToMap;
      OpenInv(pager.maxDegree, State());
      var rootPage := Root();
      RootFacts();
      ghost var t := tree.value;
      ghost var ls := Leaves(t);
      FlatWithin(t, None, None);
      var node, m := FindNodePage(key, t);
      if node == null {
        return [];
      }
      LeavesStored(pager.pages, t, m);
      result := ScanFrom(node, key, withEqual, t, m);
      GreaterByLeaves(ls, m, key, withEqual);
      PairsSorted(pager.maxDegree, State());
      ghost var ks := SelectedKeys(Pairs(State()), key, false, withEqual);
    }

    /** The wanted pairs of the starting leaf, and everything behind it. */
    method ScanFrom(first: NodePage, key: int, withEqual: bool, ghost t: Tree, ghost m: nat) returns (result: seq<Val>)
      requires ChainReady(t) && m < |Leaves(t)| && first.Image() == ImageOf(Leaves(t)[m])
      ensures result == Select(LeafEntries(Leaves(t)[m]), key, false, withEqual) + Values(EntriesOf(Leaves(t)[m + 1..]))
    {
      hide Values, EntriesOf, LeafEntries, Select, Stored, Shaped, Stretch, Leaves, Chained, Ids;
      ghost var ls := Leaves(t);
      ChainStep(pager.pages, t, m);
      StretchEnds(ls, m + 1);
      result := TakeWanted(first, key, false, withEqual, ls[m]);
      var node := NextNode(first);
      var rest := ScanTail(node, t, m + 1);
      result := result + rest;
    }

    /** Everything from leaf m on. */
    method ScanTail(start: NodePage?, ghost t: Tree, ghost m: nat) returns (result: seq<Val>)
      requires ChainReady(t) && m <= |Leaves(t)| && (start != null <==> m < |Leaves(t)|)
      requires start != null ==> start.Image() == ImageOf(Leaves(t)[m])
      ensures result == Stretch(Leaves(t), m, |Leaves(t)|)
    {
      ghost var p, ls, n := pager.pages, Leaves(t), m;
      StretchEnds(ls, m);
      result := [];
      var node := start;
      while node != null
        invariant m <= n <= |ls| && (node != null <==> n < |ls|)
        invariant node != null ==> node.Image() == ImageOf(ls[n])
        invariant result == Stretch(ls, m, n)
        decreases |ls| - n
      {
        ChainStep(p, t, n);
        StretchStep(ls, m, n);
        hide Values, EntriesOf, LeafEntries, Select, Stored, Shaped, Stretch, Leaves, Chained, Ids;
        result := result + node.values;
        node := NextNode(node);
        n := n + 1;
      }
    }
  }
}
