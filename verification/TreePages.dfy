/** Page accounting: which pages of an index stay reachable, and which a deletion loses. */
module BTreePages {
  import opened Wrappers
  import opened Entries
  import opened BTree
  import opened BTreeSplit
  import opened BTreeInsert
  import opened BTreeDelete
  import opened BTreeStates

  // -------- page accounting --------

  /** No page is lost: the tree and the free list hold every page ever handed out. */
  ghost predicate NoPageLost(s: State) {
    PagesOf(s) + FreeOf(s.alloc) == Range(0, s.alloc.pages)
  }

  /** What a deletion makes unreachable: the old head of the free list and all released pages but the last. */
  function Lost(a: Alloc, freed: seq<FreePage>): multiset<int> {
    if freed == [] then multiset{} else FreeOf(a) + IdsOf(freed[..|freed| - 1])
  }

  lemma ReleaseSplits(a: Alloc, freed: seq<FreePage>)
    ensures IdsOf(freed) + FreeOf(a) == FreeOf(Release(a, freed)) + Lost(a, freed)
  {
    if freed != [] {
      var init, last := freed[..|freed| - 1], freed[|freed| - 1];
      assert freed == init + [last];
      IdsConcat(init, [last]);
      assert IdsOf([last]) == multiset{last.id};
    }
  }

  lemma NothingLeft(all: multiset<int>, now: multiset<int>, lost: multiset<int>)
    requires now + lost == all
    ensures now == all <==> lost == multiset{}
  {
    assert (now + lost) - now == lost;
    assert now - now == multiset{};
    assert now + multiset{} == now;
  }

  // -------- what a deletion is going to release --------

  /** Child i is merged with a neighbour before the descent: it lacks keys and no neighbour can lend. */
  predicate MergesAt(d: int, t: Tree, i: nat) {
    && i < |t.kids| && |t.kids| > 1 && IsLacking(d, t.kids[i])
    && (i > 0 ==> !CanLend(d, t.kids[i - 1])) && (i + 1 < |t.kids| ==> !CanLend(d, t.kids[i + 1]))
  }

  /** The merges on the way down to a key. */
  function Merges(d: int, t: Tree, key: int): nat
    requires Shaped(t) && Balanced(t) && d >= 4
    decreases Depth(t)
  {
    if IsLeaf(t) then 0
    else
      var i := ChildIndex(t.keys, key);
      RepairShape(d, t, i);
      var r := Repair(d, t, i);
      (if MergesAt(d, t, i) then 1 else 0) + Merges(d, r.tree.kids[r.index], key)
  }

  /** The root has two children and they are merged. */
  predicate CollapsesRoot(d: int, t: Tree, key: int) {
    !IsLeaf(t) && |t.keys| == 1 && MergesAt(d, t, ChildIndex(t.keys, key))
  }

  /** How many pages deleting a key gives back. */
  function Releases(d: int, s: State, key: int): nat
    requires RootReady(s) && d >= 4
  {
    Merges(d, Open(s).tree, key) + if CollapsesRoot(d, Open(s).tree, key) then 1 else 0
  }

  lemma {:induction false} MergesAreReleased(d: int, t: Tree, key: int)
    requires Shaped(t) && Balanced(t) && d >= 4
    ensures |Delete(d, t, key).freed| == Merges(d, t, key)
    decreases Depth(t)
  {
    if !IsLeaf(t) {
      var i := ChildIndex(t.keys, key);
      RepairShape(d, t, i);
      RepairReleases(d, t, i);
      hide Repair, MergesAt;
      var r := Repair(d, t, i);
      MergesAreReleased(d, r.tree.kids[r.index], key);
    }
  }

  lemma RepairReleases(d: int, t: Tree, i: nat)
    requires Shaped(t) && Balanced(t) && d >= 4 && i < |t.kids|
    ensures var r := Repair(d, t, i);
            && |r.freed| == (if MergesAt(d, t, i) then 1 else 0)
            && |r.tree.keys| == |t.keys| - |r.freed|
  {
    hide Join, LendLeft, LendRight;
    if i > 0 { KidsAlike(t, i - 1); }
    if i + 1 < |t.kids| { KidsAlike(t, i); }
  }

  lemma DeleteKeepsKeys(d: int, t: Tree, key: int)
    requires Shaped(t) && Balanced(t) && d >= 4 && !IsLeaf(t)
    ensures var x := Delete(d, t, key).tree;
            !IsLeaf(x) && |x.keys| == |t.keys| - if MergesAt(d, t, ChildIndex(t.keys, key)) then 1 else 0
  {
    var i := ChildIndex(t.keys, key);
    RepairShape(d, t, i);
    RepairReleases(d, t, i);
  }

  /** The count before the deletion is the number of pages it gives back. */
  lemma ReleasesAreFreed(d: int, s: State, key: int)
    requires Inv(d, s) && DegreeAccepted(d)
    ensures |DeleteFrom(d, s, key).freed| == Releases(d, s, key)
  {
    hide Delete, Merges, MergesAt;
    OpenInv(d, s);
    var t := Open(s).tree;
    MergesAreReleased(d, t, key);
    if IsLeaf(t) { LeafStaysLeaf(d, t, key); } else { DeleteKeepsKeys(d, t, key); }
  }

  lemma LeafStaysLeaf(d: int, t: Tree, key: int)
    requires Shaped(t) && Balanced(t) && d >= 4 && IsLeaf(t)
    ensures IsLeaf(Delete(d, t, key).tree)
  {
  }

  // -------- the books --------

  /** Every page ever handed out is in the tree, on the free list or among the lost ones. */
  ghost predicate Books(s: State, lost: multiset<int>) {
    PagesOf(s) + FreeOf(s.alloc) + lost == Range(0, s.alloc.pages)
  }

  /** The pages a deletion makes unreachable. */
  function LostBy(d: int, s: State, key: int): multiset<int>
    requires RootReady(s) && d >= 4
  {
    Lost(Open(s).alloc, DeleteFrom(d, s, key).freed)
  }

  /** A deletion makes exactly these pages unreachable, and how many is known before it: all it
      releases but one, and the page that was free. */
  lemma DeletionLosesPages(d: int, s: State, key: int, lost: multiset<int>)
    requires Inv(d, s) && DegreeAccepted(d) && d >= 6 && Books(s, lost)
    ensures Books(DeleteFrom(d, s, key).state, lost + LostBy(d, s, key))
    ensures var n := Releases(d, s, key);
            |LostBy(d, s, key)| == if n == 0 then 0 else n - 1 + if s.alloc.free.Some? then 1 else 0
    ensures lost == multiset{} ==>
              (NoPageLost(DeleteFrom(d, s, key).state) <==>
               Releases(d, s, key) == 0 || (Releases(d, s, key) == 1 && s.alloc.free == None))
  {
    hide DeleteFrom, IdsOf, Bag, Releases, Range;
    DeleteRefinesMap(d, s, key);
    ReleasesAreFreed(d, s, key);
    OpenKeepsBooks(s, lost);
    var o := Open(s);
    var x := DeleteFrom(d, s, key);
    DeleteAlloc(d, s, key);
    ReleaseSplits(o.alloc, x.freed);
    LostCount(o.alloc, x.freed);
    var gone := Lost(o.alloc, x.freed);
    var pages, free := PagesOf(x.state), FreeOf(x.state.alloc);
    Moved(Bag(o.tree), FreeOf(o.alloc), lost, pages, free, IdsOf(x.freed), gone);
    if lost == multiset{} {
      assert lost + gone == gone;
      NothingLeft(Range(0, x.state.alloc.pages), pages + free, gone);
    }
  }

  lemma Moved(was: multiset<int>, wasFree: multiset<int>, lost: multiset<int>,
              now: multiset<int>, nowFree: multiset<int>, freed: multiset<int>, gone: multiset<int>)
    requires now + freed == was && freed + wasFree == nowFree + gone
    ensures was + wasFree + lost == now + nowFree + (lost + gone)
  {
    assert was + wasFree == now + (freed + wasFree);
  }

  lemma LostCount(a: Alloc, freed: seq<FreePage>)
    ensures |Lost(a, freed)| == if freed == [] then 0 else |freed| - 1 + if a.free.Some? then 1 else 0
    ensures Lost(a, freed) == multiset{} <==> |Lost(a, freed)| == 0
  {
    if freed != [] { IdsCount(freed[..|freed| - 1]); }
  }

  lemma {:induction false} IdsCount(ps: seq<FreePage>)
    ensures |IdsOf(ps)| == |ps|
  {
    if ps != [] { IdsCount(ps[1..]); }
  }

  lemma DeleteAlloc(d: int, s: State, key: int)
    requires RootReady(s) && d >= 4
    ensures var x := DeleteFrom(d, s, key);
            x.state.alloc == Release(Open(s).alloc, x.freed) && x.state.alloc.pages == Open(s).alloc.pages
  {
  }

  lemma OpenKeepsBooks(s: State, lost: multiset<int>)
    requires Books(s, lost) && (s.root.None? ==> s.alloc == Alloc(None, 0))
    ensures Books(State(Some(Open(s).tree), Open(s).alloc), lost)
    ensures Open(s).alloc.free == s.alloc.free
  {
    if s.root.None? {
      assert Bag(Open(s).tree) == multiset{0} + BagOf([]);
      RangeOne(0);
    }
  }

  /** A safe insertion loses no page. */
  lemma InsertionLosesNothing(d: int, s: State, key: int, val: Val, lost: multiset<int>)
    requires Inv(d, s) && DegreeAccepted(d) && d >= 6 && SafeInsert(d, s, key) && Books(s, lost)
    ensures Books(InsertInto(d, s, key, val).state, lost)
  {
    hide Insert, Bag, Range, Grow;
    OpenInv(d, s);
    OpenKeepsBooks(s, lost);
    var p := Open(s);
    var o := Start(d, s);
    if IsFull(d, p.tree) { GrowValid(d, p.tree, p.alloc); } else { RangeNone(p.alloc.pages); }
    StartValid(d, s);
    InsertBag(d, o.tree, key, val, o.alloc);
    var r := Insert(d, o.tree, key, val, o.alloc);
    BooksGrow(Bag(p.tree), Bag(o.tree), p.alloc, o.alloc, lost);
    BooksGrow(Bag(o.tree), Bag(r.tree), o.alloc, r.alloc, lost);
  }

  lemma BooksGrow(was: multiset<int>, now: multiset<int>, a: Alloc, b: Alloc, lost: multiset<int>)
    requires was + FreeOf(a) + lost == Range(0, a.pages)
    requires a.pages <= b.pages && b.free == a.free && now == was + Range(a.pages, b.pages)
    ensures now + FreeOf(b) + lost == Range(0, b.pages)
  {
    RangeSplit(0, a.pages, b.pages);
  }

  // -------- over runs --------

  /** Everything a run makes unreachable. */
  ghost function LostInRun(d: int, s: State, ops: seq<Op>): multiset<int>
    requires d >= 4
    decreases |ops|
  {
    if ops == [] || !RootReady(s) then multiset{}
    else
      (if ops[0].DeleteOp? then LostBy(d, s, ops[0].key) else multiset{})
      + LostInRun(d, Apply(d, s, ops[0]).state, ops[1..])
  }

  /** No deletion of the run gives back more than the empty free list takes. */
  ghost predicate KeepsPages(d: int, s: State, ops: seq<Op>)
    requires d >= 4
    decreases |ops|
  {
    ops == [] || !RootReady(s)
    || ((ops[0].DeleteOp? ==>
           var n := Releases(d, s, ops[0].key);
           n == 0 || (n == 1 && s.alloc.free == None))
        && KeepsPages(d, Apply(d, s, ops[0]).state, ops[1..]))
  }

  /** Over a guarded run the books balance: tree, free list and lost pages hold every page ever handed
      out, and none is lost exactly when no deletion gave back too many. */
  lemma {:induction false} RunKeepsBooks(d: int, s: State, ops: seq<Op>, lost: multiset<int>)
    requires Inv(d, s) && DegreeAccepted(d) && d >= 6 && SafeRun(d, s, ops) && Books(s, lost)
    ensures Books(Execute(d, s, ops).state, lost + LostInRun(d, s, ops))
    ensures LostInRun(d, s, ops) == multiset{} <==> KeepsPages(d, s, ops)
    decreases |ops|
  {
    hide Books, LostBy, Releases, Inv, Abs, MapAfter, BTreeStates.Allowed, SafeOp, Apply;
    if ops == [] {
      assert lost + multiset{} == lost;
    } else {
      var op := ops[0];
      StepRefinesMap(d, s, op);
      StepKeepsBooks(d, s, op, lost);
      var gone := if op.DeleteOp? then LostBy(d, s, op.key) else multiset{};
      var next := Apply(d, s, op).state;
      RunKeepsBooks(d, next, ops[1..], lost + gone);
      var later := LostInRun(d, next, ops[1..]);
      assert lost + gone + later == lost + (gone + later);
      EmptySum(gone, later);
    }
  }

  lemma EmptySum(a: multiset<int>, b: multiset<int>)
    ensures a + b == multiset{} <==> a == multiset{} && b == multiset{}
  {
    assert |a + b| == |a| + |b|;
  }

  lemma StepKeepsBooks(d: int, s: State, op: Op, lost: multiset<int>)
    requires Inv(d, s) && DegreeAccepted(d) && d >= 6 && SafeOp(d, s, op) && Books(s, lost)
    ensures Books(Apply(d, s, op).state, lost + if op.DeleteOp? then LostBy(d, s, op.key) else multiset{})
    ensures op.DeleteOp? ==>
              var n := Releases(d, s, op.key);
              LostBy(d, s, op.key) == multiset{} <==> n == 0 || (n == 1 && s.alloc.free == None)
  {
    assert lost + multiset{} == lost;
    match op
    case InsertOp(k, v) => InsertionLosesNothing(d, s, k, v, lost);
    case DeleteOp(k) => DeletionLosesPages(d, s, k, lost);
    case FindOp(k) => OpenKeepsBooks(s, lost);
  }

  /** The same for every guarded run from an empty store. */
  lemma RunFromEmptyKeepsBooks(d: int, ops: seq<Op>)
    requires DegreeAccepted(d) && d >= 6 && SafeRun(d, EMPTY, ops)
    ensures Books(Execute(d, EMPTY, ops).state, LostInRun(d, EMPTY, ops))
    ensures LostInRun(d, EMPTY, ops) == multiset{} <==> KeepsPages(d, EMPTY, ops)
  {
    EmptyInv(d);
    RunKeepsBooks(d, EMPTY, ops, multiset{});
    assert multiset{} + LostInRun(d, EMPTY, ops) == LostInRun(d, EMPTY, ops);
  }

  // -------- what the guard leaves out --------

  lemma {:induction false} NoSplitNoPage(d: int, t: Tree, key: int, val: Val, a: Alloc)
    requires Shaped(t) && KidsBalanced(t) && d >= 4 && KeepsHalves(d, t, key, a) && a.free.Some?
    ensures Insert(d, t, key, val, a).alloc == a
    decreases Depth(t)
  {
    hide Descend;
    if !IsLeaf(t) {
      DescendShape(d, t, key, a);
      KidKeepsHalves(d, t, key, a);
      var s := Descend(d, t, key, a);
      NoSplitNoPage(d, s.tree.kids[s.index], key, val, s.alloc);
    }
  }

  lemma StepKeepsFreePage(d: int, s: State, op: Op)
    requires Inv(d, s) && DegreeAccepted(d) && d >= 6 && SafeOp(d, s, op) && s.alloc.free.Some?
    ensures var a := Apply(d, s, op).state.alloc;
            a.free.Some? && a.pages == s.alloc.pages && (!op.DeleteOp? ==> a == s.alloc)
  {
    hide Insert, Delete, Shaped, Balanced, KidsBalanced;
    match op
    case InsertOp(k, v) =>
      StartValid(d, s);
      NoSplitNoPage(d, Start(d, s).tree, k, v, s.alloc);
    case DeleteOp(_) =>
    case FindOp(_) =>
  }

  /** Once a page is on the free list, a guarded run neither hands out a new page nor takes one from there. */
  lemma {:induction false} GuardedRunReusesNothing(d: int, s: State, ops: seq<Op>)
    requires Inv(d, s) && DegreeAccepted(d) && d >= 6 && SafeRun(d, s, ops) && s.alloc.free.Some?
    ensures var a := Execute(d, s, ops).state.alloc;
            a.free.Some? && a.pages == s.alloc.pages
    decreases |ops|
  {
    hide SafeOp, Apply, Abs, MapAfter, BTreeStates.Allowed, Inv;
    if ops != [] {
      StepRefinesMap(d, s, ops[0]);
      StepKeepsFreePage(d, s, ops[0]);
      GuardedRunReusesNothing(d, Apply(d, s, ops[0]).state, ops[1..]);
    }
  }
}
