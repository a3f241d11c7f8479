/** Over guarded runs the link kept by the page of the free list is one that a leaf of the tree has as well. */
module BTreeFreeLink {
  import opened Wrappers
  import opened Entries
  import opened BTree
  import opened BTreeSplit
  import opened BTreeInsert
  import opened BTreeDelete
  import opened BTreeStates
  import opened BTreePages
  import opened StoredTrees
  import opened BTreeScan
  import opened BTreeLinks

  /** Only leaves have links. */
  ghost predicate Bare(t: Tree) {
    (!IsLeaf(t) ==> t.next == None) && forall c {:trigger c in t.kids} :: c in t.kids ==> Bare(c)
  }

  /** Some page of the tree has this link. */
  ghost predicate HasNext(t: Tree, n: Option<int>) {
    t.next == n || exists c :: c in t.kids && HasNext(c, n)
  }

  ghost predicate NextsKept(t: Tree, u: Tree) { forall n :: HasNext(t, n) ==> HasNext(u, n) }

  lemma WithKidNexts(t: Tree, i: nat, c: Tree)
    requires i < |t.kids|
    ensures NextsKept(t.kids[i], c) ==> NextsKept(t, WithKid(t, i, c))
    ensures forall n :: HasNext(c, n) ==> HasNext(WithKid(t, i, c), n)
    ensures Bare(t) && Bare(c) ==> Bare(WithKid(t, i, c))
  {
    var u := WithKid(t, i, c);
    assert u.kids[i] == c && c in u.kids;
    forall n | NextsKept(t.kids[i], c) && HasNext(t, n) ensures HasNext(u, n) {
      if t.next != n {
        var k :| k in t.kids && HasNext(k, n);
        var j :| 0 <= j < |t.kids| && t.kids[j] == k;
        assert u.kids[j] in u.kids && HasNext(u.kids[j], n);
      }
    }
    if Bare(t) && Bare(c) {
      forall k | k in u.kids ensures Bare(k) { assert k in t.kids || k == c; }
    }
  }

  // -------- borrowing and merging --------

  lemma LendRightNexts(l: Tree, key: int, r: Tree)
    requires Siblings(l, r) && |l.keys| > 1 && Bare(l) && Bare(r)
    ensures var p := LendRight(l, key, r);
            && Bare(p.left) && Bare(p.right)
            && forall n :: HasNext(l, n) || HasNext(r, n) ==> HasNext(p.left, n) || HasNext(p.right, n)
  {
    var p := LendRight(l, key, r);
    if !IsLeaf(l) {
      assert l.kids == p.left.kids + [Last(l.kids)] && p.right.kids == [Last(l.kids)] + r.kids;
      Moved(l, r, p);
    }
  }

  lemma LendLeftNexts(l: Tree, key: int, r: Tree)
    requires Siblings(l, r) && |r.keys| > 1 && Bare(l) && Bare(r)
    ensures var p := LendLeft(l, key, r);
            && Bare(p.left) && Bare(p.right)
            && forall n :: HasNext(l, n) || HasNext(r, n) ==> HasNext(p.left, n) || HasNext(p.right, n)
  {
    var p := LendLeft(l, key, r);
    if !IsLeaf(l) {
      assert r.kids == [r.kids[0]] + p.right.kids && p.left.kids == l.kids + [r.kids[0]];
      Moved(l, r, p);
    }
  }

  lemma Moved(l: Tree, r: Tree, p: Pair)
    requires !IsLeaf(l) && !IsLeaf(r) && Bare(l) && Bare(r) && p.left.next == l.next && p.right.next == r.next
    requires p.left.kids + p.right.kids == l.kids + r.kids
    ensures Bare(p.left) && Bare(p.right)
    ensures forall n :: HasNext(l, n) || HasNext(r, n) ==> HasNext(p.left, n) || HasNext(p.right, n)
  {
    var all := p.left.kids + p.right.kids;
    forall c | c in all ensures c in l.kids || c in r.kids { assert c in l.kids + r.kids; }
    forall c | c in p.left.kids || c in p.right.kids ensures Bare(c) { assert c in all; }
    forall n | HasNext(l, n) || HasNext(r, n) ensures HasNext(p.left, n) || HasNext(p.right, n) {
      if l.next != n && r.next != n {
        var c :| (c in l.kids || c in r.kids) && HasNext(c, n);
        assert c in l.kids + r.kids;
      }
    }
  }

  lemma WithPairNexts(t: Tree, j: nat, p: Pair)
    requires j < |t.keys| && j + 1 < |t.kids| && Bare(t) && Bare(p.left) && Bare(p.right)
    requires forall n :: HasNext(t.kids[j], n) || HasNext(t.kids[j + 1], n) ==>
               HasNext(p.left, n) || HasNext(p.right, n)
    ensures Bare(WithPair(t, j, p)) && NextsKept(t, WithPair(t, j, p))
  {
    var u := WithPair(t, j, p);
    assert u.kids[j] == p.left && u.kids[j + 1] == p.right;
    assert p.left in u.kids && p.right in u.kids;
    forall c | c in u.kids ensures Bare(c) { assert c in t.kids || c == p.left || c == p.right; }
    forall n | HasNext(t, n) ensures HasNext(u, n) {
      if t.next != n {
        var c :| c in t.kids && HasNext(c, n);
        var i :| 0 <= i < |t.kids| && t.kids[i] == c;
        assert i != j && i != j + 1 ==> u.kids[i] == c && c in u.kids;
      }
    }
  }

  /** The page released by a merge leaves its link to the merged page, if it is a leaf. */
  lemma MergeNexts(t: Tree, j: nat)
    requires Shaped(t) && Balanced(t) && Bare(t) && j < |t.keys| && j + 1 < |t.kids|
    ensures Bare(MergeAt(t, j)) && j < |MergeAt(t, j).kids|
    ensures t.kids[j + 1].next == None || (IsLeaf(t.kids[j + 1]) && MergeAt(t, j).kids[j].next == t.kids[j + 1].next)
    ensures IsLeaf(MergeAt(t, j).kids[j]) <==> IsLeaf(t.kids[j + 1])
  {
    KidsAlike(t, j);
    var l, r, u := t.kids[j], t.kids[j + 1], MergeAt(t, j);
    assert l in t.kids && r in t.kids;
    var m := Join(l, t.keys[j], r);
    assert u.kids[j] == m;
    forall c | c in m.kids ensures Bare(c) { assert c in l.kids || c in r.kids; }
    forall c | c in u.kids ensures Bare(c) { assert c in t.kids || c == m; }
  }

  /** A repair without a merge keeps all links. The one page that a merge releases has no link, or is a
      leaf and its link passes to the leaf the descent goes on to. */
  lemma RepairNexts(d: int, t: Tree, i: nat)
    requires Shaped(t) && Balanced(t) && d >= 4 && i < |t.kids| && Bare(t)
    ensures var r := Repair(d, t, i);
            && r.index < |r.tree.kids| && Bare(r.tree) && |r.freed| <= 1
            && (r.freed == [] ==> NextsKept(t, r.tree))
            && (r.freed != [] ==>
                  var n := r.freed[0].next;
                  n == None || (IsLeaf(r.tree.kids[r.index]) && r.tree.kids[r.index].next == n))
  {
    hide LendLeft, LendRight, MergeAt, WithPair, Balanced, Repair, NextsKept, Bare;
    RepairIs(d, t, i);
    RepairShape(d, t, i);
    SelfKept(t);
    BareKids(t);
    if IsLacking(d, t.kids[i]) {
      if i > 0 && CanLend(d, t.kids[i - 1]) {
        LendRightNexts(t.kids[i - 1], t.keys[i - 1], t.kids[i]);
        WithPairNexts(t, i - 1, LendRight(t.kids[i - 1], t.keys[i - 1], t.kids[i]));
      } else if i + 1 < |t.kids| && CanLend(d, t.kids[i + 1]) {
        LendLeftNexts(t.kids[i], t.keys[i], t.kids[i + 1]);
        WithPairNexts(t, i, LendLeft(t.kids[i], t.keys[i], t.kids[i + 1]));
      } else if i > 0 {
        MergeNexts(t, i - 1);
      } else if i + 1 < |t.kids| {
        MergeNexts(t, i);
      }
    }
  }

  lemma SelfKept(t: Tree)
    ensures NextsKept(t, t)
  {
  }

  lemma BareKids(t: Tree)
    requires Bare(t)
    ensures forall j :: 0 <= j < |t.kids| ==> Bare(t.kids[j])
  {
    assert forall j :: 0 <= j < |t.kids| ==> t.kids[j] in t.kids;
  }

  // -------- deletion --------

  /** The last page released by a deletion has no link, or one that a page of the tree has. */
  ghost predicate LinkLeftBehind(u: Tree, freed: seq<FreePage>) {
    freed != [] ==> freed[|freed| - 1].next == None || HasNext(u, freed[|freed| - 1].next)
  }

  lemma {:induction false} DeletionNexts(d: int, t: Tree, key: int)
    requires Shaped(t) && Balanced(t) && d >= 4 && Bare(t)
    ensures var x := Delete(d, t, key);
            && Bare(x.tree) && (x.freed == [] ==> NextsKept(t, x.tree)) && LinkLeftBehind(x.tree, x.freed)
    decreases Depth(t)
  {
    hide Repair, Balanced, Bare, NextsKept, WithKid;
    if IsLeaf(t) {
      LeafNexts(t, DeleteLeaf(t, key).tree);
    } else {
      var i := ChildIndex(t.keys, key);
      RepairShape(d, t, i);
      RepairNexts(d, t, i);
      var r := Repair(d, t, i);
      var c := r.tree.kids[r.index];
      BareKids(r.tree);
      DeletionNexts(d, c, key);
      var x := Delete(d, c, key);
      WithKidNexts(r.tree, r.index, x.tree);
      var u := WithKid(r.tree, r.index, x.tree);
      if x.freed == [] && r.freed == [] {
        KeptThrough(t, r.tree, u);
      }
      if x.freed == [] && r.freed != [] && r.freed[0].next != None {
        assert HasNext(c, r.freed[0].next);
        KeptHere(c, x.tree, r.freed[0].next);
        assert HasNext(u, r.freed[0].next);
      }
    }
  }

  lemma KeptHere(t: Tree, u: Tree, n: Option<int>)
    requires NextsKept(t, u) && HasNext(t, n)
    ensures HasNext(u, n)
  {
  }

  lemma KeptThrough(t: Tree, u: Tree, v: Tree)
    requires NextsKept(t, u) && NextsKept(u, v)
    ensures NextsKept(t, v)
  {
  }

  lemma LeafNexts(t: Tree, u: Tree)
    requires IsLeaf(t) && IsLeaf(u) && u.next == t.next
    ensures NextsKept(t, u) && Bare(u)
  {
  }

  // -------- guarded insertion --------

  lemma HalvesBare(t: Tree, n: nat)
    requires Shaped(t) && |t.keys| > 1 && Bare(t)
    ensures var p := Split(t, Alloc(None, n));
            Bare(p.left) && Bare(p.right)
  {
    var p := Split(t, Alloc(None, n));
    forall c | c in p.left.kids || c in p.right.kids ensures Bare(c) { assert c in t.kids; }
  }

  lemma SplitKidBare(t: Tree, i: nat, p: SplitResult)
    requires i < |t.kids| && i <= |t.keys| && Bare(t) && Bare(p.left) && Bare(p.right)
    ensures Bare(SplitKid(t, i, p))
  {
    forall c | c in SplitKid(t, i, p).kids ensures Bare(c) { assert c in t.kids || c == p.left || c == p.right; }
  }

  lemma DescendBare(d: int, t: Tree, key: int, a: Alloc)
    requires Shaped(t) && KidsBalanced(t) && !IsLeaf(t) && d >= 4 && KeepsHalves(d, t, key, a) && Bare(t)
    ensures Bare(Descend(d, t, key, a).tree)
  {
    hide Split, SplitKid, Bare;
    var i := ChildIndex(t.keys, key);
    BareKids(t);
    assert t.kids[i] in t.kids;
    if NeedsSplit(d, t, key) {
      HalvesBare(t.kids[i], a.pages);
      SplitKidBare(t, i, Split(t.kids[i], a));
    }
  }

  lemma {:induction false} InsertionNexts(d: int, t: Tree, key: int, val: Val, a: Alloc)
    requires Shaped(t) && KidsBalanced(t) && d >= 4 && KeepsHalves(d, t, key, a) && Bare(t)
    ensures Bare(Insert(d, t, key, val, a).tree)
    ensures a.free.Some? ==> NextsKept(t, Insert(d, t, key, val, a).tree)
    decreases Depth(t)
  {
    hide Descend, Bare, NextsKept, WithKid;
    if IsLeaf(t) {
      LeafNexts(t, InsertLeaf(t, key, val));
    } else {
      DescendShape(d, t, key, a);
      KidKeepsHalves(d, t, key, a);
      DescendBare(d, t, key, a);
      var s := Descend(d, t, key, a);
      BareKids(s.tree);
      InsertionNexts(d, s.tree.kids[s.index], key, val, s.alloc);
      WithKidNexts(s.tree, s.index, Insert(d, s.tree.kids[s.index], key, val, s.alloc).tree);
    }
  }

  // -------- runs --------

  /** The link of the free page is also the link of a leaf, or no link. */
  ghost predicate FreeLinkKnown(s: State) {
    && (s.root.Some? ==> Bare(s.root.value))
    && (s.alloc.free.Some? ==>
          s.root.Some? && (s.alloc.free.value.next == None || HasNext(s.root.value, s.alloc.free.value.next)))
  }

  lemma OpenKnown(s: State)
    requires FreeLinkKnown(s)
    ensures FreeLinkKnown(State(Some(Open(s).tree), Open(s).alloc))
  {
  }

  lemma InsertKeepsKnown(d: int, s: State, key: int, val: Val)
    requires Inv(d, s) && DegreeAccepted(d) && d >= 6 && SafeInsert(d, s, key) && FreeLinkKnown(s)
    ensures FreeLinkKnown(InsertInto(d, s, key, val).state)
  {
    hide *;
    OpenReady(d, s);
    InsertionSafe(d, s, key);
    StartValid(d, s);
    StartKnown(d, s);
    var i := Start(d, s);
    InsertionNexts(d, i.tree, key, val, i.alloc);
    InsertIntoIs(d, s, key, val);
    if i.alloc.free.Some? {
      NoSplitNoPage(d, i.tree, key, val, i.alloc);
    } else {
      NothingFreed(d, i.tree, key, val, i.alloc);
    }
    KnownAfter(i.tree, i.alloc, Insert(d, i.tree, key, val, i.alloc));
  }

  lemma InsertionSafe(d: int, s: State, key: int)
    requires RootReady(s) && d >= 4 && SafeInsert(d, s, key)
    ensures var o := Start(d, s);
            Shaped(o.tree) && KidsBalanced(o.tree) && KeepsHalves(d, o.tree, key, o.alloc)
    ensures IsFull(d, Open(s).tree) ==> Open(s).alloc.free == None
  {
  }

  lemma StartKnown(d: int, s: State)
    requires RootReady(s) && d >= 4 && FreeLinkKnown(s) && (IsFull(d, Open(s).tree) ==> Open(s).alloc.free == None)
    ensures FreeLinkKnown(State(Some(Start(d, s).tree), Start(d, s).alloc))
  {
    var o := Open(s);
    OpenKnown(s);
    if IsFull(d, o.tree) { GrownBare(d, o.tree, o.alloc.pages); }
  }

  lemma KnownAfter(t: Tree, a: Alloc, r: Inserted)
    requires FreeLinkKnown(State(Some(t), a)) && Bare(r.tree) && (a.free.Some? ==> NextsKept(t, r.tree))
    requires if a.free.Some? then r.alloc == a else r.alloc.free == None
    ensures FreeLinkKnown(State(Some(r.tree), r.alloc))
  {
  }

  lemma GrownBare(d: int, t: Tree, n: nat)
    requires Shaped(t) && |t.keys| > 1 && Bare(t) && IsFull(d, t)
    ensures Bare(Grow(d, t, Alloc(None, n)).tree) && Grow(d, t, Alloc(None, n)).alloc.free == None
  {
    HalvesBare(t, n);
    var g := Grow(d, t, Alloc(None, n)).tree;
    assert g.kids == [Split(t, Alloc(None, n)).left, Split(t, Alloc(None, n)).right];
  }

  lemma NothingFreed(d: int, t: Tree, key: int, val: Val, a: Alloc)
    requires Shaped(t) && Balanced(t) && d >= 4 && a.free == None
    ensures KidsBalanced(t) && Insert(d, t, key, val, a).alloc.free == None
  {
    BalancedKids(t);
    InsertBag(d, t, key, val, a);
  }

  lemma DeleteKeepsKnown(d: int, s: State, key: int)
    requires Inv(d, s) && DegreeAccepted(d) && d >= 6 && FreeLinkKnown(s)
    ensures FreeLinkKnown(DeleteFrom(d, s, key).state)
  {
    hide HasNext, Delete, Valid;
    OpenKnown(s);
    OpenReady(d, s);
    var o := Open(s);
    DeletionNexts(d, o.tree, key);
    DeleteShape(d, o.tree, key);
    var x := Delete(d, o.tree, key);
    CollapseNexts(x.tree);
    LastOfBoth(x.freed, Collapse(x.tree).1);
  }

  lemma OpenReady(d: int, s: State)
    requires Inv(d, s) && DegreeAccepted(d)
    ensures RootReady(s) && (s.root.Some? ==> Shaped(s.root.value) && Balanced(s.root.value))
    ensures Shaped(Open(s).tree) && Balanced(Open(s).tree)
  {
    OpenInv(d, s);
  }

  lemma CollapseNexts(t: Tree)
    requires Bare(t)
    ensures var (u, more) := Collapse(t);
            Bare(u) && (if more == [] then u == t else |more| == 1 && more[0].next == None)
  {
    if t.keys == [] && !IsLeaf(t) { assert t.kids[0] in t.kids; }
  }

  lemma LastOfBoth(a: seq<FreePage>, b: seq<FreePage>)
    ensures a + b != [] ==> (a + b)[|a + b| - 1] == if b == [] then a[|a| - 1] else b[|b| - 1]
  {
  }

  lemma {:induction false} RunKeepsKnown(d: int, s: State, ops: seq<Op>)
    requires Inv(d, s) && DegreeAccepted(d) && d >= 6 && SafeRun(d, s, ops) && FreeLinkKnown(s)
    ensures FreeLinkKnown(Execute(d, s, ops).state)
    decreases |ops|
  {
    hide SafeInsert, Abs, MapAfter, BTreeStates.Allowed, Inv, FreeLinkKnown, InsertInto, DeleteFrom;
    if ops != [] {
      StepRefinesMap(d, s, ops[0]);
      match ops[0] {
        case InsertOp(k, v) => InsertKeepsKnown(d, s, k, v);
        case DeleteOp(k) => DeleteKeepsKnown(d, s, k);
        case FindOp(_) => OpenKnown(s);
      }
      RunKeepsKnown(d, Apply(d, s, ops[0]).state, ops[1..]);
    }
  }

  lemma {:induction false} NextOfLeaf(t: Tree, n: int) returns (i: nat)
    requires Bare(t) && HasNext(t, Some(n))
    ensures i < |Leaves(t)| && Leaves(t)[i].next == Some(n)
    decreases t, 1
  {
    if IsLeaf(t) {
      i := 0;
    } else {
      i := NextOfLeafBelow(t.kids, n);
    }
  }

  lemma {:induction false} NextOfLeafBelow(ts: seq<Tree>, n: int) returns (i: nat)
    requires (forall c {:trigger c in ts} :: c in ts ==> Bare(c)) && (exists c :: c in ts && HasNext(c, Some(n)))
    ensures i < |LeavesOf(ts)| && LeavesOf(ts)[i].next == Some(n)
    decreases ts, 0
  {
    assert ts[0] in ts;
    if HasNext(ts[0], Some(n)) {
      i := NextOfLeaf(ts[0], n);
    } else {
      var c :| c in ts && HasNext(c, Some(n));
      assert c in ts[1..];
      forall e | e in ts[1..] ensures Bare(e) { assert e in ts; }
      i := NextOfLeafBelow(ts[1..], n);
      i := |Leaves(ts[0])| + i;
    }
  }

  /** No link, or one to a leaf of the tree. */
  ghost predicate ToLeaf(t: Tree, link: Option<int>) {
    link.Some? ==> exists j: nat :: j < |Leaves(t)| && Leaves(t)[j].id == link.value
  }

  /** After every guarded run the page of the free list has no link, or one to a leaf of the tree. */
  lemma FreePageLinksToLeaf(d: int, ops: seq<Op>)
    requires DegreeAccepted(d) && d >= 6 && SafeRun(d, EMPTY, ops)
    ensures var s := Execute(d, EMPTY, ops).state;
            s.alloc.free.Some? ==>
              s.root.Some? && ToLeaf(s.root.value, s.alloc.free.value.next)
  {
    EmptyInv(d);
    RunKeepsKnown(d, EMPTY, ops);
    RunRefinesMap(d, EMPTY, ops);
    var s := Execute(d, EMPTY, ops).state;
    if s.alloc.free.Some? && s.alloc.free.value.next.Some? {
      var n := s.alloc.free.value.next.value;
      var i := NextOfLeaf(s.root.value, n);
      var ls := Leaves(s.root.value);
      assert ls[i].next == Successor(ls, i, None);
      assert ls[i + 1].id == n;
    }
  }

  /** An insertion after a guarded run that splits leaf m into the free page: from leaf m the chain goes on to
      that page and from there along the link it kept. From every leaf up to m it ends if and only if that
      link is none or leads behind leaf m; from the leaves behind m it always ends. */
  lemma ChainAfterReuse(d: int, ops: seq<Op>, key: int, p: map<int, PageImage>, q: map<int, PageImage>)
    returns (m: nat)
    requires DegreeAccepted(d) && d >= 6 && SafeRun(d, EMPTY, ops)
    requires RootReady(Execute(d, EMPTY, ops).state) && SplitsLeafIntoFree(d, Execute(d, EMPTY, ops).state, key)
    requires var s := Execute(d, EMPTY, ops).state;
             var f := s.alloc.free.value;
             && Stored(p, s.root.value) && f.id in p && p[f.id].nextLeaf == f.next
             && OneNewLink(p, q, FindLeaf(s.root.value, key).id, f.id)
    ensures var s := Execute(d, EMPTY, ops).state;
            var ls, f := Leaves(s.root.value), s.alloc.free.value;
            && m < |ls| && ls[m] == FindLeaf(s.root.value, key)
            && (forall i: nat :: i <= m ==> Follow(q, Some(ls[0].id), i) == Some(ls[i].id))
            && Follow(q, Some(ls[0].id), m + 1) == Some(f.id)
            && (forall n: nat :: Follow(q, Some(ls[0].id), m + 2 + n) == Follow(q, f.next, n))
            && (forall k: nat :: k < |ls| ==>
                  (Ends(q, Some(ls[k].id)) <==>
                   k > m || f.next == None || exists j :: m < j < |ls| && f.next == Some(ls[j].id)))
  {
    hide *;
    FreePageLinksToLeaf(d, ops);
    var s := Execute(d, EMPTY, ops).state;
    RunLinked(d, ops, p);
    SplitNeedsFree(d, s, key);
    var t, f := s.root.value, s.alloc.free.value;
    m := FoundLeafIndex(t, key);
    LinkedShaped(p, t);
    FreeLinkLeads(p, t, f.next);
    ChainAfterwards(p, q, t, m, f.id);
    EndsWithoutLeaf(p, t, m, f.next);
  }

  lemma RunLinked(d: int, ops: seq<Op>, p: map<int, PageImage>)
    requires DegreeAccepted(d) && d >= 6 && SafeRun(d, EMPTY, ops)
    ensures var s := Execute(d, EMPTY, ops).state;
            && Inv(d, s) && (s.root.Some? && Stored(p, s.root.value) ==> LeavesLinked(p, s.root.value))
  {
    EmptyInv(d);
    RunRefinesMap(d, EMPTY, ops);
  }

  lemma SplitNeedsFree(d: int, s: State, key: int)
    requires RootReady(s) && SplitsLeafIntoFree(d, s, key)
    ensures s.root.Some? && s.alloc.free.Some?
  {
  }

  lemma LinkedShaped(p: map<int, PageImage>, t: Tree)
    requires LeavesLinked(p, t)
    ensures Shaped(t)
  {
  }

  lemma FreeLinkLeads(p: map<int, PageImage>, t: Tree, link: Option<int>)
    requires LeavesLinked(p, t) && ToLeaf(t, link)
    ensures Leads(p, link)
  {
    if link.Some? {
      var j: nat :| j < |Leaves(t)| && Leaves(t)[j].id == link.value;
      LeafLeads(p, t, j);
    }
  }

  lemma EndsWithoutLeaf(p: map<int, PageImage>, t: Tree, m: nat, link: Option<int>)
    requires LeavesLinked(p, t) && m < |Leaves(t)| && ToLeaf(t, link)
    ensures EndsWithout(p, link, Leaves(t)[m].id)
      <==> link == None || exists j :: m < j < |Leaves(t)| && link == Some(Leaves(t)[j].id)
  {
    var ls := Leaves(t);
    if link.Some? {
      var j: nat :| j < |ls| && ls[j].id == link.value;
      EndsBehind(p, t, j, m);
      if k: nat :| m < k < |ls| && link == Some(ls[k].id) { EndsBehind(p, t, k, m); }
    } else {
      NoneMeetsNothing(p, ls[m].id, 0);
    }
  }
}
