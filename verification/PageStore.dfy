/** The page store and the node operations, in place on pages. */
module PageNodes {
  import opened Wrappers
  import opened Entries
  import opened BTree
  import opened BTreeSplit
  import opened BTreeInsert
  import opened BTreeDelete
  import opened BTreeStates
  import opened StoredTrees

  // -------- search inside a page --------

  datatype FindKeyResponse = GreaterThanTheLast(index: nat) | Equal(index: nat) | LessThan(index: nat)

  /** Where a key stands among sorted keys. */
  ghost predicate Locates(r: FindKeyResponse, keys: seq<int>, key: int) {
    match r
    case Equal(i) => i < |keys| && keys[i] == key
    case LessThan(i) => i < |keys| && key < keys[i] && forall j :: 0 <= j < i ==> keys[j] < key
    case GreaterThanTheLast(i) => (keys == [] ==> i == 0) && (keys != [] ==> i == |keys| - 1)
                                  && forall j :: 0 <= j < |keys| ==> keys[j] < key
  }

  method BinarySearch(key: int, keys: seq<int>) returns (r: FindKeyResponse)
    requires SortedKeys(keys)
    ensures Locates(r, keys, key)
  {
    var last := if |keys| == 0 then 0 else |keys| - 1;
    var high := last;
    var low := 0;
    if |keys| == 0 || key > keys[last] {
      return GreaterThanTheLast(last);
    }
    while high - low > 8
      invariant 0 <= low <= high <= last
      invariant forall j :: 0 <= j < low ==> keys[j] < key
      invariant key <= keys[high]
    {
      var mid := (low + high) / 2;
      if key == keys[mid] {
        return Equal(mid);
      } else if key < keys[mid] {
        high := mid;
      } else {
        low := mid + 1;
      }
    }
    for i := low to high + 1
      invariant forall j :: 0 <= j < i ==> keys[j] < key
    {
      if key < keys[i] {
        return LessThan(i);
      } else if key == keys[i] {
        return Equal(i);
      }
    }
    assert false;
  }

  /** The answer of the search, as the position an insertion or a descent uses. */
  lemma LocatedIndex(r: FindKeyResponse, keys: seq<int>, key: int)
    requires SortedKeys(keys) && Locates(r, keys, key)
    ensures r.Equal? <==> key in keys
    ensures ChildIndex(keys, key) == match r
      case Equal(i) => i + 1
      case LessThan(i) => i
      case GreaterThanTheLast(_) => |keys|
  {
    match r
    case Equal(i) => ChildIndexUnique(keys, key, i + 1);
    case LessThan(i) =>
      ChildIndexUnique(keys, key, i);
      assert forall j :: i <= j < |keys| ==> keys[i] <= keys[j];
    case GreaterThanTheLast(_) => ChildIndexUnique(keys, key, |keys|);
  }

  lemma FirstAbove(keys: seq<int>, key: int, i: nat)
    requires i <= |keys| && (forall j :: 0 <= j < i ==> keys[j] <= key) && (i < |keys| ==> key < keys[i])
    ensures ChildIndex(keys, key) == i
  {
  }

  lemma DescendIs(d: int, t: Tree, key: int, a: Alloc)
    requires Shaped(t) && KidsBalanced(t) && !IsLeaf(t) && d >= 4
    ensures var i := ChildIndex(t.keys, key);
            var c := t.kids[i];
            Shaped(c) &&
            Descend(d, t, key, a) ==
            if |c.keys| < d - 1 then Step(t, i, a)
            else
              var s := Split(c, a);
              Step(SplitKid(t, i, s),
                   if (if i == |t.keys| then key > s.key else key >= s.key) then i + 1 else i,
                   s.alloc)
  {
    assert t.kids[ChildIndex(t.keys, key)] in t.kids;
  }

  lemma StoredKid(p: map<int, PageImage>, t: Tree, i: nat)
    requires KidsStored(p, t) && i < |t.kids|
    ensures t.kids[i].id in p && p[t.kids[i].id] == ImageOf(t.kids[i]) && KidsStored(p, t.kids[i])
    ensures ImageOf(t).children[i] == t.kids[i].id
  {
    assert t.kids[i] in t.kids;
  }

  /** The store after an operation on child i of u, once the child is written back. */
  lemma AfterKid(p: map<int, PageImage>, q: map<int, PageImage>, r: map<int, PageImage>,
      u: Tree, i: nat, c: Tree, a: Alloc, b: Alloc)
    requires KidsStored(p, u) && i < |u.kids| && PagesHeldOnce(Bag(u), a)
    requires KidsStored(q, c) && c.id == u.kids[i].id && PagesHeldOnce(Bag(c), b)
    requires SameExcept(p, q, BagOf(u.kids[i].kids) + FreeOf(a))
    requires c.id in r && r[c.id] == ImageOf(c) && SameExcept(q, r, multiset{c.id})
    ensures KidsStored(r, WithKid(u, i, c))
    ensures SameExcept(p, r, Bag(u.kids[i]) + FreeOf(a))
  {
    HeldFacts(u, a);
    HeldFacts(c, b);
    StoredAfterWrite(q, r, c);
    StoredWithKid(p, r, u, i, c, FreeOf(a));
  }

  lemma InsertUnfolds(d: int, t: Tree, key: int, val: Val, a: Alloc)
    requires Shaped(t) && KidsBalanced(t) && !IsLeaf(t) && d >= 4
    ensures var s := Descend(d, t, key, a);
            && s.index < |s.tree.kids| && Shaped(s.tree.kids[s.index]) && KidsBalanced(s.tree.kids[s.index])
            && var r := Insert(d, s.tree.kids[s.index], key, val, s.alloc);
               Insert(d, t, key, val, a) == Inserted(WithKid(s.tree, s.index, r.tree), r.alloc)
  {
    DescendShape(d, t, key, a);
  }

  lemma WithKidImage(u: Tree, i: nat, c: Tree)
    requires i < |u.kids| && c.id == u.kids[i].id
    ensures ImageOf(WithKid(u, i, c)) == ImageOf(u)
  {
    assert Ids(u.kids[i := c]) == Ids(u.kids);
  }

  /** The page of the subtree itself is not touched before it is written back. */
  lemma WrittenBack(p: map<int, PageImage>, q: map<int, PageImage>, c: Tree, c': Tree, a: Alloc)
    requires c.id in p && p[c.id] == ImageOf(c) && c'.id == c.id && PagesHeldOnce(Bag(c), a)
    requires SameExcept(p, q, BagOf(c.kids) + FreeOf(a))
    ensures c'.id in q && q[c'.id] == ImageOf(c)
    ensures SameExcept(q, q[c'.id := ImageOf(c')], multiset{c'.id})
  {
    HeldFacts(c, a);
    assert Bag(c) == multiset{c.id} + BagOf(c.kids);
    assert Bag(c)[c.id] <= 1;
    BagHasId(c);
  }

  /** Pages outside t's children and the free page were not touched on the way. */
  lemma FrameThrough(p: map<int, PageImage>, q: map<int, PageImage>, r: map<int, PageImage>,
      t: Tree, a: Alloc, u: Tree, i: nat, b: Alloc)
    requires forall x :: x in p ==> 0 <= x < a.pages
    requires u.id == t.id && i < |u.kids| && PagesHeldOnce(Bag(u), b) && a.pages <= b.pages
    requires Bag(u) + FreeOf(b) <= Bag(t) + FreeOf(a) + Range(a.pages, b.pages)
    requires SameExcept(p, q, BagOf(t.kids) + FreeOf(a)) && SameExcept(q, r, Bag(u.kids[i]) + FreeOf(b))
    ensures SameExcept(p, r, BagOf(t.kids) + FreeOf(a))
  {
    HeldFacts(u, b);
    KidDistinct(u, i);
    KidBag(u, i);
    forall x | x in p && x !in BagOf(t.kids) + FreeOf(a) ensures x !in Bag(u.kids[i]) + FreeOf(b) {
      RangeMember(a.pages, b.pages, x);
      assert (Bag(u) + FreeOf(b))[x] <= (Bag(t) + FreeOf(a) + Range(a.pages, b.pages))[x];
      assert Bag(u) == multiset{u.id} + BagOf(u.kids);
      assert x == t.id ==> x !in FreeOf(b);
    }
  }

  // -------- deletion --------

  lemma LendRightImages(l: Tree, key: int, r: Tree)
    requires Siblings(l, r) && |l.keys| > 1
    ensures var p := LendRight(l, key, r);
            var (x, y) := (ImageOf(l), ImageOf(r));
            x.keys != [] && if IsLeaf(r) then
              && x.children == [] && y.children == [] && x.values != []
              && ImageOf(p.left) == x.(keys := Front(x.keys), values := Front(x.values))
              && ImageOf(p.right) == y.(keys := [Last(x.keys)] + y.keys, values := [Last(x.values)] + y.values)
              && p.key == Last(x.keys)
            else
              && x.children != [] && y.children != []
              && ImageOf(p.left) == x.(keys := Front(x.keys), children := Front(x.children))
              && ImageOf(p.right) == y.(keys := [key] + y.keys, children := [Last(x.children)] + y.children)
              && p.key == Last(x.keys)
  {
    if !IsLeaf(l) {
      assert Ids(Front(l.kids)) == Front(Ids(l.kids));
      assert Ids([Last(l.kids)] + r.kids) == [Last(Ids(l.kids))] + Ids(r.kids);
    }
  }

  lemma LendLeftImages(l: Tree, key: int, r: Tree)
    requires Siblings(l, r) && |r.keys| > 1
    ensures var p := LendLeft(l, key, r);
            var (x, y) := (ImageOf(l), ImageOf(r));
            |y.keys| > 1 && if IsLeaf(l) then
              && x.children == [] && y.children == [] && y.values != []
              && ImageOf(p.left) == x.(keys := x.keys + [y.keys[0]], values := x.values + [y.values[0]])
              && ImageOf(p.right) == y.(keys := y.keys[1..], values := y.values[1..])
              && p.key == y.keys[1]
            else
              && x.children != [] && y.children != []
              && ImageOf(p.left) == x.(keys := x.keys + [key], children := x.children + [y.children[0]])
              && ImageOf(p.right) == y.(keys := y.keys[1..], children := y.children[1..])
              && p.key == y.keys[0]
  {
    if !IsLeaf(l) {
      assert Ids(l.kids + [r.kids[0]]) == Ids(l.kids) + [Ids(r.kids)[0]];
      assert Ids(r.kids[1..]) == Ids(r.kids)[1..];
    }
  }

  lemma JoinImage(l: Tree, key: int, r: Tree)
    requires Siblings(l, r)
    ensures var (x, y) := (ImageOf(l), ImageOf(r));
            ImageOf(Join(l, key, r)) ==
            if IsLeaf(l) then x.(keys := x.keys + y.keys, values := x.values + y.values, nextLeaf := y.nextLeaf)
            else x.(keys := x.keys + [key] + y.keys, children := x.children + y.children)
    ensures ImageOf(l).children == [] <==> IsLeaf(l)
    ensures ImageOf(r).children == [] <==> IsLeaf(l)
  {
    if !IsLeaf(l) { assert Ids(l.kids + r.kids) == Ids(l.kids) + Ids(r.kids); }
  }

  lemma WithPairImage(t: Tree, j: nat, p: Pair)
    requires j < |t.keys| && j + 1 < |t.kids| && p.left.id == t.kids[j].id && p.right.id == t.kids[j + 1].id
    ensures ImageOf(WithPair(t, j, p)) == ImageOf(t).(keys := t.keys[j := p.key])
  {
    assert Ids(WithPair(t, j, p).kids) == Ids(t.kids);
  }

  lemma MergeAtImage(t: Tree, j: nat)
    requires j < |t.keys| && j + 1 < |t.kids|
    ensures var img := ImageOf(t);
            ImageOf(MergeAt(t, j)) == img.(keys := t.keys[..j] + t.keys[j + 1..],
                                           children := img.children[..j + 1] + img.children[j + 2..])
  {
    assert Ids(MergeAt(t, j).kids) == Ids(t.kids)[..j + 1] + Ids(t.kids)[j + 2..];
  }

  /** Grandchildren are apart from the pages rewritten in a repair. */
  lemma GrandkidStays(p: map<int, PageImage>, q: map<int, PageImage>, t: Tree, j: nat, c: Tree)
    requires KidsStored(p, t) && Distinct(t) && j + 1 < |t.kids|
    requires c in t.kids[j].kids || c in t.kids[j + 1].kids
    requires SameExcept(p, q, multiset{t.kids[j].id, t.kids[j + 1].id})
    ensures Stored(q, c)
  {
    var b := if c in t.kids[j].kids then j else j + 1;
    var o := if b == j then j + 1 else j;
    var k :| 0 <= k < |t.kids[b].kids| && t.kids[b].kids[k] == c;
    StoredKid(p, t, b);
    StoredKid(p, t.kids[b], k);
    KidDistinct(t, b);
    KidDistinct(t.kids[b], k);
    BagHasId(t.kids[o]);
    KidsApart(t, o, b, t.kids[o].id);
    KidBag(t.kids[b], k);
    StoredFrame(p, q, c);
  }

  /** Children beside a repaired pair are untouched. */
  lemma BystanderStays(p: map<int, PageImage>, q: map<int, PageImage>, t: Tree, j: nat, i: nat)
    requires KidsStored(p, t) && Distinct(t) && j + 1 < |t.kids| && i < |t.kids| && i != j && i != j + 1
    requires SameExcept(p, q, multiset{t.kids[j].id, t.kids[j + 1].id})
    ensures Stored(q, t.kids[i])
  {
    assert t.kids[i] in t.kids;
    BagHasId(t.kids[j]);
    BagHasId(t.kids[j + 1]);
    KidsApart(t, j, i, t.kids[j].id);
    KidsApart(t, j + 1, i, t.kids[j + 1].id);
    StoredFrame(p, q, t.kids[i]);
  }

  lemma StoredPair(p: map<int, PageImage>, q: map<int, PageImage>, t: Tree, j: nat, pr: Pair)
    requires KidsStored(p, t) && Distinct(t) && j + 1 < |t.kids| && j < |t.keys|
    requires forall c {:trigger c in pr.left.kids} :: c in pr.left.kids ==>
               c in t.kids[j].kids || c in t.kids[j + 1].kids
    requires forall c {:trigger c in pr.right.kids} :: c in pr.right.kids ==>
               c in t.kids[j].kids || c in t.kids[j + 1].kids
    requires pr.left.id in q && q[pr.left.id] == ImageOf(pr.left)
    requires pr.right.id in q && q[pr.right.id] == ImageOf(pr.right)
    requires SameExcept(p, q, multiset{t.kids[j].id, t.kids[j + 1].id})
    ensures KidsStored(q, WithPair(t, j, pr))
  {
    forall c | c in pr.left.kids || c in pr.right.kids ensures Stored(q, c) { GrandkidStays(p, q, t, j, c); }
    var u := WithPair(t, j, pr);
    forall k | k in u.kids ensures Stored(q, k) {
      var i :| 0 <= i < |u.kids| && u.kids[i] == k;
      if i != j && i != j + 1 { BystanderStays(p, q, t, j, i); }
    }
  }

  lemma StoredMerge(p: map<int, PageImage>, q: map<int, PageImage>, t: Tree, j: nat)
    requires KidsStored(p, t) && Distinct(t) && j + 1 < |t.kids| && j < |t.keys|
    requires var m := Join(t.kids[j], t.keys[j], t.kids[j + 1]);
             m.id in q && q[m.id] == ImageOf(m)
    requires SameExcept(p, q, multiset{t.kids[j].id})
    ensures KidsStored(q, MergeAt(t, j))
  {
    var m := Join(t.kids[j], t.keys[j], t.kids[j + 1]);
    forall c | c in m.kids ensures Stored(q, c) {
      assert c in t.kids[j].kids || c in t.kids[j + 1].kids;
      GrandkidStays(p, q, t, j, c);
    }
    var u := MergeAt(t, j);
    forall k | k in u.kids ensures Stored(q, k) {
      var i :| 0 <= i < |u.kids| && u.kids[i] == k;
      if i < j { BystanderStays(p, q, t, j, i); }
      if i > j {
        assert u.kids[i] == t.kids[i + 1];
        BystanderStays(p, q, t, j, i + 1);
      }
    }
  }

  lemma NeighboursStored(p: map<int, PageImage>, t: Tree, i: nat)
    requires KidsStored(p, t) && Shaped(t) && i < |t.kids|
    ensures |ImageOf(t).children| == |t.kids| && forall j :: 0 <= j < |t.kids| ==>
              ImageOf(t).children[j] == t.kids[j].id
    ensures i > 0 ==> t.kids[i - 1].id in p && p[t.kids[i - 1].id] == ImageOf(t.kids[i - 1])
    ensures i + 1 < |t.kids| ==> t.kids[i + 1].id in p && p[t.kids[i + 1].id] == ImageOf(t.kids[i + 1])
  {
    if i > 0 { StoredKid(p, t, i - 1); }
    if i + 1 < |t.kids| { StoredKid(p, t, i + 1); }
  }

  lemma PairWritten(p: map<int, PageImage>, t: Tree, j: nat, pr: Pair, a: Alloc)
    requires KidsStored(p, t) && PagesHeldOnce(Bag(t), a) && j + 1 < |t.kids| && j < |t.keys|
    requires pr.left.id == t.kids[j].id && pr.right.id == t.kids[j + 1].id
    requires forall c {:trigger c in pr.left.kids} :: c in pr.left.kids ==>
               c in t.kids[j].kids || c in t.kids[j + 1].kids
    requires forall c {:trigger c in pr.right.kids} :: c in pr.right.kids ==>
               c in t.kids[j].kids || c in t.kids[j + 1].kids
    ensures pr.left.id in p && pr.right.id in p && pr.left.id != pr.right.id
    ensures a.free.Some? ==> a.free.value.id != pr.left.id && a.free.value.id != pr.right.id
    ensures var q := p[pr.right.id := ImageOf(pr.right)][pr.left.id := ImageOf(pr.left)];
            KidsStored(q, WithPair(t, j, pr)) && SameExcept(p, q, BagOf(t.kids))
  {
    hide Stored, KidsStored, ImageOf, WithPair, PagesHeldOnce, Bag, BagOf;
    PairApart(p, t, j, a);
    var q := p[pr.right.id := ImageOf(pr.right)][pr.left.id := ImageOf(pr.left)];
    StoredPair(p, q, t, j, pr);
  }

  /** Two neighbours have their own pages, among those of the children. */
  lemma PairApart(p: map<int, PageImage>, t: Tree, j: nat, a: Alloc)
    requires KidsStored(p, t) && PagesHeldOnce(Bag(t), a) && j + 1 < |t.kids|
    ensures t.kids[j].id in p && t.kids[j + 1].id in p && t.kids[j].id != t.kids[j + 1].id
    ensures a.free.Some? ==> a.free.value.id != t.kids[j].id && a.free.value.id != t.kids[j + 1].id
    ensures Distinct(t) && t.kids[j].id in BagOf(t.kids) && t.kids[j + 1].id in BagOf(t.kids)
  {
    HeldFacts(t, a);
    StoredKid(p, t, j);
    StoredKid(p, t, j + 1);
    BagHasId(t.kids[j]);
    BagHasId(t.kids[j + 1]);
    KidsApart(t, j + 1, j, t.kids[j + 1].id);
    KidBag(t, j);
    KidBag(t, j + 1);
    PairCut(t, j);
    LeavesCut(t.kids[..j], [t.kids[j], t.kids[j + 1]], t.kids[j + 2..]);
    PairLeaves(t.kids[j], t.kids[j + 1]);
  }

  lemma LendRightKids(l: Tree, key: int, r: Tree)
    requires Siblings(l, r) && |l.keys| > 1
    ensures var p := LendRight(l, key, r);
            && (forall c {:trigger c in p.left.kids} :: c in p.left.kids ==> c in l.kids || c in r.kids)
            && (forall c {:trigger c in p.right.kids} :: c in p.right.kids ==> c in l.kids || c in r.kids)
  {
  }

  lemma LendLeftKids(l: Tree, key: int, r: Tree)
    requires Siblings(l, r) && |r.keys| > 1
    ensures var p := LendLeft(l, key, r);
            && (forall c {:trigger c in p.left.kids} :: c in p.left.kids ==> c in l.kids || c in r.kids)
            && (forall c {:trigger c in p.right.kids} :: c in p.right.kids ==> c in l.kids || c in r.kids)
  {
  }

  lemma MergeWritten(p: map<int, PageImage>, t: Tree, j: nat, a: Alloc)
    requires KidsStored(p, t) && PagesHeldOnce(Bag(t), a) && j + 1 < |t.kids| && j < |t.keys|
    ensures var m := Join(t.kids[j], t.keys[j], t.kids[j + 1]);
            var q := p[m.id := ImageOf(m)];
            && m.id in p && m.id == t.kids[j].id && (a.free.Some? ==> a.free.value.id != m.id)
            && t.kids[j + 1].id in q && q[t.kids[j + 1].id].nextLeaf == t.kids[j + 1].next
            && KidsStored(q, MergeAt(t, j)) && SameExcept(p, q, BagOf(t.kids))
            && j < |MergeAt(t, j).kids| && MergeAt(t, j).kids[j] == m
  {
    HeldFacts(t, a);
    StoredKid(p, t, j);
    StoredKid(p, t, j + 1);
    BagHasId(t.kids[j]);
    KidsApart(t, j, j + 1, t.kids[j].id);
    BagHasId(t.kids[j + 1]);
    KidBag(t, j);
    KidCut(t, j);
    LeavesCut(t.kids[..j], [t.kids[j]], t.kids[j + 1..]);
    LeavesOne(t.kids[j]);
    var m := Join(t.kids[j], t.keys[j], t.kids[j + 1]);
    StoredMerge(p, p[m.id := ImageOf(m)], t, j);
  }

  lemma ReleaseNone(a: Alloc)
    ensures Release(a, []) == a
  {
  }

  lemma ReleaseOne(a: Alloc, t: Tree)
    ensures Release(a, [Released(t)]) == Alloc(Some(FreePage(t.id, t.next)), a.pages) && Release(a, []) == a
  {
  }

  lemma DeleteUnfolds(d: int, t: Tree, key: int)
    requires Shaped(t) && Balanced(t) && !IsLeaf(t) && d >= 4
    ensures var r := Repair(d, t, ChildIndex(t.keys, key));
            && r.index < |r.tree.kids| && Shaped(r.tree.kids[r.index]) && Balanced(r.tree.kids[r.index])
            && var x := Delete(d, r.tree.kids[r.index], key);
               Delete(d, t, key) == Deleted(WithKid(r.tree, r.index, x.tree), x.value, r.freed + x.freed)
  {
    RepairShape(d, t, ChildIndex(t.keys, key));
  }

  lemma ReleaseBoth(a: Alloc, f: seq<FreePage>, g: seq<FreePage>)
    ensures Release(Release(a, f), g) == Release(a, f + g)
  {
    if g == [] { assert f + g == f; }
  }

  /** The pages of a repaired child are pages of the old children. */
  lemma PartOfKids(t: Tree, u: Tree, i: nat, less: multiset<int>, p: map<int, PageImage>, a: Alloc)
    requires u.id == t.id && i < |u.kids| && Bag(u) + less == Bag(t)
    ensures Bag(u.kids[i]) <= BagOf(t.kids)
  {
    KidBag(u, i);
    assert Bag(t) == multiset{t.id} + BagOf(t.kids);
    assert Bag(u.kids[i]) + multiset{t.id} <= Bag(u) + less;
    CancelOne(Bag(u.kids[i]), BagOf(t.kids), multiset{t.id});
  }

  lemma CancelOne(x: multiset<int>, y: multiset<int>, m: multiset<int>)
    requires x + m <= m + y
    ensures x <= y
  {
    forall e ensures x[e] <= y[e] { assert (x + m)[e] <= (m + y)[e]; }
  }

  lemma FrameNarrows(p: map<int, PageImage>, q: map<int, PageImage>, r: map<int, PageImage>,
      outer: multiset<int>, inner: multiset<int>)
    requires SameExcept(p, q, outer) && SameExcept(q, r, inner) && inner <= outer
    ensures SameExcept(p, r, outer)
  {
  }

  lemma SameExceptMore(p: map<int, PageImage>, q: map<int, PageImage>, ids: multiset<int>, more: multiset<int>)
    requires SameExcept(p, q, ids)
    ensures SameExcept(p, q, ids + more)
  {
  }

  lemma AfterDeletedKid(p: map<int, PageImage>, q: map<int, PageImage>, r: map<int, PageImage>,
      u: Tree, i: nat, c: Tree, a: Alloc, b: Alloc)
    requires KidsStored(p, u) && i < |u.kids| && PagesHeldOnce(Bag(u), a)
    requires KidsStored(q, c) && c.id == u.kids[i].id && PagesHeldOnce(Bag(c), b)
    requires SameExcept(p, q, BagOf(u.kids[i].kids))
    requires c.id in r && r[c.id] == ImageOf(c) && SameExcept(q, r, multiset{c.id})
    ensures KidsStored(r, WithKid(u, i, c))
    ensures SameExcept(p, r, Bag(u.kids[i]))
  {
    HeldFacts(u, a);
    HeldFacts(c, b);
    StoredAfterWrite(q, r, c);
    SameExceptMore(p, r, Bag(u.kids[i]), multiset{});
    StoredWithKid(p, r, u, i, c, multiset{});
  }

  lemma DeleteLeafHit(t: Tree, key: int)
    requires Shaped(t) && IsLeaf(t) && SortedKeys(t.keys)
    ensures forall i :: 0 <= i < |t.keys| && t.keys[i] == key ==> ChildIndex(t.keys, key) == i + 1
    ensures key !in t.keys ==> DeleteLeaf(t, key) == Deleted(t, None, [])
  {
    forall i | 0 <= i < |t.keys| && t.keys[i] == key ensures ChildIndex(t.keys, key) == i + 1 {
      ChildIndexUnique(t.keys, key, i + 1);
    }
  }

  datatype NodeError = CorruptedNode

  /** Every internal page has a key. */
  ghost predicate NoEmptyNode(t: Tree) {
    (!IsLeaf(t) ==> t.keys != []) && forall c {:trigger c in t.kids} :: c in t.kids ==> NoEmptyNode(c)
  }

  lemma {:induction false} FilledNoEmptyNode(d: int, t: Tree)
    requires d >= 6 && d % 2 == 0 && FilledKids(d, t) && (!IsLeaf(t) ==> t.keys != [])
    ensures NoEmptyNode(t)
  {
    forall c | c in t.kids ensures NoEmptyNode(c) { FilledNoEmptyNode(d, c); }
  }

  lemma {:induction false} FindLeafFacts(p: map<int, PageImage>, t: Tree, key: int)
    requires Shaped(t) && Stored(p, t) && SortedPages(t)
    ensures var l := FindLeaf(t, key);
            && IsLeaf(l) && |l.keys| == |l.vals| && l.id in p && p[l.id] == ImageOf(l) && SortedKeys(l.keys)
            && l in Leaves(t)
  {
    if !IsLeaf(t) {
      var i := ChildIndex(t.keys, key);
      assert t.kids[i] in t.kids;
      FindLeafFacts(p, t.kids[i], key);
      KidCut(t, i);
    }
  }

  lemma GetAbsent(l: Tree, key: int)
    requires |l.keys| == |l.vals| && key !in l.keys
    ensures Get(LeafEntries(l), key) == None
  {
    GetIsLookup(LeafEntries(l), key);
    ToMapKeys(LeafEntries(l), key);
  }

  lemma GetPresent(l: Tree, i: nat)
    requires |l.keys| == |l.vals| && SortedKeys(l.keys) && i < |l.keys|
    ensures Get(LeafEntries(l), l.keys[i]) == Some(l.vals[i])
  {
    var f := LeafEntries(l);
    DelHit(f[..i], f[i], f[i + 1..]);
    assert f == f[..i] + [f[i]] + f[i + 1..];
  }

  /** What the parent needs to know before it splits child i. */
  lemma PrepareFacts(p: map<int, PageImage>, t: Tree, i: nat, a: Alloc)
    requires i < |t.kids| && KidsStored(p, t) && PagesHeldOnce(Bag(t), a)
    ensures t.kids[i].id in p && p[t.kids[i].id] == ImageOf(t.kids[i]) && KidsStored(p, t.kids[i])
    ensures ImageOf(t).children[i] == t.kids[i].id
    ensures PagesHeldOnce(Bag(t.kids[i]), a) && Distinct(t)
    ensures NextId(a) !in Bag(t) && t.kids[i].id in BagOf(t.kids)
  {
    assert t.kids[i] in t.kids;
    KidBag(t, i);
    HeldPart(Bag(t.kids[i]), Bag(t), a);
    HeldFacts(t, a);
    KidCut(t, i);
    BagHasId(t.kids[i]);
    LeavesCut(t.kids[..i], [t.kids[i]], t.kids[i + 1..]);
    LeavesOne(t.kids[i]);
  }

  // -------- pages in memory and in the store --------

  class NodePage {
    var id: int
    var deleted: bool
    var nextDeleted: Option<int>
    var keys: seq<int>
    var children: seq<int>
    var values: seq<Val>
    var nextLeaf: Option<int>
    const maxDegree: nat
    /** Set when the page differs from what was persisted last; not persisted itself. */
    var changed: bool

    constructor (maxDegree: nat, id: int)
      ensures Image() == PageImage(id, false, None, [], [], [], None)
      ensures this.maxDegree == maxDegree && changed
    {
      this.id, deleted, nextDeleted := id, false, None;
      keys, children, values, nextLeaf := [], [], [], None;
      this.maxDegree := maxDegree;
      changed := true;
    }

    constructor FromStore(image: PageImage, maxDegree: nat)
      ensures Image() == image && this.maxDegree == maxDegree && !changed
    {
      id, deleted, nextDeleted := image.id, image.deleted, image.nextDeleted;
      keys, children, values, nextLeaf := image.keys, image.children, image.values, image.nextLeaf;
      this.maxDegree := maxDegree;
      changed := false;
    }

    function Image(): PageImage
      reads this
    {
      PageImage(id, deleted, nextDeleted, keys, children, values, nextLeaf)
    }

    /** What a released page would look like; the caller decides whether it is written. */
    method MarkDeleted(next: Option<int>)
      modifies this
      ensures Image() == PageImage(id, true, next, [], [], [], nextLeaf) && changed
      ensures id == old(id) && nextLeaf == old(nextLeaf)
    {
      deleted := true;
      changed := true;
      keys, children, values := [], [], [];
      nextDeleted := next;
    }

    predicate IsLeafPage()
      reads this
    {
      children == []
    }

    /** Keep the left half of keys, children and values; hand out the rest and the key to promote. */
    method CutRightHalf(ghost t: Tree)
      returns (rightKeys: seq<int>, rightChildren: seq<int>, rightValues: seq<Val>, promoted: int)
      requires Shaped(t) && |t.keys| > 1 && Image() == ImageOf(t)
      modifies this
      ensures changed == old(changed)
      ensures var l := LeftHalf(t, 0);
              var r := RightHalf(t, 0, None);
              && Image() == ImageOf(l).(nextLeaf := t.next)
              && rightKeys == r.keys && rightChildren == Ids(r.kids) && rightValues == r.vals
              && promoted == t.keys[|t.keys| / 2]
    {
      HalfImages(t, 0, None);
      var m := |keys| / 2;
      rightKeys := keys[m..];
      keys := keys[..m];
      rightChildren := [];
      rightValues := [];
      if !IsLeafPage() {
        rightChildren := children[m + 1..];
        children := children[..m + 1];
        promoted := rightKeys[0];
        rightKeys := rightKeys[1..];
      } else {
        rightValues := values[m..];
        values := values[..m];
        promoted := rightKeys[0];
      }
    }

    /** Put the cut-off half into an allocated page; a leaf is linked in front of its old successor. */
    method FillSibling(pager: NodePager, rightKeys: seq<int>, rightChildren: seq<int>, rightValues: seq<Val>)
      returns (right: NodePage)
      requires pager.Valid()
      modifies pager, this`nextLeaf
      ensures pager.Valid() && fresh(right)
      ensures var a := old(pager.Allocator());
              && right.Image() == PageImage(NextId(a), false, None, rightKeys, rightChildren, rightValues,
                                            if IsLeafPage() then old(nextLeaf) else StaleLink(a))
              && nextLeaf == (if IsLeafPage() then Some(NextId(a)) else old(nextLeaf))
              && pager.pages == old(pager.pages)[NextId(a) := ImageOf(BlankPage(NextId(a), StaleLink(a)))]
              && pager.Allocator() == Next(a) && (right.changed <==> a.free == None)
    {
      right := pager.AllocateNewPage();
      right.values := rightValues;
      right.keys := rightKeys;
      right.children := rightChildren;
      if IsLeafPage() {
        var linkToNext := nextLeaf;
        nextLeaf := Some(right.id);
        right.nextLeaf := linkToNext;
      }
    }

    /** Both halves in memory. */
    method MoveRightHalf(pager: NodePager, ghost t: Tree) returns (right: NodePage, promoted: int)
      requires pager.Valid() && Shaped(t) && |t.keys| > 1 && Image() == ImageOf(t)
      modifies this, pager
      ensures pager.Valid() && fresh(right)
      ensures var a := old(pager.Allocator());
              && Image() == ImageOf(LeftHalf(t, NextId(a))) && promoted == t.keys[|t.keys| / 2]
              && id == t.id && right.id == NextId(a)
              && right.Image() == ImageOf(RightHalf(t, NextId(a), StaleLink(a)))
              && pager.pages == old(pager.pages)[NextId(a) := ImageOf(BlankPage(NextId(a), StaleLink(a)))]
              && pager.Allocator() == Next(a) && (right.changed <==> a.free == None)
    {
      hide Shaped, LeftHalf, RightHalf, Ids, IsLeaf, BlankPage;
      ghost var a := pager.Allocator();
      HalvesAnyId(t, NextId(a), StaleLink(a));
      var rightKeys, rightChildren, rightValues, key := CutRightHalf(t);
      promoted := key;
      right := FillSibling(pager, rightKeys, rightChildren, rightValues);
    }

    /** Split a full page: self keeps the left half. The right half is written unless its page is a reused one. */
    method Split(pager: NodePager, ghost t: Tree) returns (right: NodePage, promoted: int)
      requires pager.Valid() && t.id in pager.pages
      requires Shaped(t) && |t.keys| > 1 && Image() == ImageOf(t) && KidsStored(pager.pages, t)
      requires PagesHeldOnce(Bag(t), pager.Allocator())
      modifies this, pager
      ensures pager.Valid() && fresh(right)
      ensures var s := BTreeSplit.Split(t, old(pager.Allocator()));
              && Image() == ImageOf(s.left) && right.id == s.right.id && promoted == s.key
              && Stored(pager.pages, s.left) && Stored(pager.pages, s.right)
              && pager.Allocator() == s.alloc
              && SameExcept(old(pager.pages), pager.pages, multiset{t.id, s.right.id})
    {
      hide Bag, Stored, KidsStored, Shaped, LeftHalf, RightHalf, Ids, PagesHeldOnce, BTreeSplit.Split, IsLeaf,
        BlankPage;
      ghost var a, p := pager.Allocator(), pager.pages;
      HeldFacts(t, a);
      BagHasId(t);
      SplitParts(t, a);
      right, promoted := MoveRightHalf(pager, t);
      var ok := pager.WritePage(right);
      assert ok;
      changed := true;
      ok := pager.WritePage(this);
      assert ok;
      StoredAfterSplit(p, pager.pages, t, a);
    }

    method ChildPosition(key: int) returns (i: nat)
      requires |children| == |keys| + 1
      ensures i == ChildIndex(keys, key)
    {
      i := 0;
      while i < |keys| && !(key < keys[i])
        invariant i <= |keys| && forall j :: 0 <= j < i ==> keys[j] <= key
      {
        i := i + 1;
      }
      FirstAbove(keys, key, i);
      if i == |keys| {
        i := |children| - 1;
      }
    }

    method InsertKeyValue(key: int, value: Val, ghost t: Tree) returns (ok: bool)
      requires Shaped(t) && IsLeaf(t) && SortedKeys(t.keys) && Image() == ImageOf(t)
      modifies this
      ensures Image() == ImageOf(InsertLeaf(t, key, value))
      ensures ok <==> key !in t.keys
      ensures changed <==> old(changed) || ok
    {
      var r := BinarySearch(key, keys);
      LocatedIndex(r, keys, key);
      match r
      case LessThan(i) =>
        keys := keys[..i] + [key] + keys[i..];
        values := values[..i] + [value] + values[i..];
        changed := true;
        ok := true;
      case GreaterThanTheLast(_) =>
        keys := keys + [key];
        values := values + [value];
        changed := true;
        ok := true;
      case Equal(_) =>
        ok := false;
    }

    predicate IsFullPage()
      reads this
    {
      |keys| >= maxDegree - 1
    }

    /** Take in the right half of child i and choose the half to go on with. */
    method TakeInHalf(i: nat, rightId: int, promoted: int, key: int, ghost t: Tree, ghost s: SplitResult)
      returns (j: nat)
      requires Image() == ImageOf(t) && i < |t.kids| && |t.kids| == |t.keys| + 1
      requires s.left.id == t.kids[i].id && s.right.id == rightId && s.key == promoted
      modifies this
      ensures Image() == ImageOf(SplitKid(t, i, s)) && changed
      ensures j == if (if i == |t.keys| then key > promoted else key >= promoted) then i + 1 else i
    {
      SplitKidImage(t, i, s);
      j := i;
      if |keys| == i {
        keys := keys + [promoted];
        children := children + [rightId];
        if key > promoted { j := j + 1; }
      } else {
        keys := keys[..i] + [promoted] + keys[i..];
        children := children[..i + 1] + [rightId] + children[i + 1..];
        if key >= promoted { j := j + 1; }
      }
      changed := true;
    }

    /** Split the full child i and read back the half to go on with. */
    method SplitChild(pager: NodePager, i: nat, child: NodePage, key: int, ghost t: Tree)
      returns (j: nat, half: NodePage)
      requires pager.Valid() && child != this && i < |t.kids| && |t.kids| == |t.keys| + 1 && Image() == ImageOf(t)
      requires Shaped(t.kids[i]) && |t.kids[i].keys| > 1 && child.Image() == ImageOf(t.kids[i])
      requires KidsStored(pager.pages, t) && PagesHeldOnce(Bag(t), pager.Allocator())
      modifies this, pager, child
      ensures pager.Valid() && fresh(half) && half.maxDegree == pager.maxDegree && !half.changed && changed
      ensures var s := BTreeSplit.Split(t.kids[i], old(pager.Allocator()));
              var u := SplitKid(t, i, s);
              && j == (if (if i == |t.keys| then key > s.key else key >= s.key) then i + 1 else i)
              && Image() == ImageOf(u) && KidsStored(pager.pages, u)
              && j < |u.kids| && half.Image() == ImageOf(u.kids[j])
              && pager.Allocator() == s.alloc
      ensures SameExcept(old(pager.pages), pager.pages, multiset{t.kids[i].id, NextId(old(pager.Allocator()))})
    {
      ghost var a, p, c := pager.Allocator(), pager.pages, t.kids[i];
      PrepareFacts(p, t, i, a);
      SplitParts(c, a);
      hide Bag, Stored, KidsStored, Shaped, PagesHeldOnce, BTreeSplit.Split, Ids, ImageOf;
      var r, promoted := child.Split(pager, c);
      ghost var s := BTreeSplit.Split(c, a);
      SplitKidStored(p, pager.pages, t, i, s, NextId(a));
      j := TakeInHalf(i, r.id, promoted, key, t, s);
      ghost var u := SplitKid(t, i, s);
      StoredKid(pager.pages, u, j);
      half := pager.ReadPage(children[j]);
    }

    /** Choose the child to insert into, splitting it when it is full. */
    method PrepareChild(pager: NodePager, key: int, ghost t: Tree) returns (child: NodePage)
      requires pager.Valid() && maxDegree == pager.maxDegree && maxDegree >= 4
      requires Shaped(t) && KidsBalanced(t) && !IsLeaf(t) && Image() == ImageOf(t) && KidsStored(pager.pages, t)
      requires PagesHeldOnce(Bag(t), pager.Allocator())
      modifies this, pager
      ensures pager.Valid() && fresh(child) && child.maxDegree == maxDegree && !child.changed
      ensures var s := Descend(maxDegree, t, key, old(pager.Allocator()));
              && Image() == ImageOf(s.tree) && KidsStored(pager.pages, s.tree)
              && s.index < |s.tree.kids| && child.Image() == ImageOf(s.tree.kids[s.index])
              && pager.Allocator() == s.alloc
      ensures (old(changed) || Image() != old(Image())) ==> changed
      ensures SameExcept(old(pager.pages), pager.pages, BagOf(t.kids) + FreeOf(old(pager.Allocator())))
    {
      ghost var a, p := pager.Allocator(), pager.pages;
      var i := ChildPosition(key);
      PrepareFacts(p, t, i, a);
      DescendIs(maxDegree, t, key, a);
      hide Bag, Stored, KidsStored, Shaped, Balanced, KidsBalanced, Descend, PagesHeldOnce, BTreeSplit.Split,
        SplitKid, Ids;
      child := pager.ReadPage(children[i]);
      if child.IsFullPage() {
        i, child := SplitChild(pager, i, child, key, t);
      }
    }

    /** Insert below this page; the outcome of the child is dropped, so a duplicate is only reported by a leaf. */
    method Insert(pager: NodePager, key: int, value: Val, ghost t: Tree) returns (ok: bool)
      requires pager.Valid() && maxDegree == pager.maxDegree && maxDegree >= 4
      requires Shaped(t) && KidsBalanced(t) && SortedPages(t) && Image() == ImageOf(t) && KidsStored(pager.pages, t)
      requires PagesHeldOnce(Bag(t), pager.Allocator())
      modifies this, pager
      ensures pager.Valid()
      ensures var r := BTreeInsert.Insert(maxDegree, t, key, value, old(pager.Allocator()));
              Image() == ImageOf(r.tree) && KidsStored(pager.pages, r.tree) && pager.Allocator() == r.alloc
      ensures ok <==> !IsLeaf(t) || key !in t.keys
      ensures (old(changed) || Image() != old(Image())) ==> changed
      ensures SameExcept(old(pager.pages), pager.pages, BagOf(t.kids) + FreeOf(old(pager.Allocator())))
      decreases Depth(t), 0
    {
      if IsLeafPage() {
        ok := InsertKeyValue(key, value, t);
        return;
      }
      ghost var a, p := pager.Allocator(), pager.pages;
      DescendShape(maxDegree, t, key, a);
      DescendSorted(maxDegree, t, key, a);
      DescendHolds(maxDegree, t, key, a);
      ghost var s := Descend(maxDegree, t, key, a);
      HeldGrows(Bag(t), Bag(s.tree), a, s.alloc);
      InsertUnfolds(maxDegree, t, key, value, a);
      ghost var r := BTreeInsert.Insert(maxDegree, s.tree.kids[s.index], key, value, s.alloc);
      assert forall x :: x in p ==> 0 <= x < a.pages;
      assert t.kids != [] && a.pages <= s.alloc.pages;
      hide *;
      var child := PrepareChild(pager, key, t);
      ghost var q := pager.pages;
      InsertIntoChild(pager, child, key, value, s.tree, s.index);
      FrameThrough(p, q, pager.pages, t, a, s.tree, s.index, s.alloc);
      WithKidImage(s.tree, s.index, r.tree);
      ok := true;
    }

    /** Insert into child i of u and write it back. Whether the child reported a duplicate is not passed on. */
    method InsertIntoChild(pager: NodePager, child: NodePage, key: int, value: Val, ghost u: Tree, ghost i: nat)
      requires pager.Valid() && child.maxDegree == pager.maxDegree && pager.maxDegree >= 4 && i < |u.kids|
      requires child.Image() == ImageOf(u.kids[i]) && KidsStored(pager.pages, u)
      requires Shaped(u.kids[i]) && KidsBalanced(u.kids[i]) && SortedPages(u.kids[i])
      requires PagesHeldOnce(Bag(u), pager.Allocator())
      modifies child, pager
      ensures pager.Valid()
      ensures var a := old(pager.Allocator());
              var r := BTreeInsert.Insert(pager.maxDegree, u.kids[i], key, value, a);
              && r.tree.id == u.kids[i].id
              && KidsStored(pager.pages, WithKid(u, i, r.tree)) && pager.Allocator() == r.alloc
              && SameExcept(old(pager.pages), pager.pages, Bag(u.kids[i]) + FreeOf(a))
      decreases Depth(u.kids[i]), 1
    {
      hide *;
      ghost var a, p, c := pager.Allocator(), pager.pages, u.kids[i];
      PrepareFacts(p, u, i, a);
      InsertHolds(pager.maxDegree, c, key, value, a);
      ghost var r := BTreeInsert.Insert(pager.maxDegree, c, key, value, a);
      HeldGrows(Bag(c), Bag(r.tree), a, r.alloc);
      var dropped := child.Insert(pager, key, value, c);
      ghost var q := pager.pages;
      WrittenBack(p, q, c, r.tree, a);
      HeldFacts(r.tree, r.alloc);
      BagHasId(r.tree);
      pager.Persist(child, r.tree);
      AfterKid(p, q, pager.pages, u, i, r.tree, a, r.alloc);
    }

    predicate CanLendKeys()
      reads this
    {
      |keys| > maxDegree / 2 - 1
    }

    predicate IsLessThanMinimal()
      reads this
    {
      |keys| < maxDegree / 2 - 1
    }

    /** The left sibling lends its last key, in memory. */
    method TakeFromLeft(i: nat, target: NodePage, left: NodePage, ghost t: Tree)
      requires 0 < i < |t.kids| && |t.kids| == |t.keys| + 1 && target != this && left != this && target != left
      requires Siblings(t.kids[i - 1], t.kids[i]) && |t.kids[i - 1].keys| > 1
      requires Image() == ImageOf(t) && left.Image() == ImageOf(t.kids[i - 1]) && target.Image() == ImageOf(t.kids[i])
      modifies this, target, left
      ensures var p := LendRight(t.kids[i - 1], t.keys[i - 1], t.kids[i]);
              && Image() == ImageOf(WithPair(t, i - 1, p))
              && left.Image() == ImageOf(p.left) && target.Image() == ImageOf(p.right)
      ensures changed && left.changed && target.changed
    {
      LendRightShape(t.kids[i - 1], t.keys[i - 1], t.kids[i]);
      LendRightImages(t.kids[i - 1], t.keys[i - 1], t.kids[i]);
      WithPairImage(t, i - 1, LendRight(t.kids[i - 1], t.keys[i - 1], t.kids[i]));
      if target.IsLeafPage() {
        var k := left.keys[|left.keys| - 1];
        left.keys := left.keys[..|left.keys| - 1];
        var v := left.values[|left.values| - 1];
        left.values := left.values[..|left.values| - 1];
        target.keys := [k] + target.keys;
        target.values := [v] + target.values;
        keys := keys[i - 1 := target.keys[0]];
      } else {
        var leftKey := left.keys[|left.keys| - 1];
        left.keys := left.keys[..|left.keys| - 1];
        var leftChild := left.children[|left.children| - 1];
        left.children := left.children[..|left.children| - 1];
        var parentKey := keys[i - 1];
        target.keys := [parentKey] + target.keys;
        target.children := [leftChild] + target.children;
        keys := keys[i - 1 := leftKey];
      }
      target.changed := true;
      left.changed := true;
      changed := true;
    }

    /** The right sibling lends its first key, in memory. */
    method TakeFromRight(i: nat, target: NodePage, right: NodePage, ghost t: Tree)
      requires i + 1 < |t.kids| && |t.kids| == |t.keys| + 1 && target != this && right != this && target != right
      requires Siblings(t.kids[i], t.kids[i + 1]) && |t.kids[i + 1].keys| > 1
      requires Image() == ImageOf(t) && target.Image() == ImageOf(t.kids[i]) && right.Image() == ImageOf(t.kids[i + 1])
      modifies this, target, right
      ensures var p := LendLeft(t.kids[i], t.keys[i], t.kids[i + 1]);
              && Image() == ImageOf(WithPair(t, i, p))
              && target.Image() == ImageOf(p.left) && right.Image() == ImageOf(p.right)
      ensures changed && right.changed && target.changed
    {
      LendLeftShape(t.kids[i], t.keys[i], t.kids[i + 1]);
      LendLeftImages(t.kids[i], t.keys[i], t.kids[i + 1]);
      WithPairImage(t, i, LendLeft(t.kids[i], t.keys[i], t.kids[i + 1]));
      if target.IsLeafPage() {
        var k := right.keys[0];
        right.keys := right.keys[1..];
        var v := right.values[0];
        right.values := right.values[1..];
        target.keys := target.keys + [k];
        target.values := target.values + [v];
        keys := keys[i := right.keys[0]];
      } else {
        var rightKey := right.keys[0];
        right.keys := right.keys[1..];
        var rightChild := right.children[0];
        right.children := right.children[1..];
        var parentKey := keys[i];
        target.keys := target.keys + [parentKey];
        target.children := target.children + [rightChild];
        keys := keys[i := rightKey];
      }
      target.changed := true;
      right.changed := true;
      changed := true;
    }

    /** The contents of child j + 1 move to child j, in memory; the parent forgets the right page. */
    method Absorb(j: nat, left: NodePage, right: NodePage, ghost t: Tree)
      requires j + 1 < |t.kids| && |t.kids| == |t.keys| + 1 && left != this && right != this && left != right
      requires Siblings(t.kids[j], t.kids[j + 1])
      requires Image() == ImageOf(t) && left.Image() == ImageOf(t.kids[j]) && right.Image() == ImageOf(t.kids[j + 1])
      modifies this, left, right
      ensures Image() == ImageOf(MergeAt(t, j)) && left.Image() == ImageOf(Join(t.kids[j], t.keys[j], t.kids[j + 1]))
      ensures changed && left.changed && right.id == t.kids[j + 1].id
    {
      JoinImage(t.kids[j], t.keys[j], t.kids[j + 1]);
      MergeAtImage(t, j);
      children := children[..j + 1] + children[j + 2..];
      var separator := keys[j];
      keys := keys[..j] + keys[j + 1..];
      if left.IsLeafPage() {
        left.keys := left.keys + right.keys;
        left.values := left.values + right.values;
        right.keys, right.values := [], [];
        left.nextLeaf := right.nextLeaf;
      } else {
        left.keys := left.keys + [separator];
        left.keys := left.keys + right.keys;
        left.children := left.children + right.children;
        right.keys, right.children := [], [];
      }
      left.changed := true;
      changed := true;
    }

    /** Merge children j and j + 1 and release the right page. */
    method MergeChildren(pager: NodePager, j: nat, left: NodePage, right: NodePage, ghost t: Tree)
      requires pager.Valid() && j + 1 < |t.kids| && |t.kids| == |t.keys| + 1
      requires left != this && right != this && left != right && Siblings(t.kids[j], t.kids[j + 1])
      requires Image() == ImageOf(t) && left.Image() == ImageOf(t.kids[j]) && right.Image() == ImageOf(t.kids[j + 1])
      requires KidsStored(pager.pages, t) && PagesHeldOnce(Bag(t), pager.Allocator())
      modifies this, pager, left, right
      ensures pager.Valid() && changed && !left.changed
      ensures var u := MergeAt(t, j);
              && Image() == ImageOf(u) && KidsStored(pager.pages, u) && j < |u.kids|
                 && left.Image() == ImageOf(u.kids[j])
              && pager.Allocator() == Release(old(pager.Allocator()), [Released(t.kids[j + 1])])
              && SameExcept(old(pager.pages), pager.pages, BagOf(t.kids))
    {
      hide *;
      ghost var a := pager.Allocator();
      MergeWritten(pager.pages, t, j, a);
      ReleaseOne(a, t.kids[j + 1]);
      Absorb(j, left, right, t);
      pager.Persist(left, Join(t.kids[j], t.keys[j], t.kids[j + 1]));
      var ok := pager.DeletePage(right.id);
      assert ok;
    }

    /** Let the left sibling lend a key and write both pages. */
    method BorrowFromLeft(pager: NodePager, i: nat, target: NodePage, left: NodePage, ghost t: Tree)
      requires pager.Valid() && 0 < i < |t.kids| && |t.kids| == |t.keys| + 1
      requires target != this && left != this && target != left
      requires Siblings(t.kids[i - 1], t.kids[i]) && |t.kids[i - 1].keys| > 1
      requires Image() == ImageOf(t) && left.Image() == ImageOf(t.kids[i - 1]) && target.Image() == ImageOf(t.kids[i])
      requires KidsStored(pager.pages, t) && PagesHeldOnce(Bag(t), pager.Allocator())
      modifies this, pager, target, left
      ensures pager.Valid() && changed && !target.changed
      ensures var p := LendRight(t.kids[i - 1], t.keys[i - 1], t.kids[i]);
              var u := WithPair(t, i - 1, p);
              && Image() == ImageOf(u) && KidsStored(pager.pages, u) && target.Image() == ImageOf(p.right)
              && pager.Allocator() == old(pager.Allocator())
              && SameExcept(old(pager.pages), pager.pages, BagOf(t.kids))
    {
      ghost var l, r := t.kids[i - 1], t.kids[i];
      LendRightShape(l, t.keys[i - 1], r);
      LendRightKids(l, t.keys[i - 1], r);
      ghost var p := LendRight(l, t.keys[i - 1], r);
      hide *;
      PairWritten(pager.pages, t, i - 1, p, pager.Allocator());
      TakeFromLeft(i, target, left, t);
      pager.Persist(target, p.right);
      pager.Persist(left, p.left);
    }

    /** Let the right sibling lend a key and write both pages. */
    method BorrowFromRight(pager: NodePager, i: nat, target: NodePage, right: NodePage, ghost t: Tree)
      requires pager.Valid() && i + 1 < |t.kids| && |t.kids| == |t.keys| + 1
      requires target != this && right != this && target != right
      requires Siblings(t.kids[i], t.kids[i + 1]) && |t.kids[i + 1].keys| > 1
      requires Image() == ImageOf(t) && target.Image() == ImageOf(t.kids[i]) && right.Image() == ImageOf(t.kids[i + 1])
      requires KidsStored(pager.pages, t) && PagesHeldOnce(Bag(t), pager.Allocator())
      modifies this, pager, target, right
      ensures pager.Valid() && changed && !target.changed
      ensures var p := LendLeft(t.kids[i], t.keys[i], t.kids[i + 1]);
              var u := WithPair(t, i, p);
              && Image() == ImageOf(u) && KidsStored(pager.pages, u) && target.Image() == ImageOf(p.left)
              && pager.Allocator() == old(pager.Allocator())
              && SameExcept(old(pager.pages), pager.pages, BagOf(t.kids))
    {
      ghost var l, r := t.kids[i], t.kids[i + 1];
      LendLeftShape(l, t.keys[i], r);
      LendLeftKids(l, t.keys[i], r);
      ghost var p := LendLeft(l, t.keys[i], r);
      hide *;
      PairWritten(pager.pages, t, i, p, pager.Allocator());
      TakeFromRight(i, target, right, t);
      pager.Persist(target, p.left);
      pager.Persist(right, p.right);
      assert pager.pages == old(pager.pages)[p.right.id := ImageOf(p.right)][p.left.id := ImageOf(p.left)];
    }

    /** Bring child i to the minimum if it lacks keys; return the child to go on with. */
    method RepairChild(pager: NodePager, i: nat, ghost t: Tree) returns (target: NodePage)
      requires pager.Valid() && maxDegree == pager.maxDegree && maxDegree >= 4 && i < |t.kids|
      requires Shaped(t) && Balanced(t) && Image() == ImageOf(t) && KidsStored(pager.pages, t)
      requires PagesHeldOnce(Bag(t), pager.Allocator())
      modifies this, pager
      ensures pager.Valid() && fresh(target) && target.maxDegree == maxDegree && !target.changed
      ensures var r := Repair(maxDegree, t, i);
              && Image() == ImageOf(r.tree) && KidsStored(pager.pages, r.tree)
              && r.index < |r.tree.kids| && target.Image() == ImageOf(r.tree.kids[r.index])
              && pager.Allocator() == Release(old(pager.Allocator()), r.freed)
      ensures (old(changed) || Image() != old(Image())) ==> changed
      ensures SameExcept(old(pager.pages), pager.pages, BagOf(t.kids))
    {
      RepairIs(maxDegree, t, i);
      StoredKid(pager.pages, t, i);
      ReleaseNone(pager.Allocator());
      hide Repair, Shaped, Balanced, Stored, KidsStored, Siblings, Bag, BagOf, PagesHeldOnce, SameExcept, Release,
        Depth, Ids;
      target := pager.ReadPage(children[i]);
      if target.IsLessThanMinimal() {
        target := RepairLacking(pager, i, target, t);
      }
    }

    /** A repair has been carried out in the pages. */
    ghost predicate Shows(r: Repaired, target: NodePage, pager: NodePager, a: Alloc, was: map<int, PageImage>, t: Tree)
      reads this, target, pager
    {
      && pager.Valid() && Image() == ImageOf(r.tree) && KidsStored(pager.pages, r.tree)
      && r.index < |r.tree.kids| && target.Image() == ImageOf(r.tree.kids[r.index]) && !target.changed
      && pager.Allocator() == Release(a, r.freed) && SameExcept(was, pager.pages, BagOf(t.kids))
    }

    method RepairFromLeft(pager: NodePager, i: nat, child: NodePage, left: NodePage, ghost t: Tree)
      requires pager.Valid() && maxDegree >= 4 && 0 < i < |t.kids| && Shaped(t) && Balanced(t)
      requires child != this && left != this && child != left
      requires Image() == ImageOf(t) && left.Image() == ImageOf(t.kids[i - 1]) && child.Image() == ImageOf(t.kids[i])
      requires KidsStored(pager.pages, t) && PagesHeldOnce(Bag(t), pager.Allocator())
      requires IsLacking(maxDegree, t.kids[i]) && CanLend(maxDegree, t.kids[i - 1])
      modifies this, pager, child, left
      ensures Shows(Repair(maxDegree, t, i), child, pager, old(pager.Allocator()), old(pager.pages), t) && changed
    {
      hide Repair, Shaped, Balanced, Stored, KidsStored, Siblings, Bag, BagOf, PagesHeldOnce, LendRight, SameExcept,
        Release;
      RepairIs(maxDegree, t, i);
      ReleaseNone(pager.Allocator());
      BorrowFromLeft(pager, i, child, left, t);
    }

    method RepairFromRight(pager: NodePager, i: nat, child: NodePage, right: NodePage, ghost t: Tree)
      requires pager.Valid() && maxDegree >= 4 && i + 1 < |t.kids| && Shaped(t) && Balanced(t)
      requires child != this && right != this && child != right
      requires Image() == ImageOf(t) && child.Image() == ImageOf(t.kids[i]) && right.Image() == ImageOf(t.kids[i + 1])
      requires KidsStored(pager.pages, t) && PagesHeldOnce(Bag(t), pager.Allocator())
      requires IsLacking(maxDegree, t.kids[i]) && (i > 0 ==> !CanLend(maxDegree, t.kids[i - 1]))
      requires CanLend(maxDegree, t.kids[i + 1])
      modifies this, pager, child, right
      ensures Shows(Repair(maxDegree, t, i), child, pager, old(pager.Allocator()), old(pager.pages), t) && changed
    {
      hide Repair, Shaped, Balanced, Stored, KidsStored, Siblings, Bag, BagOf, PagesHeldOnce, LendLeft, SameExcept,
        Release;
      RepairIs(maxDegree, t, i);
      ReleaseNone(pager.Allocator());
      BorrowFromRight(pager, i, child, right, t);
    }

    /** Child i and a neighbour, of which the left one is child j. */
    method RepairByMerge(pager: NodePager, i: nat, j: nat, left: NodePage, right: NodePage, ghost t: Tree)
      requires pager.Valid() && maxDegree >= 4 && i < |t.kids| && Shaped(t) && Balanced(t)
      requires j + 1 < |t.kids| && j == if i > 0 then i - 1 else i
      requires left != this && right != this && left != right
      requires Image() == ImageOf(t) && left.Image() == ImageOf(t.kids[j]) && right.Image() == ImageOf(t.kids[j + 1])
      requires KidsStored(pager.pages, t) && PagesHeldOnce(Bag(t), pager.Allocator())
      requires IsLacking(maxDegree, t.kids[i]) && (i > 0 ==> !CanLend(maxDegree, t.kids[i - 1]))
      requires i + 1 < |t.kids| ==> !CanLend(maxDegree, t.kids[i + 1])
      modifies this, pager, left, right
      ensures Shows(Repair(maxDegree, t, i), left, pager, old(pager.Allocator()), old(pager.pages), t) && changed
    {
      hide Repair, Shaped, Balanced, Stored, KidsStored, Siblings, Bag, BagOf, PagesHeldOnce, Join, MergeAt,
        SameExcept, Release;
      RepairIs(maxDegree, t, i);
      MergeChildren(pager, j, left, right, t);
    }

    /** Borrow from the left, else from the right, else merge with the left, else with the right. */
    method RepairLacking(pager: NodePager, i: nat, child: NodePage, ghost t: Tree) returns (target: NodePage)
      requires pager.Valid() && maxDegree == pager.maxDegree && maxDegree >= 4 && i < |t.kids|
      requires Shaped(t) && Balanced(t) && Image() == ImageOf(t) && KidsStored(pager.pages, t)
      requires PagesHeldOnce(Bag(t), pager.Allocator())
      requires child != this && child.Image() == ImageOf(t.kids[i]) && !child.changed && child.maxDegree == maxDegree
      requires IsLacking(maxDegree, t.kids[i])
      modifies this, pager, child
      ensures (fresh(target) || target == child) && target.maxDegree == maxDegree
      ensures Shows(Repair(maxDegree, t, i), target, pager, old(pager.Allocator()), old(pager.pages), t)
      ensures (old(changed) || Image() != old(Image())) ==> changed
    {
      hide Repair, Shaped, Balanced, Stored, KidsStored, Bag, BagOf, PagesHeldOnce, Shows, Siblings, Ids;
      NeighboursStored(pager.pages, t, i);
      target := child;
      var left: NodePage? := null;
      var right: NodePage? := null;
      if i > 0 { left := pager.ReadPage(children[i - 1]); }
      if i + 1 < |children| { right := pager.ReadPage(children[i + 1]); }
      if left != null && left.CanLendKeys() {
        RepairFromLeft(pager, i, target, left, t);
      } else if right != null && right.CanLendKeys() {
        RepairFromRight(pager, i, target, right, t);
      } else if left != null {
        RepairByMerge(pager, i, i - 1, left, target, t);
        target := left;
      } else if right != null {
        RepairByMerge(pager, i, i, target, right, t);
      } else {
        NoNeighbours(pager, child, i, t);
      }
    }

    lemma NoNeighbours(pager: NodePager, child: NodePage, i: nat, t: Tree)
      requires pager.Valid() && maxDegree >= 4 && i == 0 && |t.kids| == 1 && Shaped(t) && Balanced(t)
      requires Image() == ImageOf(t) && child.Image() == ImageOf(t.kids[i]) && !child.changed
      requires KidsStored(pager.pages, t)
      ensures Shows(Repair(maxDegree, t, i), child, pager, pager.Allocator(), pager.pages, t)
    {
      RepairIs(maxDegree, t, i);
      ReleaseNone(pager.Allocator());
    }

    /** Delete below this page. Returns the removed value, if any. */
    method Delete(pager: NodePager, key: int, ghost t: Tree, ghost lo: Option<int>, ghost hi: Option<int>)
      returns (res: Option<Val>)
      requires pager.Valid() && maxDegree == pager.maxDegree && maxDegree >= 4
      requires Shaped(t) && Balanced(t) && Image() == ImageOf(t) && KidsStored(pager.pages, t)
      requires Ordered(t, lo, hi) && AtLeast(lo, key) && Under(key, hi)
      requires PagesHeldOnce(Bag(t), pager.Allocator())
      modifies this, pager
      ensures pager.Valid()
      ensures var x := BTreeDelete.Delete(maxDegree, t, key);
              && Image() == ImageOf(x.tree) && KidsStored(pager.pages, x.tree) && res == x.value
              && pager.Allocator() == Release(old(pager.Allocator()), x.freed)
      ensures (old(changed) || Image() != old(Image())) ==> changed
      ensures SameExcept(old(pager.pages), pager.pages, BagOf(t.kids))
      decreases Depth(t), 0
    {
      if IsLeafPage() {
        res := DeleteKeyValue(key, t);
        ReleaseNone(pager.Allocator());
        return;
      }
      ghost var a, p := pager.Allocator(), pager.pages;
      var i := ChildPosition(key);
      RepairShape(maxDegree, t, i);
      RepairOrdered(maxDegree, t, i, lo, hi);
      RepairCovers(maxDegree, t, key, lo, hi);
      RepairLeaves(maxDegree, t, i, None);
      ghost var r := Repair(maxDegree, t, i);
      assert KidOrdered(r.tree, r.index, lo, hi);
      ReleaseHeldOnce(Bag(t), Bag(r.tree), r.freed, a);
      DeleteUnfolds(maxDegree, t, key);
      ghost var b := Release(a, r.freed);
      ghost var x := BTreeDelete.Delete(maxDegree, r.tree.kids[r.index], key);
      ghost var lo', hi' := Lo(r.tree.keys, lo, r.index), Hi(r.tree.keys, hi, r.index);
      ReleaseBoth(a, r.freed, x.freed);
      PartOfKids(t, r.tree, r.index, IdsOf(r.freed), p, a);
      assert i < |t.kids|;
      hide *;
      var target := RepairChild(pager, i, t);
      ghost var q := pager.pages;
      res := DeleteFromChild(pager, target, key, r.tree, r.index, lo', hi');
      FrameNarrows(p, q, pager.pages, BagOf(t.kids), Bag(r.tree.kids[r.index]));
      WithKidImage(r.tree, r.index, x.tree);
    }

    /** Delete in child i of u and write it back. */
    method DeleteFromChild(pager: NodePager, target: NodePage, key: int, ghost u: Tree, ghost i: nat,
        ghost lo: Option<int>, ghost hi: Option<int>) returns (res: Option<Val>)
      requires pager.Valid() && target.maxDegree == pager.maxDegree && pager.maxDegree >= 4 && i < |u.kids|
      requires target.Image() == ImageOf(u.kids[i]) && KidsStored(pager.pages, u)
      requires Shaped(u.kids[i]) && Balanced(u.kids[i])
      requires Ordered(u.kids[i], lo, hi) && AtLeast(lo, key) && Under(key, hi)
      requires PagesHeldOnce(Bag(u), pager.Allocator())
      modifies target, pager
      ensures pager.Valid()
      ensures var x := BTreeDelete.Delete(pager.maxDegree, u.kids[i], key);
              && x.tree.id == u.kids[i].id && res == x.value
              && KidsStored(pager.pages, WithKid(u, i, x.tree))
              && pager.Allocator() == Release(old(pager.Allocator()), x.freed)
              && SameExcept(old(pager.pages), pager.pages, Bag(u.kids[i]))
      decreases Depth(u.kids[i]), 1
    {
      hide *;
      ghost var a, p, c := pager.Allocator(), pager.pages, u.kids[i];
      PrepareFacts(p, u, i, a);
      DeleteShape(pager.maxDegree, c, key);
      DeleteBag(pager.maxDegree, c, key);
      ghost var x := BTreeDelete.Delete(pager.maxDegree, c, key);
      ReleaseHeldOnce(Bag(c), Bag(x.tree), x.freed, a);
      res := target.Delete(pager, key, c, lo, hi);
      ghost var q := pager.pages;
      SameExceptMore(p, q, BagOf(c.kids), FreeOf(a));
      WrittenBack(p, q, c, x.tree, a);
      HeldFacts(x.tree, pager.Allocator());
      BagHasId(x.tree);
      pager.Persist(target, x.tree);
      AfterDeletedKid(p, q, pager.pages, u, i, x.tree, a, Release(a, x.freed));
    }

    method DeleteKeyValue(key: int, ghost t: Tree) returns (res: Option<Val>)
      requires Shaped(t) && IsLeaf(t) && SortedKeys(t.keys) && Image() == ImageOf(t)
      modifies this
      ensures Image() == ImageOf(DeleteLeaf(t, key).tree) && res == DeleteLeaf(t, key).value
      ensures changed <==> old(changed) || res.Some?
      ensures DeleteLeaf(t, key).freed == []
    {
      var r := BinarySearch(key, keys);
      LocatedIndex(r, keys, key);
      DeleteLeafHit(t, key);
      match r
      case Equal(pos) =>
        keys := keys[..pos] + keys[pos + 1..];
        var v := values[pos];
        values := values[..pos] + values[pos + 1..];
        changed := true;
        res := Some(v);
      case _ =>
        res := None;
    }

    /** The id of the leaf that holds the key. */
    method FindNode(pager: NodePager, key: int, ghost t: Tree) returns (r: Option<int>)
      requires Shaped(t) && SortedPages(t) && NoEmptyNode(t) && Image() == ImageOf(t) && KidsStored(pager.pages, t)
      ensures r == if key in FindLeaf(t, key).keys then Some(FindLeaf(t, key).id) else None
      decreases t
    {
      var f := BinarySearch(key, keys);
      LocatedIndex(f, keys, key);
      ghost var i := ChildIndex(keys, key);
      match f {
        case GreaterThanTheLast(_) =>
          if IsLeafPage() { return None; }
        case LessThan(_) =>
          if IsLeafPage() { return None; }
        case Equal(_) =>
          if IsLeafPage() { return Some(id); }
      }
      var j := if f.LessThan? then f.index else f.index + 1;
      StoredKid(pager.pages, t, i);
      assert t.kids[i] in t.kids;
      var child := pager.ReadPage(children[j]);
      r := child.FindNode(pager, key, t.kids[i]);
    }

    method FindValue(pager: NodePager, key: int, ghost t: Tree) returns (r: Result<Option<Val>, NodeError>)
      requires Shaped(t) && SortedPages(t) && NoEmptyNode(t) && Image() == ImageOf(t) && Stored(pager.pages, t)
      ensures r == Ok(Find(t, key))
    {
      var node := FindNode(pager, key, t);
      ghost var leaf := FindLeaf(t, key);
      FindLeafFacts(pager.pages, t, key);
      if node.None? {
        GetAbsent(leaf, key);
        return Ok(None);
      }
      var page := pager.ReadPage(node.value);
      for i := 0 to |page.keys|
        invariant page.Image() == ImageOf(leaf)
        invariant forall j :: 0 <= j < i ==> page.keys[j] != key
      {
        if page.keys[i] == key {
          GetPresent(leaf, i);
          return Ok(Some(page.values[i]));
        }
      }
      assert false;
    }

    method FindLeftMostNode(pager: NodePager, ghost t: Tree) returns (r: int)
      requires Image() == ImageOf(t) && KidsStored(pager.pages, t)
      ensures r == Leaves(t)[0].id
      decreases t
    {
      if IsLeafPage() {
        r := id;
      } else {
        StoredKid(pager.pages, t, 0);
        assert t.kids[0] in t.kids;
        var page := pager.ReadPage(children[0]);
        r := page.FindLeftMostNode(pager, t.kids[0]);
      }
    }

    /** The link to the next leaf is not cleared. */
    method Reallocate()
      modifies this
      ensures Image() == PageImage(old(id), false, None, [], [], [], old(nextLeaf)) && changed
    {
      deleted := false;
      changed := true;
      keys, children, values := [], [], [];
      nextDeleted := None;
    }
  }

  class NodePager {
    const maxDegree: nat
    var pages: map<int, PageImage>
    var numberOfPages: nat
    var firstDeleted: Option<int>

    constructor (maxDegree: nat)
      ensures this.maxDegree == maxDegree && pages == map[] && numberOfPages == 0 && firstDeleted == None
    {
      this.maxDegree := maxDegree;
      pages, numberOfPages, firstDeleted := map[], 0, None;
    }

    /** Every page handed out is persisted, and none of them as a deleted one. */
    ghost predicate Valid()
      reads this
    {
      && (forall x :: x in pages <==> 0 <= x < numberOfPages)
      && (forall x :: x in pages ==> pages[x].id == x && !pages[x].deleted && pages[x].nextDeleted == None)
      && (firstDeleted.Some? ==> firstDeleted.value in pages)
    }

    ghost function Allocator(): Alloc
      requires Valid()
      reads this
    {
      Alloc(if firstDeleted.Some? then Some(FreePage(firstDeleted.value, pages[firstDeleted.value].nextLeaf)) else None,
            numberOfPages)
    }

    method ReadPage(id: int) returns (node: NodePage)
      requires id in pages
      ensures fresh(node) && node.Image() == pages[id] && node.maxDegree == maxDegree && !node.changed
    {
      node := new NodePage.FromStore(pages[id], maxDegree);
    }

    /** An unchanged page is not written; a deleted one and negative ids are refused. */
    method WritePage(node: NodePage) returns (ok: bool)
      modifies this`pages, node`changed
      ensures ok == (!old(node.changed) || (node.id >= 0 && !node.deleted))
      ensures old(node.changed) && ok ==> pages == old(pages)[node.id := node.Image()] && !node.changed
      ensures !(old(node.changed) && ok) ==> pages == old(pages) && node.changed == old(node.changed)
    {
      if !node.changed { return true; }
      if node.id == I32_MIN { return false; }
      if node.deleted { return false; }
      if node.id < 0 { return false; }
      pages := pages[node.id := node.Image()];
      node.changed := false;
      return true;
    }

    /** Write back a page of a tree: it is allocated, not on the free list, and flagged if it changed. */
    method Persist(node: NodePage, ghost t: Tree)
      requires Valid() && node.Image() == ImageOf(t) && t.id in pages
      requires Allocator().free.Some? ==> Allocator().free.value.id != t.id
      requires !node.changed ==> pages[t.id] == ImageOf(t)
      modifies this`pages, node`changed
      ensures Valid() && Allocator() == old(Allocator())
      ensures pages == old(pages)[t.id := ImageOf(t)]
      ensures node.Image() == ImageOf(t) && !node.changed
    {
      var ok := WritePage(node);
      assert ok;
    }

    /** The page becomes the head of the free list. Neither its deleted mark nor its link is written. */
    method DeletePage(id: int) returns (ok: bool)
      requires Valid() && id in pages
      modifies this`firstDeleted
      ensures ok && Valid() && Allocator() == Alloc(Some(FreePage(id, pages[id].nextLeaf)), old(Allocator()).pages)
    {
      if id == I32_MIN { return false; }
      var node := ReadPage(id);
      node.MarkDeleted(firstDeleted);
      firstDeleted := Some(node.id);
      return true;
    }

    /** A page of the free list comes first; it keeps the link it was last written with. */
    method AllocateNewPage() returns (node: NodePage)
      requires Valid()
      modifies this
      ensures Valid() && fresh(node) && node.maxDegree == maxDegree
      ensures var a := old(Allocator());
              && node.Image() == ImageOf(BlankPage(NextId(a), StaleLink(a)))
              && pages == old(pages)[node.id := node.Image()]
              && Allocator() == Next(a)
              && (node.changed <==> a.free == None)
      ensures if old(firstDeleted).Some? then
                && node.id == old(firstDeleted).value
                && pages[node.id].nextLeaf == old(pages[firstDeleted.value].nextLeaf) == node.nextLeaf
              else
                node.id == old(numberOfPages) && pages[node.id].nextLeaf == None == node.nextLeaf
    {
      if firstDeleted.Some? {
        node := ReadPage(firstDeleted.value);
        firstDeleted := node.nextDeleted;
        node.Reallocate();
        var ok := WritePage(node);
        assert ok;
      } else {
        numberOfPages := numberOfPages + 1;
        node := new NodePage(maxDegree, numberOfPages - 1);
        var ok := WritePage(node);
        assert ok;
        node.changed := true;
      }
    }
  }
}
