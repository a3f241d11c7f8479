/** Pages of the B+ tree in a page store, and how a tree lies in them. */
module StoredTrees {
  import opened Wrappers
  import opened Entries
  import opened BTree
  import opened BTreeSplit
  import opened BTreeInsert
  import opened BTreeDelete
  import opened BTreeStates

  const I32_MIN := -0x8000_0000

  /** A page as it is persisted. */
  datatype PageImage = PageImage(
    id: int, deleted: bool, nextDeleted: Option<int>,
    keys: seq<int>, children: seq<int>, values: seq<Val>, nextLeaf: Option<int>)

  function Ids(ts: seq<Tree>): (ids: seq<int>)
    ensures |ids| == |ts|
    ensures forall i :: 0 <= i < |ts| ==> ids[i] == ts[i].id
  {
    seq(|ts|, i requires 0 <= i < |ts| => ts[i].id)
  }

  function ImageOf(t: Tree): PageImage {
    PageImage(t.id, false, None, t.keys, Ids(t.kids), t.vals, t.next)
  }

  /** Every page of the tree is persisted as it should be. */
  ghost predicate Stored(pages: map<int, PageImage>, t: Tree)
    decreases t, 1
  {
    t.id in pages && pages[t.id] == ImageOf(t) && KidsStored(pages, t)
  }

  ghost predicate KidsStored(pages: map<int, PageImage>, t: Tree)
    decreases t, 0
  {
    forall c {:trigger c in t.kids} :: c in t.kids ==> Stored(pages, c)
  }

  // -------- which pages a tree touches --------

  lemma KidBag(t: Tree, i: nat)
    requires i < |t.kids|
    ensures Bag(t.kids[i]) + multiset{t.id} <= Bag(t)
  {
    KidCut(t, i);
  }

  lemma BagHasId(t: Tree)
    ensures t.id in Bag(t)
  {
  }

  lemma {:induction false} KidInList(ts: seq<Tree>, j: nat)
    requires j < |ts|
    ensures Bag(ts[j]) <= BagOf(ts)
  {
    if j > 0 { KidInList(ts[1..], j - 1); }
  }

  lemma TwoKidsBag(t: Tree, i: nat, j: nat)
    requires i < j < |t.kids|
    ensures Bag(t.kids[i]) + Bag(t.kids[j]) + multiset{t.id} <= Bag(t)
  {
    hide Bag, BagOf;
    KidCut(t, i);
    var rest := t.kids[i + 1..];
    KidInList(rest, j - i - 1);
    assert rest[j - i - 1] == t.kids[j];
    Sandwich(Bag(t), multiset{t.id}, BagOf(t.kids[..i]), Bag(t.kids[i]), BagOf(rest), Bag(t.kids[j]));
  }

  lemma Sandwich(all: multiset<int>, id: multiset<int>, a: multiset<int>, x: multiset<int>, b: multiset<int>,
                 y: multiset<int>)
    requires all == id + a + x + b && y <= b
    ensures x + y + id <= all
  {
  }

  /** Different children have no page in common. */
  lemma KidsApart(t: Tree, i: nat, j: nat, x: int)
    requires Distinct(t) && i < |t.kids| && j < |t.kids| && i != j && x in Bag(t.kids[i])
    ensures x !in Bag(t.kids[j]) && x != t.id
  {
    TwoKidsBag(t, if i < j then i else j, if i < j then j else i);
    assert Bag(t)[x] <= 1;
    assert (Bag(t.kids[i]) + Bag(t.kids[j]) + multiset{t.id})[x] <= Bag(t)[x];
  }

  lemma KidDistinct(t: Tree, i: nat)
    requires Distinct(t) && i < |t.kids|
    ensures Distinct(t.kids[i]) && t.id !in Bag(t.kids[i])
  {
    KidBag(t, i);
    forall x ensures Bag(t.kids[i])[x] <= 1 && (x == t.id ==> Bag(t.kids[i])[x] == 0) {
      assert (Bag(t.kids[i]) + multiset{t.id})[x] <= Bag(t)[x] <= 1;
    }
  }

  /** A tree stays stored as long as its own pages stay what they are. */
  lemma {:induction false} StoredFrame(p: map<int, PageImage>, q: map<int, PageImage>, t: Tree)
    requires Stored(p, t)
    requires forall x :: x in Bag(t) && x in p ==> x in q && q[x] == p[x]
    ensures Stored(q, t)
  {
    BagHasId(t);
    forall c | c in t.kids ensures Stored(q, c) {
      var i :| 0 <= i < |t.kids| && t.kids[i] == c;
      KidBag(t, i);
      StoredFrame(p, q, c);
    }
  }

  lemma {:induction false} StoredIds(p: map<int, PageImage>, t: Tree, x: int)
    requires Stored(p, t) && x in Bag(t)
    ensures x in p
    decreases t, 1
  {
    if x != t.id { StoredKidsIds(p, t.kids, x); }
  }

  lemma {:induction false} StoredKidsIds(p: map<int, PageImage>, ts: seq<Tree>, x: int)
    requires (forall c {:trigger c in ts} :: c in ts ==> Stored(p, c)) && x in BagOf(ts)
    ensures x in p
    decreases ts, 0
  {
    assert ts[0] in ts;
    if x in Bag(ts[0]) {
      StoredIds(p, ts[0], x);
    } else {
      forall c | c in ts[1..] ensures Stored(p, c) { assert c in ts; }
      StoredKidsIds(p, ts[1..], x);
    }
  }

  /** Keys are sorted in every page. */
  ghost predicate SortedPages(t: Tree) {
    SortedKeys(t.keys) && forall c {:trigger c in t.kids} :: c in t.kids ==> SortedPages(c)
  }

  lemma {:induction false} OrderedSorted(t: Tree, lo: Option<int>, hi: Option<int>)
    requires Ordered(t, lo, hi)
    ensures SortedPages(t)
  {
    forall c | c in t.kids ensures SortedPages(c) {
      var i :| 0 <= i < |t.kids| && t.kids[i] == c;
      assert KidOrdered(t, i, lo, hi);
      OrderedSorted(c, Lo(t.keys, lo, i), Hi(t.keys, hi, i));
    }
  }

  // -------- splitting: pages touched --------

  /** Splitting uses the pages of the child and the one it allocates, whether it is written or not. */
  lemma HalvesHold(c: Tree, a: Alloc)
    requires Shaped(c) && |c.keys| > 1
    ensures var s := Split(c, a);
            && Bag(s.left) + Bag(s.right) + FreeOf(s.alloc) <= Bag(c) + FreeOf(a) + Range(a.pages, s.alloc.pages)
            && a.pages <= s.alloc.pages
  {
    hide LeftHalf, RightHalf, Bag;
    var s := Split(c, a);
    var r := RightHalf(c, NextId(a), StaleLink(a));
    HalvesLeaves(c, NextId(a), StaleLink(a), None);
    RangeOne(a.pages);
    RangeNone(a.pages);
    RightBag(c, NextId(a), StaleLink(a));
    assert Bag(s.right) <= Bag(r);
    assert Bag(s.left) + Bag(s.right) <= Bag(c) + multiset{NextId(a)};
  }

  lemma SplitHolds(t: Tree, i: nat, a: Alloc)
    requires Shaped(t) && i < |t.kids| && i <= |t.keys| && Shaped(t.kids[i]) && |t.kids[i].keys| > 1
    ensures var s := Split(t.kids[i], a);
            && Bag(SplitKid(t, i, s)) + FreeOf(s.alloc) <= Bag(t) + FreeOf(a) + Range(a.pages, s.alloc.pages)
            && a.pages <= s.alloc.pages
  {
    hide Split, BagOf, FreeOf, Range;
    var c := t.kids[i];
    var s := Split(c, a);
    HalvesHold(c, a);
    KidCut(t, i);
    LeavesCut(t.kids[..i], [s.left, s.right], t.kids[i + 1..]);
    PairLeaves(s.left, s.right);
    var pre, post, both := BagOf(t.kids[..i]), BagOf(t.kids[i + 1..]), Bag(s.left) + Bag(s.right);
    assert Bag(SplitKid(t, i, s)) == multiset{t.id} + (pre + both + post);
    Rearranged(multiset{t.id}, pre, post, both, FreeOf(s.alloc), Bag(c), FreeOf(a), Range(a.pages, s.alloc.pages));
  }

  lemma RightBag(t: Tree, newId: int, link: Option<int>)
    requires Shaped(t) && |t.keys| > 0
    ensures newId in Bag(RightHalf(t, newId, link))
    ensures Bag(BlankPage(newId, link)) == multiset{newId}
    ensures multiset{newId} <= Bag(RightHalf(t, newId, link))
  {
  }

  lemma DescendHolds(d: int, t: Tree, key: int, a: Alloc)
    requires Shaped(t) && KidsBalanced(t) && !IsLeaf(t) && d >= 4
    ensures var s := Descend(d, t, key, a);
            && Bag(s.tree) + FreeOf(s.alloc) <= Bag(t) + FreeOf(a) + Range(a.pages, s.alloc.pages)
            && a.pages <= s.alloc.pages
  {
    hide Split, SplitKid, Bag;
    var i := ChildIndex(t.keys, key);
    assert t.kids[i] in t.kids;
    if NeedsSplit(d, t, key) {
      SplitHolds(t, i, a);
    } else {
      RangeNone(a.pages);
    }
  }

  lemma WithKidHolds(t: Tree, i: nat, c: Tree, free: multiset<int>, free': multiset<int>, more: multiset<int>)
    requires i < |t.kids| && Bag(c) + free' <= Bag(t.kids[i]) + free + more
    ensures Bag(WithKid(t, i, c)) + free' <= Bag(t) + free + more
  {
    hide Bag, BagOf, WithKid;
    KidCut(t, i);
    WithKidCut(t, i, c);
    Rearranged(multiset{t.id}, BagOf(t.kids[..i]), BagOf(t.kids[i + 1..]), Bag(c), free', Bag(t.kids[i]), free, more);
  }

  lemma AddRest(rest: multiset<int>, x: multiset<int>, y: multiset<int>)
    requires x <= y
    ensures rest + x <= rest + y
  {
  }

  lemma Rearranged(a: multiset<int>, b: multiset<int>, c: multiset<int>, now: multiset<int>, free': multiset<int>,
                   was: multiset<int>, free: multiset<int>, more: multiset<int>)
    requires now + free' <= was + free + more
    ensures a + b + now + c + free' <= a + b + was + c + free + more
  {
    forall x ensures (a + b + now + c + free')[x] <= (a + b + was + c + free + more)[x] {
      assert (now + free')[x] <= (was + free + more)[x];
    }
  }

  /** An insertion, safe or not, touches the pages of the tree, the free page and fresh pages only. */
  lemma {:induction false} InsertHolds(d: int, t: Tree, key: int, val: Val, a: Alloc)
    requires Shaped(t) && KidsBalanced(t) && d >= 4
    ensures var r := Insert(d, t, key, val, a);
            && Bag(r.tree) + FreeOf(r.alloc) <= Bag(t) + FreeOf(a) + Range(a.pages, r.alloc.pages)
            && a.pages <= r.alloc.pages && r.tree.id == t.id
    decreases Depth(t)
  {
    hide Descend, Bag, Range, FreeOf;
    if IsLeaf(t) {
      InsertLeafBag(t, key, val);
      RangeNone(a.pages);
    } else {
      DescendShape(d, t, key, a);
      DescendHolds(d, t, key, a);
      var s := Descend(d, t, key, a);
      var c := s.tree.kids[s.index];
      InsertHolds(d, c, key, val, s.alloc);
      var r := Insert(d, c, key, val, s.alloc);
      WithKidHolds(s.tree, s.index, r.tree, FreeOf(s.alloc), FreeOf(r.alloc), Range(s.alloc.pages, r.alloc.pages));
      RangeSplit(a.pages, s.alloc.pages, r.alloc.pages);
      Chain3(Bag(WithKid(s.tree, s.index, r.tree)) + FreeOf(r.alloc), Bag(s.tree) + FreeOf(s.alloc),
             Bag(t) + FreeOf(a), Range(a.pages, s.alloc.pages), Range(s.alloc.pages, r.alloc.pages));
    }
  }

  lemma Chain3(x: multiset<int>, y: multiset<int>, z: multiset<int>, m: multiset<int>, n: multiset<int>)
    requires x <= y + n && y <= z + m
    ensures x <= z + (m + n)
  {
  }

  lemma HeldGrows(was: multiset<int>, now: multiset<int>, a: Alloc, b: Alloc)
    requires PagesHeldOnce(was, a) && a.pages <= b.pages
    requires now + FreeOf(b) <= was + FreeOf(a) + Range(a.pages, b.pages)
    ensures PagesHeldOnce(now, b)
  {
    forall x ensures (now + FreeOf(b))[x] <= (if 0 <= x < b.pages then 1 else 0) {
      RangeMember(a.pages, b.pages, x);
      assert (was + FreeOf(a))[x] <= (if 0 <= x < a.pages then 1 else 0);
    }
  }

  lemma HeldPart(part: multiset<int>, whole: multiset<int>, a: Alloc)
    requires PagesHeldOnce(whole, a) && part <= whole
    ensures PagesHeldOnce(part, a)
  {
    forall x ensures (part + FreeOf(a))[x] <= (if 0 <= x < a.pages then 1 else 0) {
      assert (whole + FreeOf(a))[x] <= (if 0 <= x < a.pages then 1 else 0);
    }
  }

  // -------- the store after a local change --------

  /** q differs from p at most at the given ids. */
  ghost predicate SameExcept(p: map<int, PageImage>, q: map<int, PageImage>, ids: multiset<int>) {
    forall x :: x in p && x !in ids ==> x in q && q[x] == p[x]
  }

  lemma HeldFacts(t: Tree, a: Alloc)
    requires PagesHeldOnce(Bag(t), a)
    ensures Distinct(t) && NextId(a) !in Bag(t)
    ensures forall x :: x in Bag(t) ==> 0 <= x < a.pages
    ensures a.free.Some? ==> 0 <= a.free.value.id < a.pages && a.free.value.id !in Bag(t)
  {
    forall x ensures Bag(t)[x] <= 1 && (x in Bag(t) ==> 0 <= x < a.pages && (a.free.Some? ==> x != a.free.value.id)) {
      assert (Bag(t) + FreeOf(a))[x] <= (if 0 <= x < a.pages then 1 else 0);
    }
    if a.free.Some? {
      var x := a.free.value.id;
      assert (Bag(t) + FreeOf(a))[x] <= (if 0 <= x < a.pages then 1 else 0);
    }
  }

  /** Children untouched by a change stay stored. */
  lemma KidsStay(p: map<int, PageImage>, q: map<int, PageImage>, t: Tree, ids: multiset<int>)
    requires KidsStored(p, t) && SameExcept(p, q, ids)
    requires forall i :: 0 <= i < |t.kids| ==> forall x :: x in ids ==> x !in Bag(t.kids[i])
    ensures KidsStored(q, t)
  {
    forall c | c in t.kids ensures Stored(q, c) {
      var i :| 0 <= i < |t.kids| && t.kids[i] == c;
      StoredFrame(p, q, c);
    }
  }

  /** Both halves as page contents. */
  lemma HalfImages(t: Tree, newId: int, link: Option<int>)
    requires Shaped(t) && |t.keys| > 1
    ensures var m := |t.keys| / 2;
            var img := ImageOf(t);
            if IsLeaf(t) then
              && img.children == []
              && ImageOf(LeftHalf(t, newId))
                 == img.(keys := t.keys[..m], values := t.vals[..m], nextLeaf := Some(newId))
              && ImageOf(RightHalf(t, newId, link))
                 == PageImage(newId, false, None, t.keys[m..], [], t.vals[m..], t.next)
              && |t.vals| == |t.keys|
            else
              && |img.children| == |t.keys| + 1 && t.vals == []
              && ImageOf(LeftHalf(t, newId)) == img.(keys := t.keys[..m], children := img.children[..m + 1])
              && ImageOf(RightHalf(t, newId, link))
                 == PageImage(newId, false, None, t.keys[m + 1..], img.children[m + 1..], [], link)
  {
    var m := |t.keys| / 2;
    if !IsLeaf(t) {
      assert Ids(t.kids[..m + 1]) == Ids(t.kids)[..m + 1];
      assert Ids(t.kids[m + 1..]) == Ids(t.kids)[m + 1..];
    }
  }

  /** One child is replaced; the others are untouched. */
  lemma StoredWithKid(p: map<int, PageImage>, q: map<int, PageImage>, t: Tree, i: nat, c: Tree, extra: multiset<int>)
    requires KidsStored(p, t) && i < |t.kids| && Distinct(t) && Stored(q, c)
    requires SameExcept(p, q, Bag(t.kids[i]) + extra) && forall x :: x in extra ==> x !in Bag(t)
    ensures KidsStored(q, WithKid(t, i, c))
  {
    forall k | k in WithKid(t, i, c).kids ensures Stored(q, k) {
      var j :| 0 <= j < |t.kids| && WithKid(t, i, c).kids[j] == k;
      if j != i {
        assert k in t.kids;
        forall x | x in Bag(k) ensures x !in Bag(t.kids[i]) + extra {
          KidsApart(t, j, i, x);
          KidBag(t, j);
        }
        StoredFrame(p, q, k);
      }
    }
  }

  lemma StoredAfterWrite(p: map<int, PageImage>, q: map<int, PageImage>, t: Tree)
    requires KidsStored(p, t) && Distinct(t)
    requires t.id in q && q[t.id] == ImageOf(t) && SameExcept(p, q, multiset{t.id})
    ensures Stored(q, t)
  {
    forall i | 0 <= i < |t.kids| ensures t.id !in Bag(t.kids[i]) { KidDistinct(t, i); }
    KidsStay(p, q, t, multiset{t.id});
  }

  lemma DescendSorted(d: int, t: Tree, key: int, a: Alloc)
    requires Shaped(t) && KidsBalanced(t) && !IsLeaf(t) && d >= 4 && SortedPages(t)
    ensures var s := Descend(d, t, key, a);
            s.index < |s.tree.kids| && SortedPages(s.tree.kids[s.index])
  {
    DescendShape(d, t, key, a);
    var i := ChildIndex(t.keys, key);
    var c := t.kids[i];
    assert c in t.kids;
    if NeedsSplit(d, t, key) {
      var s := Split(c, a);
      SplitParts(c, a);
      SplitKidBounds(t, i, s, None, None, i);
      SplitKidBounds(t, i, s, None, None, i + 1);
      HalvesSorted(c, NextId(a), StaleLink(a));
    }
  }

  lemma HalvesSorted(t: Tree, newId: int, link: Option<int>)
    requires Shaped(t) && |t.keys| > 1 && SortedPages(t)
    ensures SortedPages(LeftHalf(t, newId)) && SortedPages(RightHalf(t, newId, link))
    ensures SortedPages(BlankPage(newId, link))
  {
    var l, r := LeftHalf(t, newId), RightHalf(t, newId, link);
    forall c | c in l.kids || c in r.kids ensures c in t.kids {}
  }

  /** The parent of a split page, as a page. */
  lemma SplitKidImage(t: Tree, i: nat, s: SplitResult)
    requires i < |t.kids| && i <= |t.keys| && s.left.id == t.kids[i].id
    ensures var img := ImageOf(t);
            ImageOf(SplitKid(t, i, s))
            == img.(keys := t.keys[..i] + [s.key] + t.keys[i..],
                    children := img.children[..i + 1] + [s.right.id] + img.children[i + 1..])
  {
  }

  lemma SplitKidStored(p: map<int, PageImage>, q: map<int, PageImage>, t: Tree, i: nat, s: SplitResult, newId: int)
    requires KidsStored(p, t) && Distinct(t) && i < |t.kids| && i <= |t.keys|
    requires Stored(q, s.left) && Stored(q, s.right) && newId !in Bag(t)
    requires SameExcept(p, q, multiset{t.kids[i].id, newId})
    ensures KidsStored(q, SplitKid(t, i, s))
  {
    var u := SplitKid(t, i, s);
    forall k | k in u.kids ensures Stored(q, k) {
      if k != s.left && k != s.right {
        assert k in t.kids[..i] || k in t.kids[i + 1..];
        var j :| 0 <= j < |t.kids| && j != i && t.kids[j] == k;
        assert t.kids[j] in t.kids;
        BagHasId(t.kids[i]);
        forall x | x in Bag(k) ensures x != t.kids[i].id && x != newId {
          KidsApart(t, j, i, x);
          KidBag(t, j);
        }
        StoredFrame(p, q, k);
      }
    }
  }

  lemma SplitParts(t: Tree, a: Alloc)
    requires Shaped(t) && |t.keys| > 1
    ensures var s := Split(t, a);
            && s.left == LeftHalf(t, NextId(a)) && s.left.id == t.id && s.right.id == NextId(a)
            && s.right == (if a.free.Some? then BlankPage(NextId(a), StaleLink(a))
                           else RightHalf(t, NextId(a), StaleLink(a)))
            && s.key == t.keys[|t.keys| / 2] && s.alloc == Next(a)
  {
  }

  lemma HalvesAnyId(t: Tree, newId: int, link: Option<int>)
    requires Shaped(t) && |t.keys| > 1
    ensures var l, r := LeftHalf(t, newId), RightHalf(t, newId, link);
            var l0, r0 := LeftHalf(t, 0), RightHalf(t, 0, None);
            && l.id == t.id && r.id == newId && (IsLeaf(l0) <==> IsLeaf(t))
               && (ImageOf(l0).children == [] <==> IsLeaf(t))
            && ImageOf(l) == ImageOf(l0).(nextLeaf := if IsLeaf(t) then Some(newId) else t.next)
            && ImageOf(r) == PageImage(newId, false, None, r0.keys, Ids(r0.kids), r0.vals,
                                       if IsLeaf(t) then t.next else link)
  {
  }

  lemma StoredAfterSplit(p: map<int, PageImage>, q: map<int, PageImage>, t: Tree, a: Alloc)
    requires Shaped(t) && |t.keys| > 1 && KidsStored(p, t) && PagesHeldOnce(Bag(t), a)
    requires SameExcept(p, q, multiset{t.id, NextId(a)})
    requires var s := Split(t, a);
             s.left.id in q && q[s.left.id] == ImageOf(s.left) && s.right.id in q && q[s.right.id] == ImageOf(s.right)
    ensures Stored(q, Split(t, a).left) && Stored(q, Split(t, a).right)
  {
    HeldFacts(t, a);
    forall i | 0 <= i < |t.kids| ensures t.id !in Bag(t.kids[i]) && NextId(a) !in Bag(t.kids[i]) {
      KidDistinct(t, i);
      KidBag(t, i);
    }
    KidsStay(p, q, t, multiset{t.id, NextId(a)});
    var s := Split(t, a);
    forall c | c in s.left.kids || c in s.right.kids ensures Stored(q, c) { assert c in t.kids; }
  }
}
