/** Page allocation and the preemptive split of a full page. */
module BTreeSplit {
  import opened Wrappers
  import opened Entries
  import opened BTree

  /** A page on the free list; its link to a next leaf is still the stored one. */
  datatype FreePage = FreePage(id: int, next: Option<int>)

  /** The free list holds one page at most, because the link of a deleted page is never stored. */
  datatype Alloc = Alloc(free: Option<FreePage>, pages: nat)

  function NextId(a: Alloc): int { if a.free.Some? then a.free.value.id else a.pages }

  function Next(a: Alloc): Alloc {
    if a.free.Some? then Alloc(None, a.pages) else Alloc(None, a.pages + 1)
  }

  function StaleLink(a: Alloc): Option<int> { if a.free.Some? then a.free.value.next else None }

  datatype SplitResult = SplitResult(left: Tree, right: Tree, key: int, alloc: Alloc)

  function LeftHalf(t: Tree, newId: int): Tree
    requires Shaped(t)
  {
    var m := |t.keys| / 2;
    if IsLeaf(t) then t.(keys := t.keys[..m], vals := t.vals[..m], next := Some(newId))
    else t.(keys := t.keys[..m], kids := t.kids[..m + 1])
  }

  /** The right half as it is built in memory. */
  function RightHalf(t: Tree, newId: int, link: Option<int>): Tree
    requires Shaped(t) && |t.keys| > 0
  {
    var m := |t.keys| / 2;
    if IsLeaf(t) then Tree(newId, t.keys[m..], t.vals[m..], [], t.next)
    else Tree(newId, t.keys[m + 1..], [], t.kids[m + 1..], link)
  }

  function BlankPage(newId: int, link: Option<int>): Tree { Tree(newId, [], [], [], link) }

  /** What the pages hold after the split. A page taken from the free list comes back
      with its dirty flag cleared, so the right half is never written to it. */
  function Split(t: Tree, a: Alloc): SplitResult
    requires Shaped(t) && |t.keys| > 0
  {
    SplitResult(
      LeftHalf(t, NextId(a)),
      if a.free.Some? then BlankPage(NextId(a), StaleLink(a)) else RightHalf(t, NextId(a), StaleLink(a)),
      t.keys[|t.keys| / 2],
      Next(a))
  }

  /** Splitting is undone by joining the halves around the promoted key. */
  lemma HalvesJoin(t: Tree, newId: int, link: Option<int>)
    requires Shaped(t) && |t.keys| > 0
    ensures Join(LeftHalf(t, newId), t.keys[|t.keys| / 2], RightHalf(t, newId, link)) == t
    ensures |LeftHalf(t, newId).keys| == |t.keys| / 2
  {
    var m := |t.keys| / 2;
    if IsLeaf(t) {
      assert t.keys[..m] + t.keys[m..] == t.keys && t.vals[..m] + t.vals[m..] == t.vals;
    } else {
      assert t.keys[..m] + [t.keys[m]] + t.keys[m + 1..] == t.keys;
      assert t.kids[..m + 1] + t.kids[m + 1..] == t.kids;
    }
  }

  lemma HalvesShaped(t: Tree, newId: int, link: Option<int>)
    requires Shaped(t) && |t.keys| > 1
    ensures Shaped(LeftHalf(t, newId)) && Shaped(RightHalf(t, newId, link))
    ensures IsLeaf(LeftHalf(t, newId)) <==> IsLeaf(t)
    ensures IsLeaf(RightHalf(t, newId, link)) <==> IsLeaf(t)
  {
    var l, r := LeftHalf(t, newId), RightHalf(t, newId, link);
    forall c | c in l.kids || c in r.kids ensures c in t.kids {}
  }

  lemma HalvesShape(t: Tree, newId: int, link: Option<int>)
    requires Shaped(t) && Balanced(t) && |t.keys| > 1
    ensures var l := LeftHalf(t, newId);
            var r := RightHalf(t, newId, link);
            && Shaped(l) && Balanced(l) && Depth(l) == Depth(t) && (IsLeaf(l) <==> IsLeaf(t))
            && Shaped(r) && Balanced(r) && Depth(r) == Depth(t) && (IsLeaf(r) <==> IsLeaf(t))
  {
    if !IsLeaf(t) {
      var m := |t.keys| / 2;
      var l, r := LeftHalf(t, newId), RightHalf(t, newId, link);
      assert t.kids[0] in t.kids && t.kids[m + 1] in t.kids;
      assert l.kids[0] == t.kids[0] && r.kids[0] == t.kids[m + 1];
      forall c | c in l.kids ensures c in t.kids {}
      forall c | c in r.kids ensures c in t.kids {}
    }
  }

  lemma HalvesOrdered(t: Tree, newId: int, link: Option<int>, lo: Option<int>, hi: Option<int>)
    requires Shaped(t) && Ordered(t, lo, hi) && |t.keys| > 1
    ensures var key := t.keys[|t.keys| / 2];
            && Exceeds(lo, key) && Under(key, hi)
            && Ordered(LeftHalf(t, newId), lo, Some(key))
            && Ordered(RightHalf(t, newId, link), Some(key), hi)
  {
    var m := |t.keys| / 2;
    assert t.keys[0] < t.keys[m];
    if !IsLeaf(t) {
      HalvesJoin(t, newId, link);
      HalvesShaped(t, newId, link);
      NodesPart(LeftHalf(t, newId), t.keys[m], RightHalf(t, newId, link), lo, hi);
    }
  }

  lemma HalvesLeaves(t: Tree, newId: int, link: Option<int>, nxt: Option<int>)
    requires Shaped(t) && |t.keys| > 1
    ensures var l := LeftHalf(t, newId);
            var r := RightHalf(t, newId, link);
            && EntriesOf(Leaves(l) + Leaves(r)) == Flat(t)
            && Leaves(l)[0].id == Leaves(t)[0].id
            && (Chained(Leaves(t), nxt) ==> Chained(Leaves(l) + Leaves(r), nxt))
            && Bag(l) + Bag(r) == Bag(t) + multiset{newId}
  {
    var l, r := LeftHalf(t, newId), RightHalf(t, newId, link);
    HalvesJoin(t, newId, link);
    if IsLeaf(t) {
      JoinedLeaf(l, r, nxt);
      assert Leaves(l) == [l] && Leaves(r) == [r];
      assert Chained(Leaves(t), nxt) ==> t.next == nxt;
    } else {
      JoinedNode(l, t.keys[|t.keys| / 2], r);
      assert l.id == t.id && r.id == newId;
    }
  }

  // -------- the three together --------

  lemma SplitShape(t: Tree, a: Alloc)
    requires Shaped(t) && Balanced(t) && |t.keys| > 1
    ensures var s := Split(t, a);
            && Shaped(s.left) && Balanced(s.left) && Depth(s.left) == Depth(t)
            && Shaped(s.right) && Balanced(s.right) && Depth(s.right) <= Depth(t)
            && (a.free == None ==> Depth(s.right) == Depth(t))
  {
    HalvesShape(t, NextId(a), StaleLink(a));
  }

  lemma SplitFilled(d: int, t: Tree, a: Alloc)
    requires DegreeAccepted(d) && d >= 6 && Shaped(t) && FilledKids(d, t) && |t.keys| == MaxKeys(d)
    ensures var s := Split(t, a);
            && Filled(d, s.left) && !IsFull(d, s.left)
            && (a.free == None ==> Filled(d, s.right) && !IsFull(d, s.right))
  {
    var s := Split(t, a);
    assert forall c :: c in s.left.kids ==> c in t.kids;
    assert a.free == None ==> forall c :: c in s.right.kids ==> c in t.kids;
  }

  // -------- the parent takes in both halves --------

  function SplitKid(t: Tree, i: nat, s: SplitResult): Tree
    requires i < |t.kids| && i <= |t.keys|
  {
    t.(keys := t.keys[..i] + [s.key] + t.keys[i..],
       kids := t.kids[..i] + [s.left, s.right] + t.kids[i + 1..])
  }

  lemma SplitKidShape(t: Tree, i: nat, s: SplitResult)
    requires Shaped(t) && KidsBalanced(t) && i < |t.kids|
    requires Shaped(s.left) && Balanced(s.left) && Depth(s.left) == Depth(t.kids[i])
    requires Shaped(s.right) && Balanced(s.right)
    ensures var u := SplitKid(t, i, s);
            && Shaped(u) && Depth(u) == Depth(t)
            && (Balanced(t) && Depth(s.right) == Depth(t.kids[i]) ==> Balanced(u))
  {
    var u := SplitKid(t, i, s);
    assert t.kids[i] in t.kids && t.kids[0] in t.kids;
    assert u.kids[0] == if i == 0 then s.left else t.kids[0];
    forall x | x in u.kids ensures x in t.kids || x == s.left || x == s.right {}
  }

  lemma SplicedSorted(keys: seq<int>, i: nat, key: int)
    requires SortedKeys(keys) && i <= |keys|
    requires i > 0 ==> keys[i - 1] < key
    requires i < |keys| ==> key < keys[i]
    ensures SortedKeys(keys[..i] + [key] + keys[i..])
  {
  }

  lemma SplitKidKeys(t: Tree, i: nat, s: SplitResult, lo: Option<int>, hi: Option<int>)
    requires KeysOrdered(t, lo, hi) && i < |t.kids|
    requires Exceeds(Lo(t.keys, lo, i), s.key) && Under(s.key, Hi(t.keys, hi, i))
    ensures KeysOrdered(SplitKid(t, i, s), lo, hi)
  {
    var ks := SplitKid(t, i, s).keys;
    SplicedSorted(t.keys, i, s.key);
    assert Exceeds(lo, s.key) && Under(s.key, hi);
    forall j | 0 <= j < |ks| ensures Exceeds(lo, ks[j]) && Under(ks[j], hi) {
      assert ks[j] == if j < i then t.keys[j] else if j == i then s.key else t.keys[j - 1];
    }
  }

  /** The children beside the split one keep their bounds. */
  lemma SplitKidBounds(t: Tree, i: nat, s: SplitResult, lo: Option<int>, hi: Option<int>, j: nat)
    requires |t.kids| == |t.keys| + 1 && i < |t.kids| && j <= |t.kids|
    ensures var u := SplitKid(t, i, s);
            && |u.kids| == |t.kids| + 1 && |u.keys| == |t.keys| + 1
            && (j < i ==>
                  && u.kids[j] == t.kids[j]
                  && Lo(u.keys, lo, j) == Lo(t.keys, lo, j) && Hi(u.keys, hi, j) == Hi(t.keys, hi, j))
            && (j == i ==>
                  u.kids[j] == s.left && Lo(u.keys, lo, j) == Lo(t.keys, lo, i) && Hi(u.keys, hi, j) == Some(s.key))
            && (j == i + 1 ==>
                  u.kids[j] == s.right && Lo(u.keys, lo, j) == Some(s.key) && Hi(u.keys, hi, j) == Hi(t.keys, hi, i))
            && (j > i + 1 ==>
                  && u.kids[j] == t.kids[j - 1]
                  && Lo(u.keys, lo, j) == Lo(t.keys, lo, j - 1) && Hi(u.keys, hi, j) == Hi(t.keys, hi, j - 1))
  {
  }

  lemma SplitKidOrdered(t: Tree, i: nat, s: SplitResult, lo: Option<int>, hi: Option<int>)
    requires Ordered(t, lo, hi) && i < |t.kids|
    requires Exceeds(Lo(t.keys, lo, i), s.key) && Under(s.key, Hi(t.keys, hi, i))
    requires Ordered(s.left, Lo(t.keys, lo, i), Some(s.key)) && Ordered(s.right, Some(s.key), Hi(t.keys, hi, i))
    ensures Ordered(SplitKid(t, i, s), lo, hi)
  {
    var u := SplitKid(t, i, s);
    SplitKidKeys(t, i, s, lo, hi);
    forall j | 0 <= j < |u.kids| ensures KidOrdered(u, j, lo, hi) {
      SplitKidBounds(t, i, s, lo, hi, j);
      if j < i {
        assert KidOrdered(t, j, lo, hi);
      } else if j > i + 1 {
        assert KidOrdered(t, j - 1, lo, hi);
      }
    }
  }

  lemma SplitKidLeaves(t: Tree, i: nat, s: SplitResult, nxt: Option<int>)
    requires i < |t.kids| && i <= |t.keys|
    requires EntriesOf(Leaves(s.left) + Leaves(s.right)) == Flat(t.kids[i])
    requires Leaves(s.left)[0].id == Leaves(t.kids[i])[0].id
    requires Chained(Leaves(t.kids[i]), HeadId(LeavesOf(t.kids[i + 1..]), nxt))
      ==> Chained(Leaves(s.left) + Leaves(s.right), HeadId(LeavesOf(t.kids[i + 1..]), nxt))
    ensures var u := SplitKid(t, i, s);
            && Flat(u) == Flat(t)
            && Leaves(u)[0].id == Leaves(t)[0].id
            && (Chained(Leaves(t), nxt) ==> Chained(Leaves(u), nxt))
            && Bag(u) + Bag(t.kids[i]) == Bag(t) + Bag(s.left) + Bag(s.right)
  {
    var c := t.kids[i];
    var pre, post := LeavesOf(t.kids[..i]), LeavesOf(t.kids[i + 1..]);
    var mid := Leaves(s.left) + Leaves(s.right);
    KidCut(t, i);
    PairLeaves(s.left, s.right);
    LeavesCut(t.kids[..i], [s.left, s.right], t.kids[i + 1..]);
    EntriesCut(pre, mid, post);
    ChainExchange(pre, Leaves(c), mid, post, nxt);
  }

  lemma SplitFresh(t: Tree, a: Alloc)
    requires Shaped(t) && |t.keys| > 0 && a.free == None
    ensures var s := Split(t, a);
            && s.left == LeftHalf(t, a.pages) && s.right == RightHalf(t, a.pages, None)
            && s.alloc == Alloc(None, a.pages + 1)
  {
  }

  /** Splitting a child into a fresh page moves boundaries only. */
  lemma SplitKidWhole(t: Tree, i: nat, a: Alloc, nxt: Option<int>)
    requires Shaped(t) && i < |t.kids| && i <= |t.keys| && a.free == None
    requires Shaped(t.kids[i]) && |t.kids[i].keys| > 1
    ensures var u := SplitKid(t, i, Split(t.kids[i], a));
            && Flat(u) == Flat(t)
            && Leaves(u)[0].id == Leaves(t)[0].id
            && (Chained(Leaves(t), nxt) ==> Chained(Leaves(u), nxt))
            && Bag(u) == Bag(t) + multiset{a.pages}
  {
    hide *;
    var c := t.kids[i];
    var s := Split(c, a);
    SplitFresh(c, a);
    HalvesLeaves(c, a.pages, None, HeadId(LeavesOf(t.kids[i + 1..]), nxt));
    SplitKidLeaves(t, i, s, nxt);
    assert Bag(t) + Bag(s.left) + Bag(s.right) == Bag(t) + (Bag(s.left) + Bag(s.right));
    assert Bag(t) + (Bag(c) + multiset{a.pages}) == Bag(t) + Bag(c) + multiset{a.pages};
    BagCancel(Bag(SplitKid(t, i, s)), Bag(c), Bag(t), a.pages);
  }

  lemma BagCancel(u: multiset<int>, c: multiset<int>, t: multiset<int>, x: int)
    requires u + c == t + c + multiset{x}
    ensures u == t + multiset{x}
  {
    assert (u + c) - c == u && (t + multiset{x} + c) - c == t + multiset{x};
  }

  lemma SplitKidFilled(d: int, t: Tree, i: nat, a: Alloc)
    requires DegreeAccepted(d) && d >= 6 && Shaped(t) && FilledKids(d, t) && i < |t.kids| && Shaped(t.kids[i])
    requires IsFull(d, t.kids[i]) && a.free == None
    ensures FilledKids(d, SplitKid(t, i, Split(t.kids[i], a)))
    ensures !IsFull(d, Split(t.kids[i], a).left) && !IsFull(d, Split(t.kids[i], a).right)
  {
    var c := t.kids[i];
    assert c in t.kids;
    SplitFilled(d, c, a);
    var s := Split(c, a);
    forall x | x in SplitKid(t, i, s).kids ensures Filled(d, x) {
      assert x in t.kids || x == s.left || x == s.right;
    }
  }
}
