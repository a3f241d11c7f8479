/** Where the leaf chain leads once a leaf was split into a page of the free list. Such a page keeps
    the link it was released with, and nothing ever writes the link of the leaf that was split to it. */
module BTreeLinks {
  import opened Wrappers
  import opened Entries
  import opened BTree
  import opened BTreeSplit
  import opened BTreeInsert
  import opened BTreeStates
  import opened StoredTrees
  import opened PageNodes
  import opened BTreeScan

  // -------- the leaves afterwards --------

  /** The first full page on the way to the key is the leaf the way ends in. */
  predicate OnlyLeafIsFull(d: int, t: Tree, key: int)
    requires Shaped(t)
  {
    if IsLeaf(t) then IsFull(d, t)
    else
      !IsFull(d, t) &&
      (var c := t.kids[ChildIndex(t.keys, key)];
       assert c in t.kids;
       OnlyLeafIsFull(d, c, key))
  }

  /** The insertion splits a leaf into the page of the free list. */
  predicate SplitsLeafIntoFree(d: int, s: State, key: int)
    requires RootReady(s)
  {
    s.root.Some? && s.alloc.free.Some? && OnlyLeafIsFull(d, s.root.value, key)
  }

  /** Leaf l of the first list gave way to two, the second of them in page f. */
  ghost predicate LinksInto(was: seq<Tree>, l: Tree, now: seq<Tree>, f: int, link: Option<int>) {
    exists m: nat, x: Tree, y: Tree ::
      && m < |was| && was[m] == l && now == was[..m] + [x, y] + was[m + 1..]
      && x.id == l.id && x.next == Some(f) && y.id == f && y.next == link
  }

  lemma LinksIntoSome(was: seq<Tree>, m: nat, l: Tree, x: Tree, y: Tree)
    requires m < |was| && was[m] == l && x.id == l.id && x.next == Some(y.id)
    ensures LinksInto(was, l, was[..m] + [x, y] + was[m + 1..], y.id, y.next)
  {
  }

  lemma LinksIntoAmong(pre: seq<Tree>, was: seq<Tree>, l: Tree, now: seq<Tree>, post: seq<Tree>, f: int,
                       link: Option<int>)
    requires LinksInto(was, l, now, f, link)
    ensures LinksInto(pre + was + post, l, pre + now + post, f, link)
  {
    var m: nat, x: Tree, y: Tree :| m < |was| && was[m] == l && now == was[..m] + [x, y] + was[m + 1..]
                                    && x.id == l.id && x.next == Some(f) && y.id == f && y.next == link;
    SplicedAmong(pre, was, post, m, [x, y]);
    LinksIntoSome(pre + was + post, |pre| + m, l, x, y);
  }

  lemma SplicedAmong(pre: seq<Tree>, was: seq<Tree>, post: seq<Tree>, m: nat, xs: seq<Tree>)
    requires m < |was|
    ensures var all := pre + was + post;
            && |pre| + m < |all| && all[|pre| + m] == was[m]
            && pre + (was[..m] + xs + was[m + 1..]) + post == all[..|pre| + m] + xs + all[|pre| + m + 1..]
  {
    var all := pre + was + post;
    assert all[..|pre| + m] == pre + was[..m];
    assert all[|pre| + m + 1..] == was[m + 1..] + post;
  }

  /** The two pages of a leaf split into the free page. */
  lemma HalvesOfLeaf(t: Tree, f: FreePage, n: nat)
    requires Shaped(t) && IsLeaf(t) && |t.keys| > 1
    ensures var s := Split(t, Alloc(Some(f), n));
            && Shaped(s.left) && IsLeaf(s.left) && s.left.id == t.id && s.left.next == Some(f.id)
            && Shaped(s.right) && IsLeaf(s.right) && s.right.id == f.id && s.right.next == f.next
            && s.left.keys == t.keys[..|t.keys| / 2] && s.right.keys == [] && s.alloc == Alloc(None, n)
  {
  }

  lemma InsertIntoLeafOf(d: int, u: Tree, key: int, val: Val, a: Alloc, i: nat)
    requires i < |u.kids| && IsLeaf(u.kids[i]) && Shaped(u.kids[i]) && KidsBalanced(u.kids[i]) && d >= 4
    ensures var r := Insert(d, u.kids[i], key, val, a);
            IsLeaf(r.tree) && r.tree.id == u.kids[i].id && r.tree.next == u.kids[i].next && r.alloc == a
  {
  }

  lemma TwoLeavesThere(t: Tree, i: nat, x: Tree, y: Tree, u: Tree)
    requires i < |t.kids| && i <= |t.keys| && IsLeaf(t.kids[i]) && IsLeaf(x) && IsLeaf(y)
    requires x.id == t.kids[i].id && x.next == Some(y.id)
    requires u.kids == t.kids[..i] + [x, y] + t.kids[i + 1..]
    ensures LinksInto(Leaves(t), t.kids[i], Leaves(u), y.id, y.next)
  {
    hide LinksInto;
    var l := t.kids[i];
    var pre, post := LeavesOf(t.kids[..i]), LeavesOf(t.kids[i + 1..]);
    KidCut(t, i);
    LeavesCut(t.kids[..i], [x, y], t.kids[i + 1..]);
    PairLeaves(x, y);
    LinksIntoSome([l], 0, l, x, y);
    assert [l][..0] + [x, y] + [l][1..] == [x, y];
    assert Leaves(l) == [l] && Leaves(x) + Leaves(y) == [x, y];
    LinksIntoAmong(pre, [l], l, [x, y], post, y.id, y.next);
  }

  /** One leaf gives way to two: itself, linked to the free page, and the free page with the link it had. */
  lemma {:induction false} LeafGoesToFreePage(d: int, t: Tree, key: int, val: Val, f: FreePage, n: nat)
    requires Shaped(t) && KidsBalanced(t) && !IsLeaf(t) && d >= 4 && OnlyLeafIsFull(d, t, key)
    ensures var r := Insert(d, t, key, val, Alloc(Some(f), n));
            LinksInto(Leaves(t), FindLeaf(t, key), Leaves(r.tree), f.id, f.next)
    decreases Depth(t)
  {
    hide LinksInto, Leaves, Split, SplitKid, InsertLeaf;
    var a := Alloc(Some(f), n);
    var i := ChildIndex(t.keys, key);
    var c := t.kids[i];
    assert c in t.kids;
    InsertUnfolds(d, t, key, val, a);
    var s := Descend(d, t, key, a);
    var r := Insert(d, s.tree.kids[s.index], key, val, s.alloc);
    if IsLeaf(c) {
      HalvesOfLeaf(c, f, n);
      var p := Split(c, a);
      SplitKidBounds(t, i, p, None, None, i);
      SplitKidBounds(t, i, p, None, None, i + 1);
      InsertIntoLeafOf(d, s.tree, key, val, s.alloc, s.index);
      var x, y := if s.index == i then r.tree else p.left, if s.index == i then p.right else r.tree;
      HalfReplaced(t, i, p, s.index, r.tree);
      TwoLeavesThere(t, i, x, y, WithKid(s.tree, s.index, r.tree));
    } else {
      BelowFirstKid(d, t, key);
      LeafGoesToFreePage(d, c, key, val, f, n);
      KidCut(t, i);
      WithKidCut(t, i, r.tree);
      LinksIntoAmong(LeavesOf(t.kids[..i]), Leaves(c), FindLeaf(c, key), Leaves(r.tree), LeavesOf(t.kids[i + 1..]),
                     f.id, f.next);
    }
  }

  lemma BelowFirstKid(d: int, t: Tree, key: int)
    requires Shaped(t) && KidsBalanced(t) && !IsLeaf(t)
    ensures var c := t.kids[ChildIndex(t.keys, key)];
            Shaped(c) && KidsBalanced(c) && Depth(c) < Depth(t)
  {
    assert t.kids[ChildIndex(t.keys, key)] in t.kids;
  }

  lemma HalfReplaced(t: Tree, i: nat, p: SplitResult, k: nat, c: Tree)
    requires i < |t.kids| && i <= |t.keys| && (k == i || k == i + 1)
    ensures k < |SplitKid(t, i, p).kids|
    ensures WithKid(SplitKid(t, i, p), k, c).kids
            == t.kids[..i] + [if k == i then c else p.left, if k == i then p.right else c] + t.kids[i + 1..]
  {
  }

  /** A full root leaf gets a new root first. */
  lemma RootLeafGoesToFreePage(d: int, t: Tree, key: int, val: Val, f: FreePage, n: nat)
    requires Shaped(t) && Balanced(t) && IsLeaf(t) && d >= 6 && |t.keys| == MaxKeys(d)
    ensures var g := Grow(d, t, Alloc(Some(f), n));
            && Shaped(g.tree) && KidsBalanced(g.tree)
            && var u := Insert(d, g.tree, key, val, g.alloc).tree;
               LinksInto(Leaves(t), t, Leaves(u), f.id, f.next)
  {
    hide LinksInto, Leaves, Split, InsertLeaf;
    var a := Alloc(Some(f), n);
    var g := Grow(d, t, a);
    var p := Split(t, a);
    GrowShape(d, t, a);
    HalvesOfLeaf(t, f, n);
    InsertUnfolds(d, g.tree, key, val, g.alloc);
    var i := ChildIndex(g.tree.keys, key);
    assert Descend(d, g.tree, key, g.alloc) == Step(g.tree, i, g.alloc);
    InsertIntoLeafOf(d, g.tree, key, val, g.alloc, i);
    var c := Insert(d, g.tree.kids[i], key, val, g.alloc).tree;
    var x, y := if i == 0 then c else p.left, if i == 0 then p.right else c;
    PairLeaves(x, y);
    TwoForTheLeaf(t, x, y);
    assert WithKid(g.tree, i, c).kids == [x, y];
    LeavesBelowNode(WithKid(g.tree, i, c));
  }

  lemma LeavesBelowNode(t: Tree)
    requires !IsLeaf(t)
    ensures Leaves(t) == LeavesOf(t.kids)
  {
  }

  lemma TwoForTheLeaf(t: Tree, x: Tree, y: Tree)
    requires IsLeaf(t) && IsLeaf(x) && IsLeaf(y) && x.id == t.id && x.next == Some(y.id)
    ensures LinksInto(Leaves(t), t, Leaves(x) + Leaves(y), y.id, y.next)
  {
    LinksIntoSome([t], 0, t, x, y);
    assert [t][..0] + [x, y] + [t][1..] == [x, y];
  }

  /** The leaves after an insertion that splits a leaf into the free page, from the root. */
  lemma SplitLeafLinks(d: int, s: State, key: int, val: Val)
    requires Inv(d, s) && DegreeAccepted(d) && d >= 6 && SplitsLeafIntoFree(d, s, key)
    ensures var t, f := s.root.value, s.alloc.free.value;
            var u := InsertInto(d, s, key, val).state.root;
            u.Some? && LinksInto(Leaves(t), FindLeaf(t, key), Leaves(u.value), f.id, f.next)
  {
    hide LinksInto, Leaves, Insert;
    var t, f, n := s.root.value, s.alloc.free.value, s.alloc.pages;
    if IsLeaf(t) {
      RootLeafGoesToFreePage(d, t, key, val, f, n);
      GrowShape(d, t, s.alloc);
    } else {
      BalancedKids(t);
      LeafGoesToFreePage(d, t, key, val, f, n);
    }
  }

  // -------- the links of all pages --------

  /** A page of the tree has this link. */
  ghost predicate HasLink(t: Tree, x: int, n: Option<int>) {
    (t.id == x && t.next == n) || exists c :: c in t.kids && HasLink(c, x, n)
  }

  /** Every page of t but l has its link in u as well. */
  ghost predicate KeepsLinks(t: Tree, u: Tree, l: int) {
    forall x, n :: HasLink(t, x, n) && x != l ==> HasLink(u, x, n)
  }

  lemma KeepsByKids(t: Tree, u: Tree, l: int)
    requires t.id == u.id && t.next == u.next
    requires forall c {:trigger c in t.kids} :: c in t.kids ==> exists e :: e in u.kids && KeepsLinks(c, e, l)
    ensures KeepsLinks(t, u, l)
  {
    forall x, n | HasLink(t, x, n) && x != l ensures HasLink(u, x, n) {
      if !(t.id == x && t.next == n) {
        var c :| c in t.kids && HasLink(c, x, n);
        var e :| e in u.kids && KeepsLinks(c, e, l);
      }
    }
  }

  lemma WithKidKeeps(t: Tree, i: nat, c: Tree, l: int)
    requires i < |t.kids| && KeepsLinks(t.kids[i], c, l)
    ensures KeepsLinks(t, WithKid(t, i, c), l)
  {
    var u := WithKid(t, i, c);
    assert u.kids[i] == c;
    forall e | e in t.kids ensures exists k :: k in u.kids && KeepsLinks(e, k, l) {
      var j :| 0 <= j < |t.kids| && t.kids[j] == e;
      assert u.kids[j] in u.kids && KeepsLinks(e, u.kids[j], l);
    }
    KeepsByKids(t, u, l);
  }

  lemma LeafKeeps(t: Tree, u: Tree)
    requires IsLeaf(t)
    ensures KeepsLinks(t, u, t.id)
  {
  }

  lemma SplitKidKeeps(t: Tree, i: nat, p: SplitResult)
    requires i < |t.kids| && i <= |t.keys| && IsLeaf(t.kids[i])
    ensures KeepsLinks(t, SplitKid(t, i, p), t.kids[i].id)
  {
    var u := SplitKid(t, i, p);
    assert u.kids[i] == p.left;
    forall e | e in t.kids ensures exists k :: k in u.kids && KeepsLinks(e, k, t.kids[i].id) {
      var j :| 0 <= j < |t.kids| && t.kids[j] == e;
      if j == i {
        LeafKeeps(e, p.left);
        assert p.left in u.kids;
      } else {
        assert e in t.kids[..i] || e in t.kids[i + 1..];
        assert e in u.kids;
      }
    }
    KeepsByKids(t, u, t.kids[i].id);
  }

  lemma KeepsThrough(t: Tree, u: Tree, v: Tree, l: int)
    requires KeepsLinks(t, u, l) && KeepsLinks(u, v, l)
    ensures KeepsLinks(t, v, l)
  {
  }

  lemma SameLinkKeeps(t: Tree, u: Tree, l: int)
    requires IsLeaf(t) && u.id == t.id && u.next == t.next
    ensures KeepsLinks(t, u, l)
  {
  }

  lemma {:induction false} InsertionKeepsLinks(d: int, t: Tree, key: int, val: Val, f: FreePage, n: nat)
    requires Shaped(t) && KidsBalanced(t) && !IsLeaf(t) && d >= 4 && OnlyLeafIsFull(d, t, key)
    ensures KeepsLinks(t, Insert(d, t, key, val, Alloc(Some(f), n)).tree, FindLeaf(t, key).id)
    decreases Depth(t)
  {
    hide KeepsLinks, Split, SplitKid, InsertLeaf;
    var a, l := Alloc(Some(f), n), FindLeaf(t, key).id;
    var i := ChildIndex(t.keys, key);
    var c := t.kids[i];
    assert c in t.kids;
    InsertUnfolds(d, t, key, val, a);
    var s := Descend(d, t, key, a);
    var r := Insert(d, s.tree.kids[s.index], key, val, s.alloc);
    if IsLeaf(c) {
      HalvesOfLeaf(c, f, n);
      var p := Split(c, a);
      SplitKidBounds(t, i, p, None, None, i);
      SplitKidBounds(t, i, p, None, None, i + 1);
      InsertIntoLeafOf(d, s.tree, key, val, s.alloc, s.index);
      SplitKidKeeps(t, i, p);
      assert FindLeaf(c, key) == c && s.tree == SplitKid(t, i, p);
      SameLinkKeeps(s.tree.kids[s.index], r.tree, l);
      WithKidKeeps(s.tree, s.index, r.tree, l);
      KeepsThrough(t, s.tree, WithKid(s.tree, s.index, r.tree), l);
    } else {
      BelowFirstKid(d, t, key);
      InsertionKeepsLinks(d, c, key, val, f, n);
      WithKidKeeps(t, i, r.tree, l);
    }
  }

  lemma {:induction false} StoredLink(p: map<int, PageImage>, t: Tree, x: int)
    requires Stored(p, t) && x in Bag(t)
    ensures x in p && HasLink(t, x, p[x].nextLeaf)
    decreases t, 1
  {
    if x != t.id {
      var c := StoredLinkBelow(p, t.kids, x);
    }
  }

  lemma {:induction false} StoredLinkBelow(p: map<int, PageImage>, ts: seq<Tree>, x: int) returns (c: Tree)
    requires (forall c {:trigger c in ts} :: c in ts ==> Stored(p, c)) && x in BagOf(ts)
    ensures x in p && c in ts && HasLink(c, x, p[x].nextLeaf)
    decreases ts, 0
  {
    c := ts[0];
    assert c in ts;
    if x in Bag(c) {
      StoredLink(p, c, x);
    } else {
      forall e | e in ts[1..] ensures Stored(p, e) { assert e in ts; }
      c := StoredLinkBelow(p, ts[1..], x);
    }
  }

  lemma {:induction false} LinkIsStored(p: map<int, PageImage>, t: Tree, x: int, n: Option<int>)
    requires Stored(p, t) && HasLink(t, x, n)
    ensures x in p && p[x].nextLeaf == n
  {
    if !(t.id == x && t.next == n) {
      var c :| c in t.kids && HasLink(c, x, n);
      LinkIsStored(p, c, x, n);
    }
  }

  /** Page l links to page f now, and no other page has a new link. */
  ghost predicate OneNewLink(p: map<int, PageImage>, q: map<int, PageImage>, l: int, f: int) {
    && l in p && l in q && f in p && f != l && q[l].nextLeaf == Some(f)
    && forall x :: x in p && x != l ==> x in q && q[x].nextLeaf == p[x].nextLeaf
  }

  lemma {:induction false} LeafHasLink(t: Tree, i: nat)
    requires i < |Leaves(t)|
    ensures HasLink(t, Leaves(t)[i].id, Leaves(t)[i].next) && Leaves(t)[i].id in Bag(t)
    decreases t, 1
  {
    if !IsLeaf(t) { var c := LeafHasLinkBelow(t.kids, i); }
  }

  lemma {:induction false} LeafHasLinkBelow(ts: seq<Tree>, i: nat) returns (c: Tree)
    requires i < |LeavesOf(ts)|
    ensures c in ts && HasLink(c, LeavesOf(ts)[i].id, LeavesOf(ts)[i].next) && LeavesOf(ts)[i].id in BagOf(ts)
    decreases ts, 0
  {
    c := ts[0];
    assert c in ts;
    if i < |Leaves(c)| {
      LeafHasLink(c, i);
    } else {
      c := LeafHasLinkBelow(ts[1..], i - |Leaves(c)|);
    }
  }

  /** From the trees to the pages they lie in. */
  lemma PagesLinked(p: map<int, PageImage>, q: map<int, PageImage>, t: Tree, u: Tree, l: Tree, f: FreePage)
    requires Stored(p, t) && Stored(q, u) && SameExcept(p, q, Bag(t) + multiset{f.id})
    requires f.id in p && p[f.id].nextLeaf == f.next && f.id !in Bag(t)
    requires KeepsLinks(t, u, l.id) && LinksInto(Leaves(t), l, Leaves(u), f.id, f.next)
    ensures OneNewLink(p, q, l.id, f.id)
  {
    var was, now := Leaves(t), Leaves(u);
    var m: nat, x: Tree, y: Tree :| m < |was| && was[m] == l && now == was[..m] + [x, y] + was[m + 1..]
                                    && x.id == l.id && x.next == Some(f.id) && y.id == f.id && y.next == f.next;
    assert now[m] == x && now[m + 1] == y;
    hide Leaves, Stored, HasLink, LinksInto, Bag;
    LeafHasLink(t, m);
    StoredLink(p, t, l.id);
    LeafHasLink(u, m);
    LeafHasLink(u, m + 1);
    LinkIsStored(q, u, l.id, Some(f.id));
    LinkIsStored(q, u, f.id, f.next);
    forall z | z in p && z != l.id ensures z in q && q[z].nextLeaf == p[z].nextLeaf {
      if z in Bag(t) {
        StoredLink(p, t, z);
        LinkIsStored(q, u, z, p[z].nextLeaf);
      }
    }
  }

  lemma InsertIntoKeepsLinks(d: int, s: State, key: int, val: Val)
    requires Inv(d, s) && DegreeAccepted(d) && d >= 6 && SplitsLeafIntoFree(d, s, key)
    ensures var t, u := s.root.value, InsertInto(d, s, key, val).state.root;
            u.Some? && KeepsLinks(t, u.value, FindLeaf(t, key).id)
  {
    hide KeepsLinks, Insert, Grow;
    var t := s.root.value;
    InsertIntoIs(d, s, key, val);
    if IsLeaf(t) {
      LeafKeeps(t, InsertInto(d, s, key, val).state.root.value);
    } else {
      BalancedKids(t);
      InsertionKeepsLinks(d, t, key, val, s.alloc.free.value, s.alloc.pages);
    }
  }

  // -------- following the links --------

  /** Where n links lead; a link to no page leads no further. */
  ghost function Follow(p: map<int, PageImage>, x: Option<int>, n: nat): Option<int>
    decreases n
  {
    if n == 0 || x == None || x.value !in p then x else Follow(p, p[x.value].nextLeaf, n - 1)
  }

  /** Following the links comes to an end. */
  ghost predicate Ends(p: map<int, PageImage>, x: Option<int>) {
    exists n: nat :: Follow(p, x, n) == None
  }

  /** Page l is met within n links. */
  ghost predicate Meets(p: map<int, PageImage>, x: Option<int>, l: int, n: nat) {
    exists k: nat :: k < n && Follow(p, x, k) == Some(l)
  }

  /** Following the links comes to an end, and never to page l. */
  ghost predicate EndsWithout(p: map<int, PageImage>, x: Option<int>, l: int) {
    exists n: nat :: Follow(p, x, n) == None && !Meets(p, x, l, n)
  }

  /** Only pages that were handed out are met. */
  ghost predicate Leads(p: map<int, PageImage>, x: Option<int>) {
    forall n: nat :: Follow(p, x, n).Some? ==> Follow(p, x, n).value in p
  }

  lemma {:induction false} FollowOn(p: map<int, PageImage>, x: Option<int>, i: nat, n: nat)
    ensures Follow(p, x, i + n) == Follow(p, Follow(p, x, i), n)
    decreases i
  {
    if i == 0 {
    } else if x == None || x.value !in p {
      Stays(p, x, n);
    } else {
      FollowOn(p, p[x.value].nextLeaf, i - 1, n);
    }
  }

  lemma Stays(p: map<int, PageImage>, x: Option<int>, n: nat)
    requires x == None || x.value !in p
    ensures Follow(p, x, n) == x
  {
  }

  lemma OneStep(p: map<int, PageImage>, x: int)
    requires x in p
    ensures forall n: nat :: Follow(p, Some(x), n + 1) == Follow(p, p[x].nextLeaf, n)
  {
  }

  /** As long as page l is not met, the same pages are met before and after. */
  lemma {:induction false} SameWay(p: map<int, PageImage>, q: map<int, PageImage>, l: int, f: int, x: Option<int>,
                                   n: nat)
    requires OneNewLink(p, q, l, f) && Leads(p, x)
    requires !Meets(p, x, l, n) || !Meets(q, x, l, n)
    ensures Follow(q, x, n) == Follow(p, x, n) && !Meets(p, x, l, n) && !Meets(q, x, l, n)
    decreases n
  {
    if x == None {
      NoneMeetsNothing(p, l, n);
      NoneMeetsNothing(q, l, n);
    } else if n > 0 {
      LeadsOn(p, x);
      MeetsLater(p, x.value, l, n);
      MeetsLater(q, x.value, l, n);
      SameWay(p, q, l, f, p[x.value].nextLeaf, n - 1);
    }
  }

  lemma LeadsOn(p: map<int, PageImage>, x: Option<int>)
    requires Leads(p, x) && x.Some?
    ensures x.value in p && Leads(p, p[x.value].nextLeaf)
  {
    assert Follow(p, x, 0) == x;
    forall n: nat | Follow(p, p[x.value].nextLeaf, n).Some? ensures Follow(p, p[x.value].nextLeaf, n).value in p {
      assert Follow(p, x, n + 1) == Follow(p, p[x.value].nextLeaf, n);
    }
  }

  lemma NoneMeetsNothing(p: map<int, PageImage>, l: int, n: nat)
    ensures Follow(p, None, n) == None && !Meets(p, None, l, n)
  {
  }

  lemma MeetsLater(p: map<int, PageImage>, x: int, l: int, n: nat)
    requires x in p && n > 0
    ensures Meets(p, Some(x), l, n) <==> x == l || Meets(p, p[x].nextLeaf, l, n - 1)
    ensures Follow(p, Some(x), n) == Follow(p, p[x].nextLeaf, n - 1)
  {
    OneStep(p, x);
    assert Follow(p, Some(x), 0) == Some(x);
    if Meets(p, Some(x), l, n) && x != l {
      var k: nat :| k < n && Follow(p, Some(x), k) == Some(l);
      assert Follow(p, p[x].nextLeaf, k - 1) == Some(l);
    }
    if Meets(p, p[x].nextLeaf, l, n - 1) {
      var k: nat :| k < n - 1 && Follow(p, p[x].nextLeaf, k) == Some(l);
      assert Follow(p, Some(x), k + 1) == Some(l);
    }
  }

  lemma OnceEnded(p: map<int, PageImage>, x: Option<int>, n: nat, m: nat)
    requires n <= m
    ensures Follow(p, x, n) == None ==> Follow(p, x, m) == None
  {
    FollowOn(p, x, n, m - n);
    Stays(p, None, m - n);
  }

  /** A way that comes back to where it started has no end. */
  lemma {:induction false} NoEndOfCircle(p: map<int, PageImage>, x: Option<int>, c: nat, n: nat)
    requires c > 0 && x.Some? && Follow(p, x, c) == x
    ensures Follow(p, x, n) != None
    decreases n
  {
    if n < c {
      OnceEnded(p, x, n, c);
    } else {
      FollowOn(p, x, c, n - c);
      NoEndOfCircle(p, x, c, n - c);
    }
  }

  /** After the new link the way goes on to page f and from there along the link page f had. It ends if and
      only if that link led to an end without meeting the page that now links to f. */
  lemma EndsExactlyWhen(p: map<int, PageImage>, q: map<int, PageImage>, l: int, f: int)
    requires OneNewLink(p, q, l, f) && Leads(p, p[f].nextLeaf)
    ensures Follow(q, Some(l), 1) == Some(f)
    ensures forall n: nat :: Follow(q, Some(l), n + 2) == Follow(q, p[f].nextLeaf, n)
    ensures Ends(q, Some(l)) <==> EndsWithout(p, p[f].nextLeaf, l)
  {
    var link := p[f].nextLeaf;
    OneStep(q, l);
    OneStep(q, f);
    assert Follow(q, Some(l), 1) == Follow(q, Some(f), 0);
    forall n: nat ensures Follow(q, Some(l), n + 2) == Follow(q, link, n) {
      assert Follow(q, Some(l), (n + 1) + 1) == Follow(q, Some(f), n + 1);
    }
    if EndsWithout(p, link, l) {
      var n: nat :| Follow(p, link, n) == None && !Meets(p, link, l, n);
      SameWay(p, q, l, f, link, n);
      assert Follow(q, Some(l), n + 2) == None;
    }
    if Ends(q, Some(l)) {
      var n: nat :| Follow(q, Some(l), n) == None;
      if Meets(q, link, l, n) {
        var k: nat :| k < n && Follow(q, link, k) == Some(l);
        assert Follow(q, Some(l), k + 2) == Some(l);
        NoEndOfCircle(q, Some(l), k + 2, n);
      } else {
        SameWay(p, q, l, f, link, n);
        OnceEnded(q, Some(l), n, n + 2);
        assert Follow(q, link, n) == None;
      }
    }
  }

  // -------- the leaf chain --------

  /** The tree lies in the pages and its leaves are linked from left to right. */
  ghost predicate LeavesLinked(p: map<int, PageImage>, t: Tree) {
    Shaped(t) && Stored(p, t) && Distinct(t) && Chained(Leaves(t), None)
  }

  lemma LeafLink(p: map<int, PageImage>, t: Tree, j: nat)
    requires LeavesLinked(p, t) && j < |Leaves(t)|
    ensures var ls := Leaves(t);
            ls[j].id in p && p[ls[j].id].nextLeaf == if j + 1 < |ls| then Some(ls[j + 1].id) else None
  {
    LeavesStored(p, t, j);
    hide Leaves, Stored, Shaped, Distinct;
  }

  lemma LinkedApart(p: map<int, PageImage>, t: Tree, i: nat, j: nat)
    requires LeavesLinked(p, t) && i < |Leaves(t)| && j < |Leaves(t)| && Leaves(t)[i].id == Leaves(t)[j].id
    ensures i == j
  {
    hide Leaves, Stored, Shaped, Distinct, Chained;
    if i < j {
      LeavesApart(t, i, j);
    } else if j < i {
      LeavesApart(t, j, i);
    }
  }

  /** The links of a stored tree lead from leaf to leaf. */
  lemma {:induction false} LeafWay(p: map<int, PageImage>, t: Tree, j: nat, i: nat)
    requires LeavesLinked(p, t) && j < |Leaves(t)| && j + i <= |Leaves(t)|
    ensures Follow(p, Some(Leaves(t)[j].id), i)
         == if j + i < |Leaves(t)| then Some(Leaves(t)[j + i].id) else None
    decreases i
  {
    hide LeavesLinked, Leaves;
    if i > 0 {
      var x := Leaves(t)[j].id;
      LeafLink(p, t, j);
      OneStep(p, x);
      assert Follow(p, Some(x), (i - 1) + 1) == Follow(p, p[x].nextLeaf, i - 1);
      if j + 1 < |Leaves(t)| { LeafWay(p, t, j + 1, i - 1); }
    }
  }

  /** A leaf is met on the way from another exactly when it lies behind it. */
  lemma LeafMeets(p: map<int, PageImage>, t: Tree, j: nat, m: nat, n: nat)
    requires LeavesLinked(p, t)
    requires j < |Leaves(t)| && m < |Leaves(t)| && j + n <= |Leaves(t)|
    ensures Meets(p, Some(Leaves(t)[j].id), Leaves(t)[m].id, n) <==> j <= m < j + n
  {
    hide LeavesLinked, Leaves, Follow;
    var ls := Leaves(t);
    if j <= m < j + n { LeafWay(p, t, j, m - j); }
    if Meets(p, Some(ls[j].id), ls[m].id, n) {
      var k: nat :| k < n && Follow(p, Some(ls[j].id), k) == Some(ls[m].id);
      LeafWay(p, t, j, k);
      LinkedApart(p, t, j + k, m);
    }
  }

  /** Where the chain leads after a leaf was linked to page f, and from which leaves it ends. */
  lemma ChainAfterwards(p: map<int, PageImage>, q: map<int, PageImage>, t: Tree, m: nat, f: int)
    requires LeavesLinked(p, t) && m < |Leaves(t)|
    requires OneNewLink(p, q, Leaves(t)[m].id, f) && Leads(p, p[f].nextLeaf)
    ensures var ls := Leaves(t);
            var first := Some(ls[0].id);
            && (forall i: nat :: i <= m ==> Follow(q, first, i) == Some(ls[i].id))
            && Follow(q, first, m + 1) == Some(f)
            && (forall n: nat :: Follow(q, first, m + 2 + n) == Follow(q, p[f].nextLeaf, n))
    ensures forall k: nat :: k < |Leaves(t)| ==>
              (Ends(q, Some(Leaves(t)[k].id)) <==> k > m || EndsWithout(p, p[f].nextLeaf, Leaves(t)[m].id))
  {
    hide Follow, Ends, EndsWithout, Leaves, LeavesLinked, Leads;
    var first, l := Some(Leaves(t)[0].id), Leaves(t)[m].id;
    EndsExactlyWhen(p, q, l, f);
    FirstLeaves(p, q, t, m, f);
    FollowOn(q, first, m, 1);
    LaterOn(q, first, m, l, p[f].nextLeaf);
    FromLeaves(p, q, t, m, f);
  }

  lemma FirstLeaves(p: map<int, PageImage>, q: map<int, PageImage>, t: Tree, m: nat, f: int)
    requires LeavesLinked(p, t) && m < |Leaves(t)| && OneNewLink(p, q, Leaves(t)[m].id, f)
    ensures forall i: nat :: i <= m ==> Follow(q, Some(Leaves(t)[0].id), i) == Some(Leaves(t)[i].id)
  {
    hide *;
    forall i: nat | i <= m ensures Follow(q, Some(Leaves(t)[0].id), i) == Some(Leaves(t)[i].id) {
      WayTo(p, q, t, m, f, 0, i);
    }
  }

  lemma FromLeaves(p: map<int, PageImage>, q: map<int, PageImage>, t: Tree, m: nat, f: int)
    requires LeavesLinked(p, t) && m < |Leaves(t)| && OneNewLink(p, q, Leaves(t)[m].id, f)
    ensures forall k: nat :: k < |Leaves(t)| ==>
              (Ends(q, Some(Leaves(t)[k].id)) <==> k > m || Ends(q, Some(Leaves(t)[m].id)))
  {
    hide *;
    forall k: nat | k < |Leaves(t)|
      ensures Ends(q, Some(Leaves(t)[k].id)) <==> k > m || Ends(q, Some(Leaves(t)[m].id))
    {
      FromLeaf(p, q, t, m, f, k);
    }
  }

  lemma LaterOn(q: map<int, PageImage>, first: Option<int>, m: nat, l: int, link: Option<int>)
    requires Follow(q, first, m) == Some(l) && forall n: nat :: Follow(q, Some(l), n + 2) == Follow(q, link, n)
    ensures forall n: nat :: Follow(q, first, m + 2 + n) == Follow(q, link, n)
  {
    hide Follow;
    forall n: nat ensures Follow(q, first, m + 2 + n) == Follow(q, link, n) { FollowOn(q, first, m, n + 2); }
  }

  lemma FromLeaf(p: map<int, PageImage>, q: map<int, PageImage>, t: Tree, m: nat, f: int, k: nat)
    requires LeavesLinked(p, t) && m < |Leaves(t)| && OneNewLink(p, q, Leaves(t)[m].id, f)
    requires k < |Leaves(t)|
    ensures Ends(q, Some(Leaves(t)[k].id)) <==> k > m || Ends(q, Some(Leaves(t)[m].id))
  {
    hide *;
    var x, i := Some(Leaves(t)[k].id), if k > m then |Leaves(t)| - k else m - k;
    WayTo(p, q, t, m, f, k, i);
    EndsAfter(q, x, i);
  }

  lemma EndsAfter(p: map<int, PageImage>, x: Option<int>, i: nat)
    ensures Ends(p, x) <==> Ends(p, Follow(p, x, i))
    ensures Follow(p, x, i) == None ==> Ends(p, x)
  {
    if Ends(p, x) {
      var n: nat :| Follow(p, x, n) == None;
      OnceEnded(p, x, n, n + i);
      FollowOn(p, x, i, n);
    }
    if Ends(p, Follow(p, x, i)) {
      var n: nat :| Follow(p, Follow(p, x, i), n) == None;
      FollowOn(p, x, i, n);
    }
  }

  lemma LeafLeads(p: map<int, PageImage>, t: Tree, j: nat)
    requires LeavesLinked(p, t) && j < |Leaves(t)|
    ensures Leads(p, Some(Leaves(t)[j].id))
  {
    hide LeavesLinked, Leaves, Follow;
    var x, rest := Some(Leaves(t)[j].id), |Leaves(t)| - j;
    LeafWay(p, t, j, rest);
    forall n: nat | Follow(p, x, n).Some? ensures Follow(p, x, n).value in p {
      if n < rest {
        LeafWay(p, t, j, n);
        LeafLink(p, t, j + n);
      } else {
        OnceEnded(p, x, rest, n);
      }
    }
  }

  /** The way from leaf j on, as long as leaf m is not left. */
  lemma WayTo(p: map<int, PageImage>, q: map<int, PageImage>, t: Tree, m: nat, f: int, j: nat, i: nat)
    requires LeavesLinked(p, t) && m < |Leaves(t)|
    requires OneNewLink(p, q, Leaves(t)[m].id, f) && j < |Leaves(t)| && j + i <= |Leaves(t)| && (j <= m ==> j + i <= m)
    ensures Follow(q, Some(Leaves(t)[j].id), i)
         == if j + i < |Leaves(t)| then Some(Leaves(t)[j + i].id) else None
  {
    LeafWay(p, t, j, i);
    LeafMeets(p, t, j, m, i);
    LeafLeads(p, t, j);
    SameWay(p, q, Leaves(t)[m].id, f, Some(Leaves(t)[j].id), i);
  }

  lemma MetBefore(p: map<int, PageImage>, x: Option<int>, l: int, k: nat, n: nat)
    requires Follow(p, x, k) == Some(l) && Follow(p, x, n) == None
    ensures Meets(p, x, l, n)
  {
    if n <= k { OnceEnded(p, x, n, k); }
  }

  /** A link to leaf j ends without leaf m exactly when j lies behind m. */
  lemma EndsBehind(p: map<int, PageImage>, t: Tree, j: nat, m: nat)
    requires LeavesLinked(p, t) && j < |Leaves(t)| && m < |Leaves(t)|
    ensures EndsWithout(p, Some(Leaves(t)[j].id), Leaves(t)[m].id) <==> m < j
  {
    var ls := Leaves(t);
    var x, l := Some(ls[j].id), ls[m].id;
    hide Follow, Leaves, LeavesLinked;
    LeafWay(p, t, j, |ls| - j);
    LeafMeets(p, t, j, m, |ls| - j);
    if EndsWithout(p, x, l) {
      var n: nat :| Follow(p, x, n) == None && !Meets(p, x, l, n);
      if j <= m {
        LeafWay(p, t, j, m - j);
        MetBefore(p, x, l, m - j, n);
      }
    }
  }
}
