/** Deletion: repair the child that already lacks keys, then descend. */
module BTreeDelete {
  import opened Wrappers
  import opened Entries
  import opened BTree
  import opened BTreeSplit
  import opened BTreeInsert

  // -------- the four ways to repair a child --------

  function Last<T>(s: seq<T>): T
    requires s != []
  {
    s[|s| - 1]
  }

  function Front<T>(s: seq<T>): seq<T>
    requires s != []
  {
    s[..|s| - 1]
  }

  /** Two children after a key has moved between them, with the new separator. */
  datatype Pair = Pair(left: Tree, key: int, right: Tree)

  /** The left sibling gives its last key. */
  function LendRight(l: Tree, key: int, r: Tree): Pair
    requires l.keys != [] && (if IsLeaf(r) then l.vals != [] else l.kids != [])
  {
    if IsLeaf(r) then
      Pair(l.(keys := Front(l.keys), vals := Front(l.vals)), Last(l.keys),
           r.(keys := [Last(l.keys)] + r.keys, vals := [Last(l.vals)] + r.vals))
    else
      Pair(l.(keys := Front(l.keys), kids := Front(l.kids)), Last(l.keys),
           r.(keys := [key] + r.keys, kids := [Last(l.kids)] + r.kids))
  }

  /** The right sibling gives its first key. */
  function LendLeft(l: Tree, key: int, r: Tree): Pair
    requires |r.keys| > 1 && (if IsLeaf(l) then r.vals != [] else r.kids != [])
  {
    if IsLeaf(l) then
      Pair(l.(keys := l.keys + [r.keys[0]], vals := l.vals + [r.vals[0]]), r.keys[1],
           r.(keys := r.keys[1..], vals := r.vals[1..]))
    else
      Pair(l.(keys := l.keys + [key], kids := l.kids + [r.kids[0]]), r.keys[0],
           r.(keys := r.keys[1..], kids := r.kids[1..]))
  }

  function WithPair(t: Tree, j: nat, p: Pair): Tree
    requires j < |t.keys| && j + 1 < |t.kids|
  {
    t.(keys := t.keys[j := p.key], kids := t.kids[j := p.left][j + 1 := p.right])
  }

  /** Children j and j+1 become one page; the right one is released. */
  function MergeAt(t: Tree, j: nat): Tree
    requires j < |t.keys| && j + 1 < |t.kids|
  {
    t.(keys := t.keys[..j] + t.keys[j + 1..],
       kids := t.kids[..j] + [Join(t.kids[j], t.keys[j], t.kids[j + 1])] + t.kids[j + 2..])
  }

  datatype Repaired = Repaired(tree: Tree, index: nat, freed: seq<FreePage>)

  function Released(t: Tree): FreePage { FreePage(t.id, t.next) }

  /** Bring child i to the minimum before descending into it: borrow from the left, else from
      the right, else merge with the left, else with the right. */
  function Repair(d: int, t: Tree, i: nat): Repaired
    requires Shaped(t) && Balanced(t) && d >= 4 && i < |t.kids|
  {
    if !IsLacking(d, t.kids[i]) then Repaired(t, i, [])
    else if i > 0 && CanLend(d, t.kids[i - 1]) then
      KidsAlike(t, i - 1);
      Repaired(WithPair(t, i - 1, LendRight(t.kids[i - 1], t.keys[i - 1], t.kids[i])), i, [])
    else if i + 1 < |t.kids| && CanLend(d, t.kids[i + 1]) then
      KidsAlike(t, i);
      Repaired(WithPair(t, i, LendLeft(t.kids[i], t.keys[i], t.kids[i + 1])), i, [])
    else if i > 0 then
      Repaired(MergeAt(t, i - 1), i - 1, [Released(t.kids[i])])
    else if i + 1 < |t.kids| then
      Repaired(MergeAt(t, i), i, [Released(t.kids[i + 1])])
    else
      Repaired(t, i, [])
  }

  lemma KidsAlike(t: Tree, j: nat)
    requires Shaped(t) && Balanced(t) && j + 1 < |t.kids|
    ensures Siblings(t.kids[j], t.kids[j + 1])
    ensures IsLeaf(t.kids[j]) <==> IsLeaf(t.kids[j + 1])
    ensures Depth(t.kids[j]) == Depth(t) - 1
  {
    assert t.kids[j] in t.kids && t.kids[j + 1] in t.kids;
  }

  /** Which repair is taken, case by case. */
  lemma RepairIs(d: int, t: Tree, i: nat)
    requires Shaped(t) && Balanced(t) && d >= 4 && i < |t.kids|
    ensures |t.kids| == |t.keys| + 1
    ensures i > 0 ==> Siblings(t.kids[i - 1], t.kids[i])
    ensures i + 1 < |t.kids| ==> Siblings(t.kids[i], t.kids[i + 1])
    ensures !IsLacking(d, t.kids[i]) ==> Repair(d, t, i) == Repaired(t, i, [])
    ensures IsLacking(d, t.kids[i]) ==>
              Repair(d, t, i) ==
              if i > 0 && CanLend(d, t.kids[i - 1]) then
                Repaired(WithPair(t, i - 1, LendRight(t.kids[i - 1], t.keys[i - 1], t.kids[i])), i, [])
              else if i + 1 < |t.kids| && CanLend(d, t.kids[i + 1]) then
                Repaired(WithPair(t, i, LendLeft(t.kids[i], t.keys[i], t.kids[i + 1])), i, [])
              else if i > 0 then Repaired(MergeAt(t, i - 1), i - 1, [Released(t.kids[i])])
              else if i + 1 < |t.kids| then Repaired(MergeAt(t, i), i, [Released(t.kids[i + 1])])
              else Repaired(t, i, [])
  {
    if i > 0 { KidsAlike(t, i - 1); }
    if i + 1 < |t.kids| { KidsAlike(t, i); }
  }

  /** Children beside the two that a repair touches. */
  ghost predicate OthersStay(t: Tree, u: Tree, j: nat) {
    |u.kids| == |t.kids| && forall k :: 0 <= k < |t.kids| && k != j && k != j + 1 ==> u.kids[k] == t.kids[k]
  }

  /** Children j and j+1 have become one, in the page of the first. */
  ghost predicate OneForTwo(t: Tree, u: Tree, j: nat) {
    && j + 1 < |t.kids| && |u.kids| == |t.kids| - 1 && u.kids[..j] == t.kids[..j] && u.kids[j + 1..] == t.kids[j + 2..]
    && u.kids[j].id == t.kids[j].id
  }

  /** Which neighbours a repair touches, by the number of keys: a child of d / 2 - 1 keys is left alone. Otherwise a
      left neighbour with more than that gives a key, or else such a right neighbour. Where neither has
      one to spare the left neighbour takes the child in, or, for a first child, the child its right neighbour. */
  lemma RepairTouches(d: int, t: Tree, i: nat)
    requires Shaped(t) && Balanced(t) && d >= 4 && i < |t.kids|
    ensures var r, min := Repair(d, t, i), d / 2 - 1;
            var mine := |t.kids[i].keys|;
            var left := if i > 0 then |t.kids[i - 1].keys| else 0;
            var right := if i + 1 < |t.kids| then |t.kids[i + 1].keys| else 0;
            && (mine >= min ==> r.tree == t && r.index == i && r.freed == [])
            && (mine < min && left > min ==>
                  && r.index == i && r.freed == [] && OthersStay(t, r.tree, i - 1)
                  && |r.tree.kids[i - 1].keys| == left - 1 && |r.tree.kids[i].keys| == mine + 1)
            && (mine < min && left <= min && right > min ==>
                  && r.index == i && r.freed == [] && OthersStay(t, r.tree, i)
                  && |r.tree.kids[i + 1].keys| == right - 1 && |r.tree.kids[i].keys| == mine + 1)
            && (mine < min && left <= min && right <= min && i > 0 ==>
                  && r.index == i - 1 && r.freed == [FreePage(t.kids[i].id, t.kids[i].next)]
                  && OneForTwo(t, r.tree, i - 1))
            && (mine < min && right <= min && i == 0 && |t.kids| > 1 ==>
                  && r.index == 0 && r.freed == [FreePage(t.kids[1].id, t.kids[1].next)] && OneForTwo(t, r.tree, 0))
  {
    hide LendRight, LendLeft, Join, Shaped, Balanced, Repair, Siblings;
    RepairIs(d, t, i);
    if IsLacking(d, t.kids[i]) {
      if i > 0 && CanLend(d, t.kids[i - 1]) {
        LendRightShape(t.kids[i - 1], t.keys[i - 1], t.kids[i]);
      } else if i + 1 < |t.kids| && CanLend(d, t.kids[i + 1]) {
        LendLeftShape(t.kids[i], t.keys[i], t.kids[i + 1]);
      } else if i > 0 {
        JoinKeepsId(t.kids[i - 1], t.keys[i - 1], t.kids[i]);
      } else if i + 1 < |t.kids| {
        JoinKeepsId(t.kids[i], t.keys[i], t.kids[i + 1]);
      }
    }
  }

  lemma JoinKeepsId(l: Tree, key: int, r: Tree)
    ensures Join(l, key, r).id == l.id
  {
  }

  // -------- a lent key --------

  lemma LendRightShape(l: Tree, key: int, r: Tree)
    requires Siblings(l, r) && |l.keys| > 1
    ensures var p := LendRight(l, key, r);
            Siblings(p.left, p.right) && Depth(p.left) == Depth(l)
            && p.left.id == l.id && p.right.id == r.id
            && |p.left.keys| == |l.keys| - 1 && |p.right.keys| == |r.keys| + 1
  {
    var p := LendRight(l, key, r);
    if !IsLeaf(l) {
      assert Last(l.kids) in l.kids;
      assert p.left.kids[0] == l.kids[0] && p.right.kids[0] == Last(l.kids);
      forall c | c in p.left.kids ensures c in l.kids {}
      forall c | c in p.right.kids ensures c in r.kids || c == Last(l.kids) {}
    }
  }

  lemma LendLeftShape(l: Tree, key: int, r: Tree)
    requires Siblings(l, r) && |r.keys| > 1
    ensures var p := LendLeft(l, key, r);
            Siblings(p.left, p.right) && Depth(p.left) == Depth(l)
            && p.left.id == l.id && p.right.id == r.id
            && |p.left.keys| == |l.keys| + 1 && |p.right.keys| == |r.keys| - 1
  {
    var p := LendLeft(l, key, r);
    if !IsLeaf(l) {
      assert r.kids[0] in r.kids && r.kids[1] in r.kids;
      assert p.left.kids[0] == l.kids[0] && p.right.kids[0] == r.kids[1];
      forall c | c in p.right.kids ensures c in r.kids {}
      forall c | c in p.left.kids ensures c in l.kids || c == r.kids[0] {}
    }
  }

  /** Lending only moves the separator: the joined page is the same before and after. */
  lemma LendRightJoin(l: Tree, key: int, r: Tree)
    requires Siblings(l, r) && |l.keys| > 1
    ensures var p := LendRight(l, key, r);
            Join(p.left, p.key, p.right) == Join(l, key, r)
  {
    var p := LendRight(l, key, r);
    assert Front(l.keys) + [Last(l.keys)] == l.keys;
    if IsLeaf(l) {
      assert p.left.keys + p.right.keys == l.keys + r.keys;
      assert Front(l.vals) + [Last(l.vals)] == l.vals;
      assert p.left.vals + p.right.vals == l.vals + r.vals;
    } else {
      assert p.left.keys + [p.key] + p.right.keys == l.keys + [key] + r.keys;
      assert Front(l.kids) + [Last(l.kids)] == l.kids;
      assert p.left.kids + p.right.kids == l.kids + r.kids;
    }
  }

  lemma LendLeftJoin(l: Tree, key: int, r: Tree)
    requires Siblings(l, r) && |r.keys| > 1
    ensures var p := LendLeft(l, key, r);
            Join(p.left, p.key, p.right) == Join(l, key, r)
  {
    var p := LendLeft(l, key, r);
    assert [r.keys[0]] + r.keys[1..] == r.keys;
    if IsLeaf(l) {
      assert p.left.keys + p.right.keys == l.keys + r.keys;
      assert [r.vals[0]] + r.vals[1..] == r.vals;
      assert p.left.vals + p.right.vals == l.vals + r.vals;
    } else {
      assert p.left.keys + [p.key] + p.right.keys == l.keys + [key] + r.keys;
      assert [r.kids[0]] + r.kids[1..] == r.kids;
      assert p.left.kids + p.right.kids == l.kids + r.kids;
    }
  }

  /** Two ways to cut the same joined page hold the same pairs, links and page ids. */
  lemma SameJoin(l: Tree, key: int, r: Tree, p: Pair, nxt: Option<int>)
    requires Siblings(l, r) && Siblings(p.left, p.right) && Depth(p.left) == Depth(l)
    requires Join(p.left, p.key, p.right) == Join(l, key, r)
    requires p.left.id == l.id && p.right.id == r.id && p.left.next == l.next && p.right.next == r.next
    ensures EntriesOf(Leaves(p.left) + Leaves(p.right)) == EntriesOf(Leaves(l) + Leaves(r))
    ensures Leaves(p.left)[0].id == Leaves(l)[0].id
    ensures Chained(Leaves(l) + Leaves(r), nxt) ==> Chained(Leaves(p.left) + Leaves(p.right), nxt)
    ensures Bag(p.left) + Bag(p.right) == Bag(l) + Bag(r)
  {
    if IsLeaf(l) {
      JoinedLeaf(l, r, nxt);
      JoinedLeaf(p.left, p.right, nxt);
    } else {
      JoinedNode(l, key, r);
      JoinedNode(p.left, p.key, p.right);
      assert Leaves(l) + Leaves(r) == Leaves(p.left) + Leaves(p.right);
      assert Leaves(l)[0] == (Leaves(l) + Leaves(r))[0];
      assert Leaves(p.left)[0] == (Leaves(p.left) + Leaves(p.right))[0];
    }
  }

  /** A page of internal children may be cut at any separator. */
  lemma NodeRecut(l: Tree, key: int, r: Tree, p: Pair, lo: Option<int>, hi: Option<int>)
    requires Siblings(l, r) && Siblings(p.left, p.right) && !IsLeaf(l) && !IsLeaf(p.left)
    requires JoinNodes(p.left, p.key, p.right) == JoinNodes(l, key, r)
    requires Adjacent(l, key, r, lo, hi)
    ensures Adjacent(p.left, p.key, p.right, lo, hi)
  {
    NodesMeet(l, key, r, lo, hi);
    NodesPart(p.left, p.key, p.right, lo, hi);
  }

  lemma LendRightOrdered(l: Tree, key: int, r: Tree, lo: Option<int>, hi: Option<int>)
    requires Siblings(l, r) && |l.keys| > 1 && Adjacent(l, key, r, lo, hi)
    ensures var p := LendRight(l, key, r);
            Adjacent(p.left, p.key, p.right, lo, hi) && p.key < key
  {
    var p := LendRight(l, key, r);
    if IsLeaf(l) {
      assert l.keys[0] < Last(l.keys);
      assert Under(Last(l.keys), Some(key));
    } else {
      LendRightShape(l, key, r);
      LendRightJoin(l, key, r);
      NodeRecut(l, key, r, p, lo, hi);
    }
  }

  lemma LendLeftOrdered(l: Tree, key: int, r: Tree, lo: Option<int>, hi: Option<int>)
    requires Siblings(l, r) && |r.keys| > 1 && Adjacent(l, key, r, lo, hi)
    ensures var p := LendLeft(l, key, r);
            Adjacent(p.left, p.key, p.right, lo, hi) && key < p.key
  {
    var p := LendLeft(l, key, r);
    if IsLeaf(l) {
      assert r.keys[0] < r.keys[1];
    } else {
      LendLeftShape(l, key, r);
      LendLeftJoin(l, key, r);
      NodeRecut(l, key, r, p, lo, hi);
    }
  }

  // -------- the parent of a lent key --------

  lemma PairCut(t: Tree, j: nat)
    requires j + 1 < |t.kids|
    ensures t.kids == t.kids[..j] + [t.kids[j], t.kids[j + 1]] + t.kids[j + 2..]
    ensures Leaves(t) == LeavesOf(t.kids[..j]) + (Leaves(t.kids[j]) + Leaves(t.kids[j + 1])) + LeavesOf(t.kids[j + 2..])
    ensures Bag(t) == multiset{t.id} + BagOf(t.kids[..j]) + (Bag(t.kids[j]) + Bag(t.kids[j + 1]))
            + BagOf(t.kids[j + 2..])
  {
    assert t.kids == t.kids[..j] + [t.kids[j], t.kids[j + 1]] + t.kids[j + 2..];
    LeavesCut(t.kids[..j], [t.kids[j], t.kids[j + 1]], t.kids[j + 2..]);
    PairLeaves(t.kids[j], t.kids[j + 1]);
  }

  lemma WithPairShape(t: Tree, j: nat, p: Pair)
    requires Shaped(t) && Balanced(t) && j + 1 < |t.kids|
    requires Siblings(p.left, p.right) && Depth(p.left) == Depth(t.kids[j])
    ensures var u := WithPair(t, j, p);
            Shaped(u) && Balanced(u) && Depth(u) == Depth(t)
  {
    var u := WithPair(t, j, p);
    assert t.kids[j] in t.kids && t.kids[0] in t.kids;
    assert u.kids[0] == if j == 0 then p.left else t.kids[0];
    forall c | c in u.kids ensures c in t.kids || c == p.left || c == p.right {}
  }

  lemma WithPairOrdered(t: Tree, j: nat, p: Pair, lo: Option<int>, hi: Option<int>)
    requires Ordered(t, lo, hi) && j + 1 < |t.kids|
    requires Adjacent(p.left, p.key, p.right, Lo(t.keys, lo, j), Hi(t.keys, hi, j + 1))
    ensures Ordered(WithPair(t, j, p), lo, hi)
  {
    var u := WithPair(t, j, p);
    assert KeysOrdered(u, lo, hi);
    forall i | 0 <= i < |u.kids| ensures KidOrdered(u, i, lo, hi) {
      if i != j && i != j + 1 { assert KidOrdered(t, i, lo, hi); }
    }
  }

  /** What stays the same when two neighbouring children are replaced by a list `now` of subtrees. */
  lemma PairExchange(t: Tree, j: nat, u: Tree, now: seq<Tree>, nxt: Option<int>)
    requires j + 1 < |t.kids| && u.id == t.id && now != []
    requires u.kids == t.kids[..j] + now + t.kids[j + 2..]
    requires EntriesOf(LeavesOf(now)) == EntriesOf(Leaves(t.kids[j]) + Leaves(t.kids[j + 1]))
    requires LeavesOf(now)[0].id == Leaves(t.kids[j])[0].id
    requires Chained(Leaves(t.kids[j]) + Leaves(t.kids[j + 1]), HeadId(LeavesOf(t.kids[j + 2..]), nxt))
      ==> Chained(LeavesOf(now), HeadId(LeavesOf(t.kids[j + 2..]), nxt))
    ensures Flat(u) == Flat(t)
    ensures Leaves(u)[0].id == Leaves(t)[0].id
    ensures Chained(Leaves(t), nxt) ==> Chained(Leaves(u), nxt)
    ensures Bag(u) + Bag(t.kids[j]) + Bag(t.kids[j + 1]) == Bag(t) + BagOf(now)
  {
    var pre, post := LeavesOf(t.kids[..j]), LeavesOf(t.kids[j + 2..]);
    var was := Leaves(t.kids[j]) + Leaves(t.kids[j + 1]);
    PairCut(t, j);
    LeavesCut(t.kids[..j], now, t.kids[j + 2..]);
    EntriesCut(pre, was, post);
    EntriesCut(pre, LeavesOf(now), post);
    ChainExchange(pre, was, LeavesOf(now), post, nxt);
  }

  /** Tree u holds what t holds, in the same chain, and has given up the pages `less`. */
  ghost predicate SameContent(u: Tree, t: Tree, nxt: Option<int>, less: multiset<int>) {
    && Flat(u) == Flat(t) && Leaves(u)[0].id == Leaves(t)[0].id
    && (Chained(Leaves(t), nxt) ==> Chained(Leaves(u), nxt))
    && Bag(u) + less == Bag(t)
  }

  lemma CancelPair(u: multiset<int>, t: multiset<int>, l: multiset<int>, r: multiset<int>)
    requires u + l + r == t + (l + r)
    ensures u + multiset{} == t
  {
    assert (u + l + r) - (l + r) == u && (t + (l + r)) - (l + r) == t;
  }

  lemma WithPairLeaves(t: Tree, j: nat, p: Pair, nxt: Option<int>)
    requires j + 1 < |t.kids| && j < |t.keys|
    requires EntriesOf(Leaves(p.left) + Leaves(p.right)) == EntriesOf(Leaves(t.kids[j]) + Leaves(t.kids[j + 1]))
    requires Leaves(p.left)[0].id == Leaves(t.kids[j])[0].id
    requires Chained(Leaves(t.kids[j]) + Leaves(t.kids[j + 1]), HeadId(LeavesOf(t.kids[j + 2..]), nxt))
      ==> Chained(Leaves(p.left) + Leaves(p.right), HeadId(LeavesOf(t.kids[j + 2..]), nxt))
    requires Bag(p.left) + Bag(p.right) == Bag(t.kids[j]) + Bag(t.kids[j + 1])
    ensures SameContent(WithPair(t, j, p), t, nxt, multiset{})
  {
    hide Leaves, EntriesOf, Bag;
    var u := WithPair(t, j, p);
    assert u.kids == t.kids[..j] + [p.left, p.right] + t.kids[j + 2..];
    PairLeaves(p.left, p.right);
    PairExchange(t, j, u, [p.left, p.right], nxt);
    CancelPair(Bag(u), Bag(t), Bag(t.kids[j]), Bag(t.kids[j + 1]));
  }

  lemma WithPairFilled(d: int, t: Tree, j: nat, p: Pair)
    requires FilledKids(d, t) && j + 1 < |t.kids| && j < |t.keys| && Filled(d, p.left) && Filled(d, p.right)
    ensures FilledKids(d, WithPair(t, j, p))
  {
    forall c | c in WithPair(t, j, p).kids ensures Filled(d, c) {
      assert c in t.kids || c == p.left || c == p.right;
    }
  }

  // -------- the parent of merged children --------

  lemma MergeAtShape(t: Tree, j: nat)
    requires Shaped(t) && Balanced(t) && j + 1 < |t.kids|
    ensures var u := MergeAt(t, j);
            && Shaped(u) && Balanced(u) && Depth(u) == Depth(t)
            && |u.keys| == |t.keys| - 1 && u.kids[j] == Join(t.kids[j], t.keys[j], t.kids[j + 1])
            && Shaped(u.kids[j]) && Balanced(u.kids[j]) && Depth(u.kids[j]) == Depth(t) - 1
  {
    KidsAlike(t, j);
    JoinShape(t.kids[j], t.keys[j], t.kids[j + 1]);
    TwoForOne(t, j, Join(t.kids[j], t.keys[j], t.kids[j + 1]), MergeAt(t, j));
  }

  lemma TwoForOne(t: Tree, j: nat, m: Tree, u: Tree)
    requires Shaped(t) && Balanced(t) && j + 1 < |t.kids|
    requires Shaped(m) && Balanced(m) && Depth(m) == Depth(t) - 1
    requires u.vals == t.vals && |u.keys| == |t.keys| - 1 && u.kids == t.kids[..j] + [m] + t.kids[j + 2..]
    ensures Shaped(u) && Balanced(u) && Depth(u) == Depth(t) && u.kids[j] == m
  {
    assert t.kids[0] in t.kids;
    assert u.kids[j] == m && u.kids[0] == if j == 0 then m else t.kids[0];
    forall c | c in u.kids ensures c in t.kids || c == m {}
  }

  lemma MergeAtKeys(t: Tree, j: nat, lo: Option<int>, hi: Option<int>)
    requires KeysOrdered(t, lo, hi) && j + 1 < |t.kids|
    ensures KeysOrdered(MergeAt(t, j), lo, hi)
  {
    var ks := MergeAt(t, j).keys;
    assert forall i :: 0 <= i < |ks| ==> ks[i] == if i < j then t.keys[i] else t.keys[i + 1];
  }

  lemma MergeAtBounds(t: Tree, j: nat, lo: Option<int>, hi: Option<int>, i: nat)
    requires |t.kids| == |t.keys| + 1 && j + 1 < |t.kids| && i + 1 < |t.kids|
    ensures var u := MergeAt(t, j);
            && |u.kids| == |t.kids| - 1 && |u.keys| == |t.keys| - 1
            && (i < j ==>
                  && u.kids[i] == t.kids[i]
                  && Lo(u.keys, lo, i) == Lo(t.keys, lo, i) && Hi(u.keys, hi, i) == Hi(t.keys, hi, i))
            && (i == j ==> Lo(u.keys, lo, i) == Lo(t.keys, lo, j) && Hi(u.keys, hi, i) == Hi(t.keys, hi, j + 1))
            && (i > j ==>
                  && u.kids[i] == t.kids[i + 1]
                  && Lo(u.keys, lo, i) == Lo(t.keys, lo, i + 1) && Hi(u.keys, hi, i) == Hi(t.keys, hi, i + 1))
  {
  }

  lemma MergeAtOrdered(t: Tree, j: nat, lo: Option<int>, hi: Option<int>)
    requires Shaped(t) && Balanced(t) && Ordered(t, lo, hi) && j + 1 < |t.kids|
    ensures Ordered(MergeAt(t, j), lo, hi)
  {
    hide Join;
    var u := MergeAt(t, j);
    MergeAtKeys(t, j, lo, hi);
    forall i | 0 <= i < |u.kids| ensures KidOrdered(u, i, lo, hi) {
      MergeAtBounds(t, j, lo, hi, i);
      if i < j {
        assert KidOrdered(t, i, lo, hi);
      } else if i > j {
        assert KidOrdered(t, i + 1, lo, hi);
      } else {
        MergedOrdered(t, j, lo, hi);
      }
    }
  }

  lemma MergedOrdered(t: Tree, j: nat, lo: Option<int>, hi: Option<int>)
    requires Shaped(t) && Balanced(t) && Ordered(t, lo, hi) && j + 1 < |t.kids|
    ensures Ordered(Join(t.kids[j], t.keys[j], t.kids[j + 1]), Lo(t.keys, lo, j), Hi(t.keys, hi, j + 1))
  {
    KidsAlike(t, j);
    KidsAdjacent(t, j, lo, hi);
    if IsLeaf(t.kids[j]) {
      LeavesMeet(t.kids[j], t.keys[j], t.kids[j + 1], Lo(t.keys, lo, j), Hi(t.keys, hi, j + 1));
    } else {
      NodesMeet(t.kids[j], t.keys[j], t.kids[j + 1], Lo(t.keys, lo, j), Hi(t.keys, hi, j + 1));
    }
  }

  lemma KidsAdjacent(t: Tree, j: nat, lo: Option<int>, hi: Option<int>)
    requires Shaped(t) && Ordered(t, lo, hi) && j + 1 < |t.kids|
    ensures Adjacent(t.kids[j], t.keys[j], t.kids[j + 1], Lo(t.keys, lo, j), Hi(t.keys, hi, j + 1))
  {
    assert KidOrdered(t, j, lo, hi) && KidOrdered(t, j + 1, lo, hi);
  }

  lemma MergeAtLeaves(t: Tree, j: nat, nxt: Option<int>)
    requires Shaped(t) && Balanced(t) && j + 1 < |t.kids|
    ensures SameContent(MergeAt(t, j), t, nxt, multiset{t.kids[j + 1].id})
  {
    hide Leaves, EntriesOf, Bag;
    var l, key, r := t.kids[j], t.keys[j], t.kids[j + 1];
    var u := MergeAt(t, j);
    var m := Join(l, key, r);
    KidsAlike(t, j);
    MergedLeaves(l, key, r, HeadId(LeavesOf(t.kids[j + 2..]), nxt));
    LeavesOne(m);
    PairExchange(t, j, u, [m], nxt);
    Cancel(Bag(u), Bag(t), Bag(l) + Bag(r), Bag(m), multiset{r.id});
  }

  lemma Cancel(u: multiset<int>, t: multiset<int>, both: multiset<int>, m: multiset<int>, gone: multiset<int>)
    requires u + both == t + m && m + gone == both
    ensures u + gone == t
  {
    assert u + gone + m == t + m;
    assert (u + gone + m) - m == u + gone && (t + m) - m == t;
  }

  lemma MergedLeaves(l: Tree, key: int, r: Tree, nxt: Option<int>)
    requires Siblings(l, r)
    ensures var m := Join(l, key, r);
            && Flat(m) == EntriesOf(Leaves(l) + Leaves(r))
            && Leaves(m)[0].id == Leaves(l)[0].id
            && (Chained(Leaves(l) + Leaves(r), nxt) ==> Chained(Leaves(m), nxt))
            && Bag(m) + multiset{r.id} == Bag(l) + Bag(r)
  {
    if IsLeaf(l) {
      JoinedLeaf(l, r, nxt);
    } else {
      JoinedNode(l, key, r);
      assert Leaves(l)[0] == (Leaves(l) + Leaves(r))[0];
    }
  }

  lemma MergeAtFilled(d: int, t: Tree, j: nat)
    requires FilledKids(d, t) && j + 1 < |t.kids| && j < |t.keys|
    requires Filled(d, Join(t.kids[j], t.keys[j], t.kids[j + 1]))
    ensures FilledKids(d, MergeAt(t, j))
  {
    forall c | c in MergeAt(t, j).kids ensures Filled(d, c) {
      assert c in t.kids || c == Join(t.kids[j], t.keys[j], t.kids[j + 1]);
    }
  }

  // -------- repair --------

  lemma RepairShape(d: int, t: Tree, i: nat)
    requires Shaped(t) && Balanced(t) && d >= 4 && i < |t.kids|
    ensures var r := Repair(d, t, i);
            && Shaped(r.tree) && Balanced(r.tree) && Depth(r.tree) == Depth(t) && r.tree.id == t.id
            && r.index < |r.tree.kids|
            && Shaped(r.tree.kids[r.index]) && Balanced(r.tree.kids[r.index])
            && Depth(r.tree.kids[r.index]) == Depth(t) - 1
  {
    hide Join, LendLeft, LendRight, MergeAt;
    var r := Repair(d, t, i);
    if IsLacking(d, t.kids[i]) {
      if i > 0 && CanLend(d, t.kids[i - 1]) {
        KidsAlike(t, i - 1);
        LendRightShape(t.kids[i - 1], t.keys[i - 1], t.kids[i]);
        WithPairShape(t, i - 1, LendRight(t.kids[i - 1], t.keys[i - 1], t.kids[i]));
      } else if i + 1 < |t.kids| && CanLend(d, t.kids[i + 1]) {
        KidsAlike(t, i);
        LendLeftShape(t.kids[i], t.keys[i], t.kids[i + 1]);
        WithPairShape(t, i, LendLeft(t.kids[i], t.keys[i], t.kids[i + 1]));
      } else if i > 0 {
        MergeAtShape(t, i - 1);
      } else if i + 1 < |t.kids| {
        MergeAtShape(t, i);
      }
    }
    assert r.tree.id == t.id by { RepairKeepsId(d, t, i); }
    assert r.index < |r.tree.kids|;
    assert r.tree.kids[r.index] in r.tree.kids;
  }

  lemma RepairKeepsId(d: int, t: Tree, i: nat)
    requires Shaped(t) && Balanced(t) && d >= 4 && i < |t.kids|
    ensures Repair(d, t, i).tree.id == t.id
  {
  }

  lemma LentRightOrdered(t: Tree, j: nat, lo: Option<int>, hi: Option<int>)
    requires Shaped(t) && Balanced(t) && Ordered(t, lo, hi) && j + 1 < |t.kids| && |t.kids[j].keys| > 1
    requires Siblings(t.kids[j], t.kids[j + 1])
    ensures var p := LendRight(t.kids[j], t.keys[j], t.kids[j + 1]);
            && Ordered(WithPair(t, j, p), lo, hi) && p.key < t.keys[j]
  {
    hide LendRight;
    KidsAdjacent(t, j, lo, hi);
    LendRightOrdered(t.kids[j], t.keys[j], t.kids[j + 1], Lo(t.keys, lo, j), Hi(t.keys, hi, j + 1));
    WithPairOrdered(t, j, LendRight(t.kids[j], t.keys[j], t.kids[j + 1]), lo, hi);
  }

  lemma LentLeftOrdered(t: Tree, j: nat, lo: Option<int>, hi: Option<int>)
    requires Shaped(t) && Balanced(t) && Ordered(t, lo, hi) && j + 1 < |t.kids| && |t.kids[j + 1].keys| > 1
    requires Siblings(t.kids[j], t.kids[j + 1])
    ensures var p := LendLeft(t.kids[j], t.keys[j], t.kids[j + 1]);
            && Ordered(WithPair(t, j, p), lo, hi) && t.keys[j] < p.key
  {
    hide LendLeft;
    KidsAdjacent(t, j, lo, hi);
    LendLeftOrdered(t.kids[j], t.keys[j], t.kids[j + 1], Lo(t.keys, lo, j), Hi(t.keys, hi, j + 1));
    WithPairOrdered(t, j, LendLeft(t.kids[j], t.keys[j], t.kids[j + 1]), lo, hi);
  }

  /** Repair keeps the search order. */
  lemma RepairOrdered(d: int, t: Tree, i: nat, lo: Option<int>, hi: Option<int>)
    requires Shaped(t) && Balanced(t) && d >= 4 && Ordered(t, lo, hi) && i < |t.kids|
    ensures Ordered(Repair(d, t, i).tree, lo, hi)
  {
    hide Join, LendLeft, LendRight, MergeAt, WithPair, Ordered;
    if IsLacking(d, t.kids[i]) {
      if i > 0 && CanLend(d, t.kids[i - 1]) {
        KidsAlike(t, i - 1);
        LentRightOrdered(t, i - 1, lo, hi);
      } else if i + 1 < |t.kids| && CanLend(d, t.kids[i + 1]) {
        KidsAlike(t, i);
        LentLeftOrdered(t, i, lo, hi);
      } else if i > 0 {
        MergeAtOrdered(t, i - 1, lo, hi);
      } else if i + 1 < |t.kids| {
        MergeAtOrdered(t, i, lo, hi);
      }
    }
  }

  /** The child to descend into still covers the key. */
  lemma RepairCovers(d: int, t: Tree, key: int, lo: Option<int>, hi: Option<int>)
    requires Shaped(t) && Balanced(t) && !IsLeaf(t) && d >= 4 && Ordered(t, lo, hi)
    requires AtLeast(lo, key) && Under(key, hi)
    ensures var r := Repair(d, t, ChildIndex(t.keys, key));
            && r.index < |r.tree.kids| && r.index <= |r.tree.keys|
            && AtLeast(Lo(r.tree.keys, lo, r.index), key) && Under(key, Hi(r.tree.keys, hi, r.index))
  {
    hide Join, LendLeft, LendRight, MergeAt, Depth, KidsBalanced, Siblings, KidOrdered, Ordered, Repair, Shaped,
      Balanced;
    KeysOfOrdered(t, lo, hi);
    var i := ChildIndex(t.keys, key);
    RepairIs(d, t, i);
    if IsLacking(d, t.kids[i]) {
      if i > 0 && CanLend(d, t.kids[i - 1]) {
        KidsAlike(t, i - 1);
        LentRightOrdered(t, i - 1, lo, hi);
      } else if i + 1 < |t.kids| && CanLend(d, t.kids[i + 1]) {
        KidsAlike(t, i);
        LentLeftOrdered(t, i, lo, hi);
      } else if i > 0 {
        MergeAtBounds(t, i - 1, lo, hi, i - 1);
      } else if i + 1 < |t.kids| {
        MergeAtBounds(t, i, lo, hi, i);
      }
    }
  }

  lemma KeysOfOrdered(t: Tree, lo: Option<int>, hi: Option<int>)
    requires Ordered(t, lo, hi)
    ensures KeysOrdered(t, lo, hi)
  {
  }

  function IdsOf(ps: seq<FreePage>): multiset<int> {
    if ps == [] then multiset{} else multiset{ps[0].id} + IdsOf(ps[1..])
  }

  lemma {:induction false} IdsConcat(a: seq<FreePage>, b: seq<FreePage>)
    ensures IdsOf(a + b) == IdsOf(a) + IdsOf(b)
  {
    if a == [] {
      assert a + b == b;
    } else {
      assert (a + b)[1..] == a[1..] + b;
      IdsConcat(a[1..], b);
    }
  }

  lemma SameItself(t: Tree, nxt: Option<int>)
    ensures SameContent(t, t, nxt, multiset{})
  {
  }

  /** Repair keeps the pairs and the chain, and releases exactly the pages that leave the tree. */
  lemma RepairLeaves(d: int, t: Tree, i: nat, nxt: Option<int>)
    requires Shaped(t) && Balanced(t) && d >= 4 && i < |t.kids|
    ensures SameContent(Repair(d, t, i).tree, t, nxt, IdsOf(Repair(d, t, i).freed))
  {
    hide SameContent, Join, LendLeft, LendRight, MergeAt, WithPair, IdsOf, Shaped, Balanced, Siblings, Repair;
    RepairIs(d, t, i);
    NoIds();
    SameItself(t, nxt);
    if IsLacking(d, t.kids[i]) {
      if i > 0 && CanLend(d, t.kids[i - 1]) {
        LentRightLeaves(t, i - 1, nxt);
      } else if i + 1 < |t.kids| && CanLend(d, t.kids[i + 1]) {
        LentLeftLeaves(t, i, nxt);
      } else if i > 0 {
        MergeAtLeaves(t, i - 1, nxt);
        OneId(Released(t.kids[i]));
      } else if i + 1 < |t.kids| {
        MergeAtLeaves(t, i, nxt);
        OneId(Released(t.kids[i + 1]));
      }
    }
  }

  lemma NoIds()
    ensures IdsOf([]) == multiset{}
  {
  }

  lemma OneId(p: FreePage)
    ensures IdsOf([p]) == multiset{p.id}
  {
  }

  lemma LentRightLeaves(t: Tree, j: nat, nxt: Option<int>)
    requires Shaped(t) && Balanced(t) && j + 1 < |t.kids| && |t.kids[j].keys| > 1
    requires Siblings(t.kids[j], t.kids[j + 1])
    ensures SameContent(WithPair(t, j, LendRight(t.kids[j], t.keys[j], t.kids[j + 1])), t, nxt, multiset{})
  {
    hide Leaves, EntriesOf, Bag, Join;
    var l, key, r := t.kids[j], t.keys[j], t.kids[j + 1];
    var p := LendRight(l, key, r);
    LendRightShape(l, key, r);
    LendRightJoin(l, key, r);
    SameJoin(l, key, r, p, HeadId(LeavesOf(t.kids[j + 2..]), nxt));
    WithPairLeaves(t, j, p, nxt);
  }

  lemma LentLeftLeaves(t: Tree, j: nat, nxt: Option<int>)
    requires Shaped(t) && Balanced(t) && j + 1 < |t.kids| && |t.kids[j + 1].keys| > 1
    requires Siblings(t.kids[j], t.kids[j + 1])
    ensures SameContent(WithPair(t, j, LendLeft(t.kids[j], t.keys[j], t.kids[j + 1])), t, nxt, multiset{})
  {
    hide Leaves, EntriesOf, Bag, Join;
    var l, key, r := t.kids[j], t.keys[j], t.kids[j + 1];
    var p := LendLeft(l, key, r);
    LendLeftShape(l, key, r);
    LendLeftJoin(l, key, r);
    SameJoin(l, key, r, p, HeadId(LeavesOf(t.kids[j + 2..]), nxt));
    WithPairLeaves(t, j, p, nxt);
  }

  /** After repair the child has keys enough to lose one, and nothing else left its bounds. */
  lemma RepairFilled(d: int, t: Tree, i: nat)
    requires DegreeAccepted(d) && d >= 6 && Shaped(t) && Balanced(t) && FilledKids(d, t)
    requires i < |t.kids| && |t.keys| >= 1
    ensures var r := Repair(d, t, i);
            && FilledKids(d, r.tree) && |t.keys| - 1 <= |r.tree.keys| <= |t.keys|
            && r.index < |r.tree.kids| && |r.tree.kids[r.index].keys| >= MinKeys(d)
  {
    hide LendLeft, LendRight, MergeAt;
    assert t.kids[i] in t.kids;
    if IsLacking(d, t.kids[i]) {
      if i > 0 && CanLend(d, t.kids[i - 1]) {
        KidsAlike(t, i - 1);
        assert t.kids[i - 1] in t.kids;
        LentRightFilled(d, t.kids[i - 1], t.keys[i - 1], t.kids[i]);
        WithPairFilled(d, t, i - 1, LendRight(t.kids[i - 1], t.keys[i - 1], t.kids[i]));
      } else if i + 1 < |t.kids| && CanLend(d, t.kids[i + 1]) {
        KidsAlike(t, i);
        assert t.kids[i + 1] in t.kids;
        LentLeftFilled(d, t.kids[i], t.keys[i], t.kids[i + 1]);
        WithPairFilled(d, t, i, LendLeft(t.kids[i], t.keys[i], t.kids[i + 1]));
      } else {
        var j := if i > 0 then i - 1 else i;
        KidsAlike(t, j);
        assert t.kids[j] in t.kids && t.kids[j + 1] in t.kids;
        JoinedFilled(d, t.kids[j], t.keys[j], t.kids[j + 1]);
        MergeAtFilled(d, t, j);
        MergeAtShape(t, j);
      }
    }
  }

  lemma JoinedFilled(d: int, l: Tree, key: int, r: Tree)
    requires DegreeAccepted(d) && d >= 6 && Filled(d, l) && Filled(d, r)
    requires (IsLacking(d, l) && !CanLend(d, r)) || (!CanLend(d, l) && IsLacking(d, r))
    ensures Filled(d, Join(l, key, r)) && |Join(l, key, r).keys| >= MinKeys(d)
  {
    forall c | c in Join(l, key, r).kids ensures Filled(d, c) {
      assert c in l.kids || c in r.kids;
    }
  }

  lemma LentRightFilled(d: int, l: Tree, key: int, r: Tree)
    requires DegreeAccepted(d) && d >= 6 && Siblings(l, r)
    requires Filled(d, l) && Filled(d, r) && CanLend(d, l) && IsLacking(d, r)
    ensures var p := LendRight(l, key, r);
            Filled(d, p.left) && Filled(d, p.right) && |p.right.keys| >= MinKeys(d)
  {
    var p := LendRight(l, key, r);
    forall c | c in p.left.kids || c in p.right.kids ensures Filled(d, c) {
      assert c in l.kids || c in r.kids;
    }
  }

  lemma LentLeftFilled(d: int, l: Tree, key: int, r: Tree)
    requires DegreeAccepted(d) && d >= 6 && Siblings(l, r)
    requires Filled(d, l) && Filled(d, r) && CanLend(d, r) && IsLacking(d, l)
    ensures var p := LendLeft(l, key, r);
            Filled(d, p.left) && Filled(d, p.right) && |p.left.keys| >= MinKeys(d)
  {
    var p := LendLeft(l, key, r);
    forall c | c in p.left.kids || c in p.right.kids ensures Filled(d, c) {
      assert c in l.kids || c in r.kids;
    }
  }

  // -------- deletion --------

  datatype Deleted = Deleted(tree: Tree, value: Option<Val>, freed: seq<FreePage>)

  function DeleteLeaf(t: Tree, key: int): Deleted
    requires Shaped(t) && IsLeaf(t)
  {
    var p := ChildIndex(t.keys, key);
    if p > 0 && t.keys[p - 1] == key then
      Deleted(t.(keys := t.keys[..p - 1] + t.keys[p..], vals := t.vals[..p - 1] + t.vals[p..]), Some(t.vals[p - 1]), [])
    else
      Deleted(t, None, [])
  }

  function Delete(d: int, t: Tree, key: int): Deleted
    requires Shaped(t) && Balanced(t) && d >= 4
    decreases Depth(t)
  {
    if IsLeaf(t) then DeleteLeaf(t, key)
    else
      var i := ChildIndex(t.keys, key);
      RepairShape(d, t, i);
      var r := Repair(d, t, i);
      var x := Delete(d, r.tree.kids[r.index], key);
      Deleted(WithKid(r.tree, r.index, x.tree), x.value, r.freed + x.freed)
  }

  lemma {:induction false} DeleteShape(d: int, t: Tree, key: int)
    requires Shaped(t) && Balanced(t) && d >= 4
    ensures var x := Delete(d, t, key).tree;
            Shaped(x) && Balanced(x) && Depth(x) == Depth(t) && x.id == t.id
    decreases Depth(t)
  {
    hide Repair;
    if !IsLeaf(t) {
      var i := ChildIndex(t.keys, key);
      RepairShape(d, t, i);
      var r := Repair(d, t, i);
      DeleteShape(d, r.tree.kids[r.index], key);
      var c := Delete(d, r.tree.kids[r.index], key).tree;
      WithKidShaped(r.tree, r.index, c);
      WithKidBalanced(r.tree, r.index, c);
    }
  }

  lemma DeleteLeafEntries(t: Tree, key: int)
    requires Shaped(t) && IsLeaf(t) && SortedKeys(t.keys)
    ensures Flat(DeleteLeaf(t, key).tree) == Del(Flat(t), key)
    ensures DeleteLeaf(t, key).value == Get(Flat(t), key)
  {
    hide *;
    var p, u := ChildIndex(t.keys, key), DeleteLeaf(t, key).tree;
    DeleteLeafParts(t, key);
    LeafFlat(t);
    LeafFlat(u);
    ZipSides(t.keys, t.vals, key);
    if p > 0 && t.keys[p - 1] == key {
      ZipDrop(t.keys, t.vals, p - 1);
      DeleteHit(Zip(t.keys, t.vals), p - 1);
    } else {
      DeleteMiss(Zip(t.keys, t.vals), p, key);
    }
  }

  lemma DeleteLeafParts(t: Tree, key: int)
    requires Shaped(t) && IsLeaf(t)
    ensures |t.keys| == |t.vals| && Shaped(DeleteLeaf(t, key).tree) && IsLeaf(DeleteLeaf(t, key).tree)
    ensures var p, x := ChildIndex(t.keys, key), DeleteLeaf(t, key);
            if p > 0 && t.keys[p - 1] == key then
              && x.tree.keys == t.keys[..p - 1] + t.keys[p..] && x.tree.vals == t.vals[..p - 1] + t.vals[p..]
              && x.value == Some(t.vals[p - 1])
            else x.tree == t && x.value == None
  {
  }

  lemma ZipSides(keys: seq<int>, vals: seq<Val>, key: int)
    requires |keys| == |vals| && SortedKeys(keys)
    ensures var f, p := Zip(keys, vals), ChildIndex(keys, key);
            if p > 0 && keys[p - 1] == key then Sorted(f) && f[p - 1] == (key, vals[p - 1])
            else AllBelow(f[..p], key) && AllAbove(f[p..], key)
  {
    hide Zip, ChildIndex;
  }

  lemma LeafFlat(t: Tree)
    requires Shaped(t) && IsLeaf(t)
    ensures Flat(t) == Zip(t.keys, t.vals)
  {
    LeavesOne(t);
  }

  lemma DeleteHit(f: seq<Entry>, q: nat)
    requires Sorted(f) && q < |f|
    ensures Del(f, f[q].0) == f[..q] + f[q + 1..] && Get(f, f[q].0) == Some(f[q].1)
  {
    hide Del, Get, AllBelow, AllAbove, Sorted;
    SortedSides(f, q);
    DelHit(f[..q], f[q], f[q + 1..]);
    assert f == f[..q] + [f[q]] + f[q + 1..];
  }

  lemma SortedSides(f: seq<Entry>, q: nat)
    requires Sorted(f) && q < |f|
    ensures AllBelow(f[..q], f[q].0) && AllAbove(f[q + 1..], f[q].0)
  {
  }

  lemma DeleteMiss(f: seq<Entry>, p: nat, key: int)
    requires p <= |f| && AllBelow(f[..p], key) && AllAbove(f[p..], key)
    ensures Del(f, key) == f && Get(f, key) == None
  {
    hide Del, Get;
    DelMiss(f[..p], f[p..], key);
    assert f == f[..p] + f[p..];
  }

  lemma ZipDrop(keys: seq<int>, vals: seq<Val>, p: nat)
    requires |keys| == |vals| && p < |keys|
    ensures var f := Zip(keys, vals);
            Zip(keys[..p] + keys[p + 1..], vals[..p] + vals[p + 1..]) == f[..p] + f[p + 1..]
  {
  }

  lemma DelHit(pre: seq<Entry>, e: Entry, post: seq<Entry>)
    requires AllBelow(pre, e.0) && AllAbove(post, e.0)
    ensures Del(pre + [e] + post, e.0) == pre + post
    ensures Get(pre + [e] + post, e.0) == Some(e.1)
  {
    DelMiddle(pre, [e], post, e.0);
    assert pre + [] + post == pre + post;
  }

  lemma DelMiss(pre: seq<Entry>, post: seq<Entry>, key: int)
    requires AllBelow(pre, key) && AllAbove(post, key)
    ensures Del(pre + post, key) == pre + post && Get(pre + post, key) == None
  {
    DelMiddle(pre, [], post, key);
    assert pre + [] + post == pre + post;
  }

  /** Deletion is deletion from the sorted list of pairs, returns the removed value, and keeps the search order. */
  lemma {:induction false} DeleteRefines(d: int, t: Tree, key: int, lo: Option<int>, hi: Option<int>)
    requires Shaped(t) && Balanced(t) && d >= 4 && Ordered(t, lo, hi) && AtLeast(lo, key) && Under(key, hi)
    ensures var x := Delete(d, t, key);
            && Ordered(x.tree, lo, hi)
            && Flat(x.tree) == Del(Flat(t), key)
            && x.value == Get(Flat(t), key)
    decreases Depth(t)
  {
    hide Repair;
    if IsLeaf(t) {
      DeleteLeafEntries(t, key);
      DeleteLeafOrdered(t, key, lo, hi);
    } else {
      var i := ChildIndex(t.keys, key);
      RepairShape(d, t, i);
      RepairOrdered(d, t, i, lo, hi);
      RepairCovers(d, t, key, lo, hi);
      RepairLeaves(d, t, i, None);
      var r := Repair(d, t, i);
      var c := r.tree.kids[r.index];
      assert KidOrdered(r.tree, r.index, lo, hi);
      DeleteRefines(d, c, key, Lo(r.tree.keys, lo, r.index), Hi(r.tree.keys, hi, r.index));
      var x := Delete(d, c, key);
      WithKidOrdered(r.tree, r.index, x.tree, lo, hi);
      WithKidDeleted(r.tree, r.index, x.tree, key, lo, hi);
    }
  }

  lemma DeleteLeafOrdered(t: Tree, key: int, lo: Option<int>, hi: Option<int>)
    requires Shaped(t) && IsLeaf(t) && Ordered(t, lo, hi)
    ensures Ordered(DeleteLeaf(t, key).tree, lo, hi)
  {
  }

  lemma WithKidDeleted(t: Tree, i: nat, c: Tree, key: int, lo: Option<int>, hi: Option<int>)
    requires Shaped(t) && Ordered(t, lo, hi) && i < |t.kids|
    requires AtLeast(Lo(t.keys, lo, i), key) && Under(key, Hi(t.keys, hi, i))
    requires Flat(c) == Del(Flat(t.kids[i]), key)
    ensures Flat(WithKid(t, i, c)) == Del(Flat(t), key)
    ensures Get(Flat(t.kids[i]), key) == Get(Flat(t), key)
  {
    KidCut(t, i);
    WithKidCut(t, i, c);
    KidIsolated(t, lo, hi, i, key);
    DelMiddle(EntriesOf(LeavesOf(t.kids[..i])), Flat(t.kids[i]), EntriesOf(LeavesOf(t.kids[i + 1..])), key);
  }

  lemma {:induction false} DeleteFilled(d: int, t: Tree, key: int)
    requires DegreeAccepted(d) && d >= 6 && Shaped(t) && Balanced(t) && FilledKids(d, t)
    requires !IsLeaf(t) ==> |t.keys| >= 1
    ensures var x := Delete(d, t, key).tree;
            FilledKids(d, x) && |t.keys| - 1 <= |x.keys| <= |t.keys|
    decreases Depth(t)
  {
    hide Repair;
    if !IsLeaf(t) {
      var i := ChildIndex(t.keys, key);
      RepairShape(d, t, i);
      RepairFilled(d, t, i);
      var r := Repair(d, t, i);
      var c := r.tree.kids[r.index];
      assert c in r.tree.kids;
      DeleteFilled(d, c, key);
      WithKidFilled(d, r.tree, r.index, Delete(d, c, key).tree);
    }
  }

  lemma {:induction false} DeleteChained(d: int, t: Tree, key: int, nxt: Option<int>)
    requires Shaped(t) && Balanced(t) && d >= 4 && Chained(Leaves(t), nxt)
    ensures var x := Delete(d, t, key).tree;
            Chained(Leaves(x), nxt) && Leaves(x)[0].id == Leaves(t)[0].id
    decreases Depth(t)
  {
    hide Repair;
    if IsLeaf(t) {
      ChainOne(t, nxt);
      ChainOne(DeleteLeaf(t, key).tree, nxt);
    } else {
      var i := ChildIndex(t.keys, key);
      RepairShape(d, t, i);
      RepairLeaves(d, t, i, nxt);
      var r := Repair(d, t, i);
      var c := r.tree.kids[r.index];
      KidChained(r.tree, r.index, nxt);
      DeleteChained(d, c, key, HeadId(LeavesOf(r.tree.kids[r.index + 1..]), nxt));
      WithKidChained(r.tree, r.index, Delete(d, c, key).tree, nxt);
    }
  }

  /** The pages released are exactly those that leave the tree. */
  lemma {:induction false} DeleteBag(d: int, t: Tree, key: int)
    requires Shaped(t) && Balanced(t) && d >= 4
    ensures var x := Delete(d, t, key);
            Bag(x.tree) + IdsOf(x.freed) == Bag(t)
    decreases Depth(t)
  {
    hide Repair, Bag;
    if IsLeaf(t) {
      assert Bag(DeleteLeaf(t, key).tree) == Bag(t) by { DeleteLeafBag(t, key); }
      assert IdsOf([]) == multiset{};
    } else {
      var i := ChildIndex(t.keys, key);
      RepairShape(d, t, i);
      RepairLeaves(d, t, i, None);
      var r := Repair(d, t, i);
      var c := r.tree.kids[r.index];
      DeleteBag(d, c, key);
      var x := Delete(d, c, key);
      WithKidLessBag(r.tree, r.index, x.tree, IdsOf(x.freed));
      IdsConcat(r.freed, x.freed);
    }
  }

  lemma DeleteLeafBag(t: Tree, key: int)
    requires Shaped(t) && IsLeaf(t)
    ensures Bag(DeleteLeaf(t, key).tree) == Bag(t)
  {
  }

  lemma WithKidLessBag(t: Tree, i: nat, c: Tree, less: multiset<int>)
    requires i < |t.kids| && Bag(c) + less == Bag(t.kids[i])
    ensures Bag(WithKid(t, i, c)) + less == Bag(t)
  {
    KidCut(t, i);
    WithKidCut(t, i, c);
  }
}
