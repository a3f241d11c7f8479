/** The value a B+ tree of pages stands for, the invariants of its shape, and how
    each of them behaves when one child is exchanged for another. */
module BTree {
  import opened Wrappers
  import opened Entries

  /** One page together with the subtrees its child ids lead to. A page without
      children is a leaf. `next` is the link to the next leaf; in an internal page
      it holds whatever the page was allocated with. */
  datatype Tree = Tree(id: int, keys: seq<int>, vals: seq<Val>, kids: seq<Tree>, next: Option<int>)

  predicate IsLeaf(t: Tree) { t.kids == [] }

  // -------- degree --------

  /** What the store accepts at creation. */
  predicate DegreeAccepted(d: int) { d >= 4 && d % 2 == 0 }

  function MinKeys(d: int): int { d / 2 - 1 }
  function MaxKeys(d: int): int { d - 1 }

  predicate IsFull(d: int, t: Tree) { |t.keys| >= MaxKeys(d) }
  predicate CanLend(d: int, t: Tree) { |t.keys| > MinKeys(d) }
  predicate IsLacking(d: int, t: Tree) { |t.keys| < MinKeys(d) }

  // -------- views --------

  function Depth(t: Tree): nat { if IsLeaf(t) then 0 else 1 + Depth(t.kids[0]) }

  function Leaves(t: Tree): (ls: seq<Tree>)
    ensures |ls| > 0
    decreases t, 1
  {
    if IsLeaf(t) then [t] else LeavesOf(t.kids)
  }

  function LeavesOf(ts: seq<Tree>): (ls: seq<Tree>)
    ensures ts != [] ==> |ls| > 0
    decreases ts, 0
  {
    if ts == [] then [] else Leaves(ts[0]) + LeavesOf(ts[1..])
  }

  function Zip(keys: seq<int>, vals: seq<Val>): (f: seq<Entry>)
    requires |keys| == |vals|
    ensures |f| == |keys|
    ensures forall i :: 0 <= i < |f| ==> f[i] == (keys[i], vals[i])
  {
    seq(|keys|, i requires 0 <= i < |keys| => (keys[i], vals[i]))
  }

  function LeafEntries(t: Tree): seq<Entry> {
    if |t.keys| == |t.vals| then Zip(t.keys, t.vals) else []
  }

  function EntriesOf(ls: seq<Tree>): seq<Entry> {
    if ls == [] then [] else LeafEntries(ls[0]) + EntriesOf(ls[1..])
  }

  /** All (key, value) pairs, leaf by leaf from left to right. */
  function Flat(t: Tree): seq<Entry> { EntriesOf(Leaves(t)) }

  /** How often each page id occurs. */
  function Bag(t: Tree): multiset<int>
    decreases t, 1
  {
    multiset{t.id} + BagOf(t.kids)
  }

  function BagOf(ts: seq<Tree>): multiset<int>
    decreases ts, 0
  {
    if ts == [] then multiset{} else Bag(ts[0]) + BagOf(ts[1..])
  }

  // -------- invariants --------

  ghost predicate SortedKeys(keys: seq<int>) {
    forall i, j :: 0 <= i < j < |keys| ==> keys[i] < keys[j]
  }

  /** Children = keys + 1 in internal pages, values = keys in leaves. */
  ghost predicate Shaped(t: Tree) {
    if IsLeaf(t) then |t.vals| == |t.keys|
    else t.vals == [] && |t.kids| == |t.keys| + 1 && forall c {:trigger c in t.kids} :: c in t.kids ==> Shaped(c)
  }

  /** All leaves at one depth. */
  ghost predicate Balanced(t: Tree) {
    forall c {:trigger c in t.kids} :: c in t.kids ==> Balanced(c) && Depth(c) == Depth(t) - 1
  }

  /** Each subtree is balanced, though perhaps not all to the same depth. */
  ghost predicate KidsBalanced(t: Tree) {
    forall c {:trigger c in t.kids} :: c in t.kids ==> Balanced(c) && Depth(c) < Depth(t)
  }

  lemma BalancedKids(t: Tree)
    requires Balanced(t)
    ensures KidsBalanced(t)
  {
  }

  function Lo(keys: seq<int>, lo: Option<int>, i: nat): Option<int>
    requires i <= |keys|
  {
    if i == 0 then lo else Some(keys[i - 1])
  }

  function Hi(keys: seq<int>, hi: Option<int>, i: nat): Option<int>
    requires i <= |keys|
  {
    if i == |keys| then hi else Some(keys[i])
  }

  /** The keys of one page: strictly sorted, within bounds; separators strictly above the lower one. */
  ghost predicate KeysOrdered(t: Tree, lo: Option<int>, hi: Option<int>) {
    && SortedKeys(t.keys)
    && (forall i :: 0 <= i < |t.keys| ==> AtLeast(lo, t.keys[i]) && Under(t.keys[i], hi))
    && (!IsLeaf(t) ==> |t.kids| == |t.keys| + 1 && forall i :: 0 <= i < |t.keys| ==> Exceeds(lo, t.keys[i]))
  }

  /** Search order: left subtree < separator <= right subtree. */
  ghost predicate Ordered(t: Tree, lo: Option<int>, hi: Option<int>)
    decreases t, 1
  {
    && KeysOrdered(t, lo, hi)
    && forall i :: 0 <= i < |t.kids| ==> KidOrdered(t, i, lo, hi)
  }

  ghost predicate KidOrdered(t: Tree, i: nat, lo: Option<int>, hi: Option<int>)
    requires i < |t.kids| && KeysOrdered(t, lo, hi)
    decreases t, 0
  {
    Ordered(t.kids[i], Lo(t.keys, lo, i), Hi(t.keys, hi, i))
  }

  /** Occupancy of a page below the root, and of everything below it. */
  ghost predicate Filled(d: int, t: Tree)
    decreases t, 1
  {
    && MinKeys(d) - 1 <= |t.keys| <= MaxKeys(d)
    && FilledKids(d, t)
  }

  ghost predicate FilledKids(d: int, t: Tree)
    decreases t, 0
  {
    forall c {:trigger c in t.kids} :: c in t.kids ==> Filled(d, c)
  }

  function HeadId(ls: seq<Tree>, nxt: Option<int>): Option<int> {
    if ls == [] then nxt else Some(ls[0].id)
  }

  function Successor(ls: seq<Tree>, i: nat, nxt: Option<int>): Option<int> {
    if i + 1 < |ls| then Some(ls[i + 1].id) else nxt
  }

  /** Each leaf links to the one after it, and the last one to `nxt`. */
  ghost predicate Chained(ls: seq<Tree>, nxt: Option<int>) {
    forall i :: 0 <= i < |ls| ==> ls[i].next == Successor(ls, i, nxt)
  }

  ghost predicate Distinct(t: Tree) { forall x :: Bag(t)[x] <= 1 }

  /** The invariant of a whole tree. */
  ghost predicate Valid(d: int, t: Tree) {
    && Shaped(t) && Balanced(t) && Ordered(t, None, None)
    && |t.keys| <= MaxKeys(d) && FilledKids(d, t) && (!IsLeaf(t) ==> |t.keys| >= 1)
    && Chained(Leaves(t), None)
    && Distinct(t)
  }

  // -------- concatenation --------

  lemma {:induction false} LeavesConcat(a: seq<Tree>, b: seq<Tree>)
    ensures LeavesOf(a + b) == LeavesOf(a) + LeavesOf(b)
  {
    if a == [] {
      assert a + b == b;
    } else {
      assert (a + b)[1..] == a[1..] + b;
      LeavesConcat(a[1..], b);
    }
  }

  lemma {:induction false} EntriesConcat(a: seq<Tree>, b: seq<Tree>)
    ensures EntriesOf(a + b) == EntriesOf(a) + EntriesOf(b)
  {
    if a == [] {
      assert a + b == b;
    } else {
      assert (a + b)[1..] == a[1..] + b;
      EntriesConcat(a[1..], b);
    }
  }

  lemma {:induction false} BagConcat(a: seq<Tree>, b: seq<Tree>)
    ensures BagOf(a + b) == BagOf(a) + BagOf(b)
  {
    if a == [] {
      assert a + b == b;
    } else {
      assert (a + b)[1..] == a[1..] + b;
      BagConcat(a[1..], b);
    }
  }

  lemma ChainConcat(a: seq<Tree>, b: seq<Tree>, nxt: Option<int>)
    ensures Chained(a + b, nxt) <==> Chained(a, HeadId(b, nxt)) && Chained(b, nxt)
  {
    var ab := a + b;
    assert forall i :: 0 <= i < |a| ==> ab[i] == a[i] && Successor(ab, i, nxt) == Successor(a, i, HeadId(b, nxt));
    assert forall i :: 0 <= i < |b| ==> ab[|a| + i] == b[i] && Successor(ab, |a| + i, nxt) == Successor(b, i, nxt);
  }

  lemma LeavesOne(t: Tree)
    ensures LeavesOf([t]) == Leaves(t) && BagOf([t]) == Bag(t) && EntriesOf([t]) == LeafEntries(t)
  {
    assert [t][1..] == [];
  }

  /** A list of subtrees cut around a middle piece. */
  lemma LeavesCut(a: seq<Tree>, m: seq<Tree>, b: seq<Tree>)
    ensures LeavesOf(a + m + b) == LeavesOf(a) + LeavesOf(m) + LeavesOf(b)
    ensures BagOf(a + m + b) == BagOf(a) + BagOf(m) + BagOf(b)
  {
    LeavesConcat(a + m, b);
    LeavesConcat(a, m);
    BagConcat(a + m, b);
    BagConcat(a, m);
  }

  lemma EntriesCut(a: seq<Tree>, m: seq<Tree>, b: seq<Tree>)
    ensures EntriesOf(a + m + b) == EntriesOf(a) + EntriesOf(m) + EntriesOf(b)
  {
    EntriesConcat(a + m, b);
    EntriesConcat(a, m);
  }

  /** The child at index i, seen from the leaves and the page ids. */
  lemma KidCut(t: Tree, i: nat)
    requires i < |t.kids|
    ensures t.kids == t.kids[..i] + [t.kids[i]] + t.kids[i + 1..]
    ensures Leaves(t) == LeavesOf(t.kids[..i]) + Leaves(t.kids[i]) + LeavesOf(t.kids[i + 1..])
    ensures Flat(t) == EntriesOf(LeavesOf(t.kids[..i])) + Flat(t.kids[i]) + EntriesOf(LeavesOf(t.kids[i + 1..]))
    ensures Bag(t) == multiset{t.id} + BagOf(t.kids[..i]) + Bag(t.kids[i]) + BagOf(t.kids[i + 1..])
  {
    assert t.kids == t.kids[..i] + [t.kids[i]] + t.kids[i + 1..];
    LeavesCut(t.kids[..i], [t.kids[i]], t.kids[i + 1..]);
    LeavesOne(t.kids[i]);
    EntriesCut(LeavesOf(t.kids[..i]), Leaves(t.kids[i]), LeavesOf(t.kids[i + 1..]));
  }

  lemma PairLeaves(l: Tree, r: Tree)
    ensures LeavesOf([l, r]) == Leaves(l) + Leaves(r) && BagOf([l, r]) == Bag(l) + Bag(r)
  {
    assert [l, r] == [l] + [r];
    LeavesConcat([l], [r]);
    BagConcat([l], [r]);
    LeavesOne(l);
    LeavesOne(r);
  }

  /** A stretch of the chain may be replaced by one that starts at the same page. */
  lemma ChainExchange(pre: seq<Tree>, was: seq<Tree>, now: seq<Tree>, post: seq<Tree>, nxt: Option<int>)
    requires was != [] && now != [] && was[0].id == now[0].id
    ensures Chained(pre + was + post, nxt) ==> Chained(was, HeadId(post, nxt))
    ensures Chained(pre + was + post, nxt) && Chained(now, HeadId(post, nxt)) ==> Chained(pre + now + post, nxt)
  {
    ChainConcat(pre + was, post, nxt);
    ChainConcat(pre, was, HeadId(post, nxt));
    ChainConcat(pre + now, post, nxt);
    ChainConcat(pre, now, HeadId(post, nxt));
  }

  // -------- two neighbours joined around their separator --------

  function JoinLeaves(l: Tree, r: Tree): Tree {
    l.(keys := l.keys + r.keys, vals := l.vals + r.vals, next := r.next)
  }

  function JoinNodes(l: Tree, key: int, r: Tree): Tree {
    l.(keys := l.keys + [key] + r.keys, kids := l.kids + r.kids)
  }

  function Join(l: Tree, key: int, r: Tree): Tree {
    if IsLeaf(l) then JoinLeaves(l, r) else JoinNodes(l, key, r)
  }

  ghost predicate Siblings(l: Tree, r: Tree) {
    Shaped(l) && Shaped(r) && Balanced(l) && Balanced(r) && Depth(l) == Depth(r)
  }

  lemma JoinShape(l: Tree, key: int, r: Tree)
    requires Siblings(l, r)
    ensures var j := Join(l, key, r);
            Shaped(j) && Balanced(j) && Depth(j) == Depth(l)
  {
    var j := Join(l, key, r);
    if !IsLeaf(l) {
      assert j.kids[0] == l.kids[0];
      forall c | c in j.kids ensures c in l.kids || c in r.kids {}
    }
  }

  ghost predicate Adjacent(l: Tree, key: int, r: Tree, lo: Option<int>, hi: Option<int>) {
    Ordered(l, lo, Some(key)) && Ordered(r, Some(key), hi) && Exceeds(lo, key) && Under(key, hi)
  }

  lemma NodesPartKeys(l: Tree, key: int, r: Tree, lo: Option<int>, hi: Option<int>)
    requires Shaped(l) && Shaped(r) && !IsLeaf(l) && !IsLeaf(r)
    requires KeysOrdered(JoinNodes(l, key, r), lo, hi)
    ensures KeysOrdered(l, lo, Some(key)) && KeysOrdered(r, Some(key), hi)
    ensures Exceeds(lo, key) && Under(key, hi)
  {
    var j := JoinNodes(l, key, r);
    var n := |l.keys|;
    assert |l.kids| == n + 1 && |r.kids| == |r.keys| + 1 && j.keys[n] == key;
    hide Shaped;
    forall i | 0 <= i < n ensures AtLeast(lo, l.keys[i]) && Exceeds(lo, l.keys[i]) && l.keys[i] < key {
      assert l.keys[i] == j.keys[i];
    }
    forall i | 0 <= i < |r.keys| ensures key < r.keys[i] && Under(r.keys[i], hi) {
      assert r.keys[i] == j.keys[n + 1 + i];
    }
    assert l.keys == j.keys[..n] && r.keys == j.keys[n + 1..];
  }

  lemma NodesMeetKeys(l: Tree, key: int, r: Tree, lo: Option<int>, hi: Option<int>)
    requires Shaped(l) && Shaped(r) && !IsLeaf(l) && !IsLeaf(r)
    requires KeysOrdered(l, lo, Some(key)) && KeysOrdered(r, Some(key), hi)
    requires Exceeds(lo, key) && Under(key, hi)
    ensures KeysOrdered(JoinNodes(l, key, r), lo, hi)
  {
    var j := JoinNodes(l, key, r);
    var n := |l.keys|;
    assert j.keys[n] == key;
    assert forall i :: 0 <= i < n ==> j.keys[i] == l.keys[i];
    assert forall i :: n < i < |j.keys| ==> j.keys[i] == r.keys[i - n - 1];
  }

  /** The bounds of child i do not change when pages are joined. */
  lemma JoinedKid(l: Tree, key: int, r: Tree, lo: Option<int>, hi: Option<int>, i: nat)
    requires |l.kids| == |l.keys| + 1 && |r.kids| == |r.keys| + 1 && i < |l.kids| + |r.kids|
    ensures var j := JoinNodes(l, key, r);
            if i < |l.kids| then
              j.kids[i] == l.kids[i] && Lo(j.keys, lo, i) == Lo(l.keys, lo, i)
                && Hi(j.keys, hi, i) == Hi(l.keys, Some(key), i)
            else
              var k := i - |l.kids|;
              j.kids[i] == r.kids[k] && Lo(j.keys, lo, i) == Lo(r.keys, Some(key), k)
                && Hi(j.keys, hi, i) == Hi(r.keys, hi, k)
  {
  }

  /** Joined internal pages are in order exactly when the parts are. */
  lemma NodesPart(l: Tree, key: int, r: Tree, lo: Option<int>, hi: Option<int>)
    requires Shaped(l) && Shaped(r) && !IsLeaf(l) && !IsLeaf(r)
    requires Ordered(JoinNodes(l, key, r), lo, hi)
    ensures Adjacent(l, key, r, lo, hi)
  {
    var j := JoinNodes(l, key, r);
    NodesPartKeys(l, key, r, lo, hi);
    forall i | 0 <= i < |l.kids| ensures KidOrdered(l, i, lo, Some(key)) {
      JoinedKid(l, key, r, lo, hi, i);
      assert KidOrdered(j, i, lo, hi);
    }
    forall i | 0 <= i < |r.kids| ensures KidOrdered(r, i, Some(key), hi) {
      JoinedKid(l, key, r, lo, hi, |l.kids| + i);
      assert KidOrdered(j, |l.kids| + i, lo, hi);
    }
  }

  lemma NodesMeet(l: Tree, key: int, r: Tree, lo: Option<int>, hi: Option<int>)
    requires Shaped(l) && Shaped(r) && !IsLeaf(l) && !IsLeaf(r)
    requires Adjacent(l, key, r, lo, hi)
    ensures Ordered(JoinNodes(l, key, r), lo, hi)
  {
    var j := JoinNodes(l, key, r);
    NodesMeetKeys(l, key, r, lo, hi);
    forall i | 0 <= i < |j.kids| ensures KidOrdered(j, i, lo, hi) {
      JoinedKid(l, key, r, lo, hi, i);
      if i < |l.kids| {
        assert KidOrdered(l, i, lo, Some(key));
      } else {
        assert KidOrdered(r, i - |l.kids|, Some(key), hi);
      }
    }
  }

  lemma LeavesMeet(l: Tree, key: int, r: Tree, lo: Option<int>, hi: Option<int>)
    requires Shaped(l) && Shaped(r) && IsLeaf(l) && IsLeaf(r)
    requires Adjacent(l, key, r, lo, hi)
    ensures Ordered(JoinLeaves(l, r), lo, hi)
  {
  }

  lemma JoinedLeaf(l: Tree, r: Tree, nxt: Option<int>)
    requires Shaped(l) && Shaped(r) && IsLeaf(l) && IsLeaf(r)
    ensures var j := JoinLeaves(l, r);
            && Flat(j) == EntriesOf(Leaves(l) + Leaves(r))
            && Leaves(j)[0].id == Leaves(l)[0].id
            && Bag(j) + multiset{r.id} == Bag(l) + Bag(r)
            && (Chained(Leaves(l) + Leaves(r), nxt) <==> l.next == Some(r.id) && Chained(Leaves(j), nxt))
  {
    var j := JoinLeaves(l, r);
    assert Leaves(l) == [l] && Leaves(r) == [r] && Leaves(j) == [j];
    JoinedLeafEntries(l, r);
    ChainOne(l, Some(r.id));
    ChainOne(r, nxt);
    ChainOne(j, nxt);
    ChainConcat([l], [r], nxt);
  }

  lemma JoinedLeafEntries(l: Tree, r: Tree)
    requires Shaped(l) && Shaped(r) && IsLeaf(l) && IsLeaf(r)
    ensures LeafEntries(JoinLeaves(l, r)) == EntriesOf([l] + [r])
    ensures EntriesOf([JoinLeaves(l, r)]) == EntriesOf([l] + [r])
  {
    var j := JoinLeaves(l, r);
    LeavesOne(l);
    LeavesOne(r);
    LeavesOne(j);
    EntriesConcat([l], [r]);
    assert Zip(l.keys, l.vals) + Zip(r.keys, r.vals) == Zip(j.keys, j.vals);
  }

  lemma ChainOne(t: Tree, nxt: Option<int>)
    ensures Chained([t], nxt) <==> t.next == nxt
  {
    assert [t][0].next == t.next;
  }

  lemma JoinedNode(l: Tree, key: int, r: Tree)
    requires !IsLeaf(l) && !IsLeaf(r)
    ensures var j := JoinNodes(l, key, r);
            && Leaves(j) == Leaves(l) + Leaves(r)
            && Bag(j) + multiset{r.id} == Bag(l) + Bag(r)
  {
    LeavesConcat(l.kids, r.kids);
    BagConcat(l.kids, r.kids);
  }

  // -------- exchanging one child --------

  function WithKid(t: Tree, i: nat, c: Tree): Tree
    requires i < |t.kids|
  {
    t.(kids := t.kids[i := c])
  }

  lemma WithKidCut(t: Tree, i: nat, c: Tree)
    requires i < |t.kids|
    ensures Leaves(WithKid(t, i, c)) == LeavesOf(t.kids[..i]) + Leaves(c) + LeavesOf(t.kids[i + 1..])
    ensures Flat(WithKid(t, i, c)) == EntriesOf(LeavesOf(t.kids[..i])) + Flat(c) + EntriesOf(LeavesOf(t.kids[i + 1..]))
    ensures Bag(WithKid(t, i, c)) == multiset{t.id} + BagOf(t.kids[..i]) + Bag(c) + BagOf(t.kids[i + 1..])
  {
    var u := WithKid(t, i, c);
    assert u.kids[..i] == t.kids[..i] && u.kids[i + 1..] == t.kids[i + 1..];
    KidCut(u, i);
  }

  lemma WithKidShaped(t: Tree, i: nat, c: Tree)
    requires Shaped(t) && i < |t.kids| && Shaped(c)
    ensures Shaped(WithKid(t, i, c))
  {
    forall x | x in WithKid(t, i, c).kids ensures Shaped(x) { assert x in t.kids || x == c; }
  }

  lemma WithKidBalanced(t: Tree, i: nat, c: Tree)
    requires Balanced(t) && i < |t.kids| && Balanced(c) && Depth(c) == Depth(t.kids[i])
    ensures Balanced(WithKid(t, i, c)) && Depth(WithKid(t, i, c)) == Depth(t)
  {
    var u := WithKid(t, i, c);
    assert t.kids[i] in t.kids && t.kids[0] in t.kids;
    forall x | x in u.kids ensures Balanced(x) && Depth(x) == Depth(u) - 1 { assert x in t.kids || x == c; }
  }

  lemma WithKidOrdered(t: Tree, i: nat, c: Tree, lo: Option<int>, hi: Option<int>)
    requires Ordered(t, lo, hi) && i < |t.kids|
    requires Ordered(c, Lo(t.keys, lo, i), Hi(t.keys, hi, i))
    ensures Ordered(WithKid(t, i, c), lo, hi)
  {
    var u := WithKid(t, i, c);
    forall j | 0 <= j < |u.kids| ensures KidOrdered(u, j, lo, hi) {
      if j != i { assert KidOrdered(t, j, lo, hi); }
    }
  }

  lemma WithKidFilled(d: int, t: Tree, i: nat, c: Tree)
    requires FilledKids(d, t) && i < |t.kids| && Filled(d, c)
    ensures FilledKids(d, WithKid(t, i, c))
  {
    forall x | x in WithKid(t, i, c).kids ensures Filled(d, x) { assert x in t.kids || x == c; }
  }

  /** The chain survives when the new child starts with the leaf the old one started with. */
  lemma WithKidChained(t: Tree, i: nat, c: Tree, nxt: Option<int>)
    requires i < |t.kids| && Chained(Leaves(t), nxt)
    requires Leaves(c)[0].id == Leaves(t.kids[i])[0].id
    requires Chained(Leaves(c), HeadId(LeavesOf(t.kids[i + 1..]), nxt))
    ensures Chained(Leaves(WithKid(t, i, c)), nxt)
    ensures Leaves(WithKid(t, i, c))[0].id == Leaves(t)[0].id
  {
    KidCut(t, i);
    WithKidCut(t, i, c);
    ChainExchange(LeavesOf(t.kids[..i]), Leaves(t.kids[i]), Leaves(c), LeavesOf(t.kids[i + 1..]), nxt);
  }

  lemma KidChained(t: Tree, i: nat, nxt: Option<int>)
    requires i < |t.kids| && Chained(Leaves(t), nxt)
    ensures Chained(Leaves(t.kids[i]), HeadId(LeavesOf(t.kids[i + 1..]), nxt))
  {
    KidCut(t, i);
    ChainExchange(LeavesOf(t.kids[..i]), Leaves(t.kids[i]), Leaves(t.kids[i]), LeavesOf(t.kids[i + 1..]), nxt);
  }

  // -------- bounds of the pairs below a page --------

  lemma {:induction false} FlatWithin(t: Tree, lo: Option<int>, hi: Option<int>)
    requires Shaped(t) && Ordered(t, lo, hi)
    ensures Within(Flat(t), lo, hi) && Sorted(Flat(t))
    decreases t, 1
  {
    if IsLeaf(t) {
      LeavesOne(t);
      assert Flat(t) == Zip(t.keys, t.vals);
    } else {
      FlatPrefixWithin(t, lo, hi, |t.kids|);
      assert t.kids[..|t.kids|] == t.kids;
    }
  }

  /** Two runs of pairs that meet at a separator. */
  lemma RunsMeet(a: seq<Entry>, b: seq<Entry>, lo: Option<int>, key: int, hi: Option<int>)
    requires Within(a, lo, Some(key)) && Within(b, Some(key), hi)
    requires Exceeds(lo, key) && Under(key, hi)
    ensures Within(a + b, lo, hi)
    ensures Sorted(a) && Sorted(b) ==> Sorted(a + b)
  {
    var ab := a + b;
    assert forall i :: 0 <= i < |a| ==> ab[i] == a[i];
    assert forall i :: |a| <= i < |ab| ==> ab[i] == b[i - |a|];
  }

  /** The pairs of the first n children. */
  lemma {:induction false} FlatPrefixWithin(t: Tree, lo: Option<int>, hi: Option<int>, n: nat)
    requires Shaped(t) && Ordered(t, lo, hi) && !IsLeaf(t) && 1 <= n <= |t.kids|
    ensures Within(EntriesOf(LeavesOf(t.kids[..n])), lo, Hi(t.keys, hi, n - 1))
    ensures Sorted(EntriesOf(LeavesOf(t.kids[..n])))
    decreases t, 0, n
  {
    var c := t.kids[n - 1];
    assert c in t.kids && KidOrdered(t, n - 1, lo, hi);
    FlatWithin(c, Lo(t.keys, lo, n - 1), Hi(t.keys, hi, n - 1));
    assert t.kids[..n] == t.kids[..n - 1] + [c];
    LeavesConcat(t.kids[..n - 1], [c]);
    LeavesOne(c);
    EntriesConcat(LeavesOf(t.kids[..n - 1]), Leaves(c));
    if n > 1 {
      FlatPrefixWithin(t, lo, hi, n - 1);
      RunsMeet(EntriesOf(LeavesOf(t.kids[..n - 1])), Flat(c), lo, t.keys[n - 2], Hi(t.keys, hi, n - 1));
    }
  }

  lemma {:induction false} FlatSuffixWithin(t: Tree, lo: Option<int>, hi: Option<int>, n: nat)
    requires Shaped(t) && Ordered(t, lo, hi) && !IsLeaf(t) && n < |t.kids|
    ensures Within(EntriesOf(LeavesOf(t.kids[n..])), Lo(t.keys, lo, n), hi)
    decreases |t.kids| - n
  {
    var c := t.kids[n];
    assert c in t.kids && KidOrdered(t, n, lo, hi);
    FlatWithin(c, Lo(t.keys, lo, n), Hi(t.keys, hi, n));
    assert t.kids[n..] == [c] + t.kids[n + 1..];
    LeavesConcat([c], t.kids[n + 1..]);
    LeavesOne(c);
    EntriesConcat(Leaves(c), LeavesOf(t.kids[n + 1..]));
    if n + 1 < |t.kids| {
      FlatSuffixWithin(t, lo, hi, n + 1);
      RunsMeet(Flat(c), EntriesOf(LeavesOf(t.kids[n + 1..])), Lo(t.keys, lo, n), t.keys[n], hi);
    }
  }

  /** Everything left of child i is below any key of its interval, everything right of it above. */
  lemma KidIsolated(t: Tree, lo: Option<int>, hi: Option<int>, i: nat, k: int)
    requires Shaped(t) && Ordered(t, lo, hi) && i < |t.kids|
    requires AtLeast(Lo(t.keys, lo, i), k) && Under(k, Hi(t.keys, hi, i))
    ensures AllBelow(EntriesOf(LeavesOf(t.kids[..i])), k)
    ensures AllAbove(EntriesOf(LeavesOf(t.kids[i + 1..])), k)
  {
    if i > 0 { FlatPrefixWithin(t, lo, hi, i); }
    if i + 1 < |t.kids| { FlatSuffixWithin(t, lo, hi, i + 1); }
  }
}
