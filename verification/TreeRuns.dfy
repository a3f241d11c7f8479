/** Runs from an empty store on which the code departs from a finite map. */
module BTreeRuns {
  import opened Wrappers
  import opened Entries
  import opened BTree
  import opened BTreeSplit
  import opened BTreeInsert
  import opened BTreeDelete
  import opened BTreeStates
  import opened BTreePages
  import opened BTreeFacts

  // -------- runs step by step --------

  /** All operations of a run from an empty store are carried out, and it ends in a state. */
  ghost predicate Reaches(d: int, ops: seq<Op>, s: State)
    requires d >= 4
  {
    var r := Execute(d, EMPTY, ops);
    r.state == s && |r.answers| == |ops|
  }

  lemma {:induction false} OneMoreStep(d: int, s: State, ops: seq<Op>, op: Op)
    requires d >= 4 && |Execute(d, s, ops).answers| == |ops| && RootReady(Execute(d, s, ops).state)
    ensures var t, r := Execute(d, s, ops), Execute(d, s, ops + [op]);
            var x := Apply(d, t.state, op);
            r.state == x.state && r.answers == t.answers + [x.answer]
    decreases |ops|
  {
    if ops == [] {
      assert [op][1..] == [];
    } else {
      assert (ops + [op])[0] == ops[0] && (ops + [op])[1..] == ops[1..] + [op];
      OneMoreStep(d, Apply(d, s, ops[0]).state, ops[1..], op);
    }
  }

  lemma Step1(d: int, ops: seq<Op>, s: State, op: Op)
    requires d >= 4 && Reaches(d, ops, s) && RootReady(s)
    ensures Reaches(d, ops + [op], Apply(d, s, op).state)
    ensures Execute(d, EMPTY, ops + [op]).answers == Execute(d, EMPTY, ops).answers + [Apply(d, s, op).answer]
  {
    OneMoreStep(d, EMPTY, ops, op);
  }

  // -------- ascending keys --------

  /** A leaf page whose keys point at themselves. */
  function LeafPage(id: int, keys: seq<int>, next: Option<int>): Tree {
    Tree(id, keys, seq(|keys|, i requires 0 <= i < |keys| => (keys[i], 0)), [], next)
  }

  function Put(k: int): Op { InsertOp(k, (k, 0)) }

  /** Insert 1 to n. */
  function Load(n: nat): seq<Op> { seq(n, i => Put(i + 1)) }

  lemma LoadMore(n: nat)
    ensures Load(n + 1) == Load(n) + [Put(n + 1)]
  {
  }

  /** A root above leaves, the last of them with some keys. */
  ghost predicate LeavesBelow(t: Tree, last: Tree) {
    && Shaped(t) && !IsLeaf(t) && SortedKeys(t.keys)
    && (forall c {:trigger c in t.kids} :: c in t.kids ==> IsLeaf(c))
    && t.kids[|t.keys|] == last
  }

  lemma LeavesBelowBalanced(t: Tree, last: Tree)
    requires LeavesBelow(t, last)
    ensures Shaped(t) && Balanced(t) && KidsBalanced(t) && !IsLeaf(t) && Depth(t) == 1
  {
    assert t.kids[0] in t.kids;
  }

  /** A key above all others is appended to the last leaf. */
  lemma AppendKey(d: int, t: Tree, id: int, ks: seq<int>, key: int, a: Alloc)
    requires d >= 4 && LeavesBelow(t, LeafPage(id, ks, None)) && SortedKeys(ks)
    requires |ks| < MaxKeys(d) && (ks != [] ==> ks[|ks| - 1] < key) && (t.keys != [] ==> t.keys[|t.keys| - 1] <= key)
    ensures KidsBalanced(t)
    ensures Insert(d, t, key, (key, 0), a)
         == Inserted(t.(kids := t.kids[|t.keys| := LeafPage(id, ks + [key], None)]), a)
  {
    LeavesBelowBalanced(t, LeafPage(id, ks, None));
    ChildIndexUnique(t.keys, key, |t.keys|);
    AppendToLeaf(id, ks, None, key);
  }

  lemma AppendToLeaf(id: int, ks: seq<int>, next: Option<int>, key: int)
    requires SortedKeys(ks) && (ks != [] ==> ks[|ks| - 1] < key)
    ensures InsertLeaf(LeafPage(id, ks, next), key, (key, 0)) == LeafPage(id, ks + [key], next)
  {
    ChildIndexUnique(ks, key, |ks|);
    forall i | 0 <= i < |ks| ensures ks[i] != key { assert i < |ks| - 1 ==> ks[i] < ks[|ks| - 1]; }
  }

  lemma SplitLeafPage(id: int, ks: seq<int>, p: nat)
    requires |ks| > 0
    ensures Split(LeafPage(id, ks, None), Alloc(None, p))
         == SplitResult(LeafPage(id, ks[..|ks| / 2], Some(p)), LeafPage(p, ks[|ks| / 2..], None), ks[|ks| / 2],
                        Alloc(None, p + 1))
  {
  }

  /** A full last leaf is split, and the key goes to the new one. */
  lemma AppendSplitting(d: int, t: Tree, id: int, ks: seq<int>, key: int, p: nat, m: nat)
    requires d >= 4 && LeavesBelow(t, LeafPage(id, ks, None)) && SortedKeys(ks) && |ks| >= MaxKeys(d)
    requires ks[|ks| - 1] < key && (t.keys != [] ==> t.keys[|t.keys| - 1] <= key) && m == |ks| / 2
    ensures KidsBalanced(t)
    ensures Insert(d, t, key, (key, 0), Alloc(None, p))
         == Inserted(t.(keys := t.keys + [ks[m]],
                        kids := t.kids[..|t.keys|]
                                + [LeafPage(id, ks[..m], Some(p)), LeafPage(p, ks[m..] + [key], None)]),
                     Alloc(None, p + 1))
  {
    hide *;
    var n, c := |t.keys|, LeafPage(id, ks, None);
    LeavesBelowBalanced(t, c);
    var r := SplittingStep(d, t, id, ks, key, p, m);
    AppendToLeaf(p, ks[m..], None, key);
    LeafPageShaped(p, ks[m..], None);
    StepIntoLeaf(d, t, key, (key, 0), Alloc(None, p), r.0, n + 1, Alloc(None, p + 1));
    PutLast(r.0, r.1, LeafPage(p, ks[m..] + [key], None));
  }

  /** The last leaf is split before the descent goes on to its right half. */
  lemma SplittingStep(d: int, t: Tree, id: int, ks: seq<int>, key: int, p: nat, m: nat) returns (r: (Tree, seq<Tree>))
    requires d >= 4 && LeavesBelow(t, LeafPage(id, ks, None)) && SortedKeys(ks) && |ks| >= MaxKeys(d)
    requires ks[|ks| - 1] < key && (t.keys != [] ==> t.keys[|t.keys| - 1] <= key) && m == |ks| / 2
    ensures r.1 == t.kids[..|t.keys|] + [LeafPage(id, ks[..m], Some(p))]
    ensures r.0 == t.(keys := t.keys + [ks[m]], kids := r.1 + [LeafPage(p, ks[m..], None)])
    ensures Descend(d, t, key, Alloc(None, p)) == Step(r.0, |t.keys| + 1, Alloc(None, p + 1))
    ensures |r.1| == |t.keys| + 1 && SortedKeys(ks[m..]) && ks[m..] != [] && ks[m..][|ks[m..]| - 1] < key
  {
    var n, c := |t.keys|, LeafPage(id, ks, None);
    ChildIndexUnique(t.keys, key, n);
    SplitLeafPage(id, ks, p);
    assert ks[m] <= ks[|ks| - 1] < key;
    hide LeafPage, Split;
    var kids := t.kids[..n] + [LeafPage(id, ks[..m], Some(p))];
    var s := Split(c, Alloc(None, p));
    r := (t.(keys := t.keys + [ks[m]], kids := kids + [LeafPage(p, ks[m..], None)]), kids);
    assert SplitKid(t, n, s) == r.0;
  }

  lemma StepIntoLeaf(d: int, t: Tree, key: int, val: Val, a: Alloc, u: Tree, i: nat, b: Alloc)
    requires d >= 4 && Shaped(t) && KidsBalanced(t) && !IsLeaf(t)
    requires Descend(d, t, key, a) == Step(u, i, b) && i < |u.kids| && IsLeaf(u.kids[i]) && Shaped(u.kids[i])
    ensures Insert(d, t, key, val, a) == Inserted(WithKid(u, i, InsertLeaf(u.kids[i], key, val)), b)
  {
    hide Descend, Shaped, WithKid, InsertLeaf;
  }

  lemma PutLast(t: Tree, kids: seq<Tree>, c: Tree)
    requires |t.kids| == |kids| + 1 && t.kids[..|kids|] == kids
    ensures WithKid(t, |kids|, c) == t.(kids := kids + [c])
  {
  }

  // -------- an empty store loaded with ascending keys --------

  /** The numbers from a to b - 1. */
  function Upto(a: int, b: int): seq<int>
    requires a <= b
  {
    seq(b - a, i => a + i)
  }

  function Alone(keys: seq<int>): State { State(Some(LeafPage(0, keys, None)), Alloc(None, 1)) }

  lemma {:induction false} LoadLeaf(d: int, n: nat)
    requires d >= 4 && n <= MaxKeys(d)
    ensures Reaches(d, Load(n), if n == 0 then EMPTY else Alone(Upto(1, n + 1)))
  {
    if n > 0 {
      LoadLeaf(d, n - 1);
      var ks := Upto(1, n);
      var s := if n == 1 then EMPTY else Alone(ks);
      assert Open(s) == Opened(LeafPage(0, ks, None), Alloc(None, 1));
      AppendToLeaf(0, ks, None, n);
      assert ks + [n] == Upto(1, n + 1);
      assert Apply(d, s, Put(n)).state == Alone(Upto(1, n + 1));
      Step1(d, Load(n - 1), s, Put(n));
      LoadMore(n - 1);
    }
  }

  /** The first leaf has been split below a root. */
  function FirstSplit(m: nat, n: int): State
    requires m < n
  {
    State(Some(Tree(2, [m + 1], [], [LeafPage(0, Upto(1, m + 1), Some(1)), LeafPage(1, Upto(m + 1, n + 1), None)],
                    None)),
          Alloc(None, 3))
  }

  /** A put below a root that is no leaf. */
  lemma PutBelow(d: int, s: State, o: Opened, key: int, r: Inserted)
    requires RootReady(s) && d >= 4 && Start(d, s) == o && !IsLeaf(o.tree)
    requires Insert(d, o.tree, key, (key, 0), o.alloc) == r
    ensures Apply(d, s, Put(key)) == StepResult(State(Some(r.tree), r.alloc), Accepted)
  {
    hide Start, Insert;
  }

  lemma RootSplits(d: int, ks: seq<int>, m: nat)
    requires m >= 1 && d == 2 * m + 2 && |ks| == 2 * m + 1
    ensures RootReady(Alone(ks))
    ensures Start(d, Alone(ks))
         == Opened(Tree(2, [ks[m]], [], [LeafPage(0, ks[..m], Some(1)), LeafPage(1, ks[m..], None)], None),
                   Alloc(None, 3))
  {
    SplitLeafPage(0, ks, 1);
    assert IsFull(d, LeafPage(0, ks, None));
    hide LeafPage, Split;
  }

  lemma TwoLeaves(id: int, key: int, l: Tree, r: Tree)
    requires Shaped(l) && Shaped(r) && IsLeaf(l) && IsLeaf(r)
    ensures var t := Tree(id, [key], [], [l, r], None);
            LeavesBelow(t, r) && Balanced(t)
  {
    var t := Tree(id, [key], [], [l, r], None);
    LeavesBelowBalanced(t, r);
  }

  lemma LeafPageShaped(id: int, ks: seq<int>, next: Option<int>)
    ensures Shaped(LeafPage(id, ks, next)) && IsLeaf(LeafPage(id, ks, next))
  {
  }

  lemma CutUpto(m: nat)
    requires m >= 1
    ensures var ks := Upto(1, 2 * m + 2);
            && ks[..m] == Upto(1, m + 1) && ks[m..] == Upto(m + 1, 2 * m + 2) && ks[m] == m + 1
            && Upto(m + 1, 2 * m + 2) + [2 * m + 2] == Upto(m + 1, 2 * m + 3)
            && SortedKeys(ks) && SortedKeys(ks[m..]) && |ks| == 2 * m + 1 && ks[m..][m] == 2 * m + 1
  {
  }

  lemma LoadSplits(d: int, m: nat)
    requires m >= 1 && d == 2 * m + 2
    ensures Reaches(d, Load(d), FirstSplit(m, d)) && RootReady(FirstSplit(m, d))
  {
    hide LeafPage, LeavesBelow, Balanced, Shaped, Insert, Start, Apply, Execute, Load, Alone, Upto, SortedKeys;
    var ks, last := Upto(1, d), Upto(m + 1, d + 1);
    CutUpto(m);
    LoadLeaf(d, d - 1);
    RootSplits(d, ks, m);
    LeafPageShaped(0, ks[..m], Some(1));
    LeafPageShaped(1, ks[m..], None);
    LeafPageShaped(1, last, None);
    var l, r, u := LeafPage(0, ks[..m], Some(1)), LeafPage(1, ks[m..], None), LeafPage(1, last, None);
    var t := Tree(2, [m + 1], [], [l, r], None);
    TwoLeaves(2, m + 1, l, r);
    TwoLeaves(2, m + 1, l, u);
    assert ks[m..][m] == d - 1;
    AppendKey(d, t, 1, ks[m..], d, Alloc(None, 3));
    assert t.kids[1 := u] == [l, u];
    PutBelow(d, Alone(ks), Opened(t, Alloc(None, 3)), d, Inserted(t.(kids := [l, u]), Alloc(None, 3)));
    Step1(d, Load(d - 1), Alone(ks), Put(d));
    LoadMore(d - 1);
  }

  // -------- degree 6: rows of leaves --------

  /** A page above leaves of two consecutive keys each, the last of four. */
  function Row(id: int, b: int, ids: seq<int>): Tree
    requires |ids| >= 2
  {
    var j := |ids| - 1;
    Tree(id, seq(j, i => b + 2 * i + 2), [], seq(|ids|, i requires 0 <= i < |ids| => RowLeaf(b, ids, i)), None)
  }

  function RowLeaf(b: int, ids: seq<int>, i: nat): Tree
    requires i < |ids|
  {
    var k := b + 2 * i;
    if i + 1 < |ids| then LeafPage(ids[i], [k, k + 1], Some(ids[i + 1]))
      else LeafPage(ids[i], [k, k + 1, k + 2, k + 3], None)
  }

  lemma RowBelow(id: int, b: int, ids: seq<int>)
    requires |ids| >= 2
    ensures LeavesBelow(Row(id, b, ids), RowLeaf(b, ids, |ids| - 1))
    ensures Shaped(Row(id, b, ids)) && Balanced(Row(id, b, ids)) && KidsBalanced(Row(id, b, ids))
            && Depth(Row(id, b, ids)) == 1
    ensures |Row(id, b, ids).keys| == |ids| - 1 && !IsLeaf(Row(id, b, ids))
  {
    var t := Row(id, b, ids);
    forall c | c in t.kids ensures Shaped(c) && IsLeaf(c) {
      var i :| 0 <= i < |ids| && t.kids[i] == c;
    }
    LeavesBelowBalanced(t, RowLeaf(b, ids, |ids| - 1));
  }

  /** Two more keys below a page turn it into another, with one more page handed out. */
  ghost predicate GrowsTo(t: Tree, k: int, p: nat, v: Tree) {
    && Shaped(t) && Balanced(t) && KidsBalanced(t) && !IsLeaf(t)
    && (var u := Insert(6, t, k, (k, 0), Alloc(None, p));
        && Shaped(u.tree) && Balanced(u.tree) && KidsBalanced(u.tree) && Depth(u.tree) == Depth(t)
        && |u.tree.keys| == |t.keys| && !IsLeaf(u.tree) && u.alloc == Alloc(None, p)
        && Insert(6, u.tree, k + 1, (k + 1, 0), u.alloc) == Inserted(v, Alloc(None, p + 1)))
  }

  /** Two more keys make one more leaf. */
  lemma RowGrows(id: int, b: int, ids: seq<int>, p: nat)
    requires |ids| >= 2
    ensures GrowsTo(Row(id, b, ids), b + 2 * |ids| + 2, p, Row(id, b, ids + [p]))
  {
    var t, j, k := Row(id, b, ids), |ids| - 1, b + 2 * |ids| + 2;
    var c, i := k - 4, ids[j];
    RowBelow(id, b, ids);
    AppendKey(6, t, i, [c, c + 1, c + 2, c + 3], k, Alloc(None, p));
    assert [c, c + 1, c + 2, c + 3] + [k] == [c, c + 1, c + 2, c + 3, k];
    var full := LeafPage(i, [c, c + 1, c + 2, c + 3, k], None);
    var u := t.(kids := t.kids[j := full]);
    LastLeafChanged(t, RowLeaf(b, ids, j), full);
    AppendSplitting(6, u, i, [c, c + 1, c + 2, c + 3, k], k + 1, p, 2);
    RowRegrouped(id, b, ids, p);
  }

  lemma LastLeafChanged(t: Tree, last: Tree, other: Tree)
    requires LeavesBelow(t, last) && Shaped(other) && IsLeaf(other)
    ensures var u := t.(kids := t.kids[|t.keys| := other]);
            LeavesBelow(u, other) && Balanced(u) && KidsBalanced(u) && Depth(u) == 1
  {
    var u := t.(kids := t.kids[|t.keys| := other]);
    forall c | c in u.kids ensures Shaped(c) && IsLeaf(c) { assert c in t.kids || c == other; }
    LeavesBelowBalanced(u, other);
  }

  lemma RowRegrouped(id: int, b: int, ids: seq<int>, p: nat)
    requires |ids| >= 2
    ensures var t, j := Row(id, b, ids), |ids| - 1;
            var c, i := b + 2 * j, ids[j];
            var ks := [c, c + 1, c + 2, c + 3, c + 4];
            && Row(id, b, ids + [p]).keys == t.keys + [ks[2]]
            && Row(id, b, ids + [p]).kids
               == t.kids[..j] + [LeafPage(i, ks[..2], Some(p)), LeafPage(p, ks[2..] + [c + 5], None)]
  {
    var j, more := |ids| - 1, ids + [p];
    var c := b + 2 * j;
    var ks := [c, c + 1, c + 2, c + 3, c + 4];
    assert ks[..2] == [c, c + 1] && ks[2..] + [c + 5] == [c + 2, c + 3, c + 4, c + 5];
    assert more[j] == ids[j] && more[j + 1] == p;
    forall i | 0 <= i < j ensures RowLeaf(b, more, i) == RowLeaf(b, ids, i) {
      assert more[i] == ids[i] && more[i + 1] == ids[i + 1];
    }
  }

  /** A put into a tree whose root is not full. */
  lemma PutInto(d: int, t: Tree, key: int, a: Alloc)
    requires d >= 4 && Shaped(t) && Balanced(t) && !IsLeaf(t) && !IsFull(d, t)
    ensures KidsBalanced(t)
    ensures var r := Insert(d, t, key, (key, 0), a);
            Apply(d, State(Some(t), a), Put(key)) == StepResult(State(Some(r.tree), r.alloc), Accepted)
  {
    BalancedKids(t);
    PutBelow(d, State(Some(t), a), Opened(t, a), key, Insert(d, t, key, (key, 0), a));
  }

  /** Two more keys into a tree whose root is not full. */
  lemma TwoMore(n: nat, t: Tree, v: Tree, p: nat)
    requires GrowsTo(t, n + 1, p, v) && !IsFull(6, t)
    requires Reaches(6, Load(n), State(Some(t), Alloc(None, p)))
    ensures Reaches(6, Load(n + 2), State(Some(v), Alloc(None, p + 1)))
  {
    hide Insert, Shaped, Balanced, Apply, Load, Execute;
    var u := Insert(6, t, n + 1, (n + 1, 0), Alloc(None, p)).tree;
    PutInto(6, t, n + 1, Alloc(None, p));
    Ready(t, Alloc(None, p));
    Step1(6, Load(n), State(Some(t), Alloc(None, p)), Put(n + 1));
    LoadMore(n);
    PutInto(6, u, n + 2, Alloc(None, p));
    Ready(u, Alloc(None, p));
    Step1(6, Load(n + 1), State(Some(u), Alloc(None, p)), Put(n + 2));
    LoadMore(n + 1);
  }

  lemma Ready(t: Tree, a: Alloc)
    requires Shaped(t) && Balanced(t)
    ensures RootReady(State(Some(t), a))
  {
  }

  function RootIds(j: nat): seq<int> { seq(j + 1, i => if i < 2 then i else i + 1) }

  lemma {:induction false} LoadRow(j: nat)
    requires 1 <= j <= 5
    ensures Reaches(6, Load(2 * j + 4), State(Some(Row(2, 1, RootIds(j))), Alloc(None, j + 2)))
  {
    hide Insert, Row, Execute, Shaped, Balanced, KidsBalanced, Depth, Load;
    if j == 1 {
      FirstRow();
    } else {
      LoadRow(j - 1);
      var t := Row(2, 1, RootIds(j - 1));
      RowBelow(2, 1, RootIds(j - 1));
      RowGrows(2, 1, RootIds(j - 1), j + 1);
      assert RootIds(j) == RootIds(j - 1) + [j + 1];
      TwoMore(2 * j + 2, t, Row(2, 1, RootIds(j)), j + 1);
    }
  }

  lemma FirstRow()
    ensures Reaches(6, Load(6), State(Some(Row(2, 1, RootIds(1))), Alloc(None, 3)))
  {
    hide Execute, Load;
    LoadSplits(6, 2);
    assert Upto(1, 3) == [1, 2] && Upto(3, 7) == [3, 4, 5, 6] && RootIds(1) == [0, 1];
    assert Row(2, 1, [0, 1]).keys == [3];
    assert Row(2, 1, [0, 1]).kids == [LeafPage(0, [1, 2], Some(1)), LeafPage(1, [3, 4, 5, 6], None)];
  }

  // -------- degree 6: three levels --------

  /** The left half of the first full root. */
  function LeftNode(): Tree {
    Tree(2, [3, 5], [], [LeafPage(0, [1, 2], Some(1)), LeafPage(1, [3, 4], Some(3)), LeafPage(3, [5, 6], Some(4))],
         None)
  }

  /** Two rows below a new root. */
  function Tall(ids: seq<int>): Tree
    requires |ids| >= 2
  {
    Tree(8, [7], [], [LeftNode(), Row(7, 7, ids)], None)
  }

  lemma RootRowSplits()
    ensures var t := Row(2, 1, RootIds(5));
            RootReady(State(Some(t), Alloc(None, 7)))
            && Start(6, State(Some(t), Alloc(None, 7))) == Opened(Tall([4, 5, 6]), Alloc(None, 9))
  {
    var ids := RootIds(5);
    assert ids == [0, 1, 3, 4, 5, 6];
    var t := Row(2, 1, ids);
    RowBelow(2, 1, ids);
    assert t.keys == [3, 5, 7, 9, 11];
    assert LeftHalf(t, 7) == LeftNode();
    assert RightHalf(t, 7, None) == Row(7, 7, [4, 5, 6]);
    assert IsFull(6, t);
    hide LeafPage, Row, LeftNode, LeftHalf, RightHalf;
  }

  lemma LeftNodeShaped()
    ensures Shaped(LeftNode()) && Balanced(LeftNode()) && Depth(LeftNode()) == 1 && !IsLeaf(LeftNode())
  {
    var t := LeftNode();
    forall c | c in t.kids ensures Shaped(c) && IsLeaf(c) {}
    LeavesBelowBalanced(t, t.kids[2]);
  }

  lemma TallShaped(c: Tree)
    requires Shaped(c) && Balanced(c) && Depth(c) == 1
    ensures var t := Tree(8, [7], [], [LeftNode(), c], None);
            Shaped(t) && Balanced(t) && KidsBalanced(t) && Depth(t) == 2
  {
    LeftNodeShaped();
    hide LeftNode;
    var t := Tree(8, [7], [], [LeftNode(), c], None);
    assert Depth(t) == 2;
  }

  /** A put goes to the right row as long as it is not full. */
  lemma PutRight(c: Tree, key: int, a: Alloc)
    requires Shaped(c) && Balanced(c) && KidsBalanced(c) && Depth(c) == 1 && !IsFull(6, c) && key >= 7
    ensures var t := Tree(8, [7], [], [LeftNode(), c], None);
            && Shaped(t) && KidsBalanced(t)
            && (var r := Insert(6, c, key, (key, 0), a);
                Insert(6, t, key, (key, 0), a) == Inserted(Tree(8, [7], [], [LeftNode(), r.tree], None), r.alloc))
  {
    TallShaped(c);
    ChildIndexUnique([7], key, 1);
  }

  lemma TallGrows(ids: seq<int>, p: nat)
    requires 3 <= |ids| <= 5
    ensures GrowsTo(Tall(ids), 2 * |ids| + 9, p, Tall(ids + [p])) && !IsFull(6, Tall(ids))
  {
    hide Insert, Row, LeftNode, Shaped, Balanced, KidsBalanced, Depth;
    var c, k := Row(7, 7, ids), 2 * |ids| + 9;
    RowBelow(7, 7, ids);
    RowGrows(7, 7, ids, p);
    TallShaped(c);
    PutRight(c, k, Alloc(None, p));
    var x := Insert(6, c, k, (k, 0), Alloc(None, p)).tree;
    TallShaped(x);
    PutRight(x, k + 1, Alloc(None, p));
  }

  lemma LoadTall()
    ensures Reaches(6, Load(20), State(Some(Tall([4, 5, 6, 9, 10, 11])), Alloc(None, 12)))
    ensures Shaped(Tall([4, 5, 6, 9, 10, 11])) && Balanced(Tall([4, 5, 6, 9, 10, 11]))
  {
    hide Insert, Tall, Execute, Shaped, Balanced, KidsBalanced, Load, Row, Start, Apply;
    LoadRow(5);
    RootRowSplits();
    TallGrows([4, 5, 6], 9);
    var s := State(Some(Row(2, 1, RootIds(5))), Alloc(None, 7));
    var a := Tall([4, 5, 6]);
    var u := Insert(6, a, 15, (15, 0), Alloc(None, 9)).tree;
    NotLeaf([4, 5, 6]);
    PutBelow(6, s, Opened(a, Alloc(None, 9)), 15, Inserted(u, Alloc(None, 9)));
    Step1(6, Load(14), s, Put(15));
    LoadMore(14);
    PutInto(6, u, 16, Alloc(None, 9));
    Ready(u, Alloc(None, 9));
    assert [4, 5, 6] + [9] == [4, 5, 6, 9];
    Step1(6, Load(15), State(Some(u), Alloc(None, 9)), Put(16));
    LoadMore(15);
    TallPair([4, 5, 6, 9], 10, 16);
    assert [4, 5, 6, 9] + [10] == [4, 5, 6, 9, 10];
    TallPair([4, 5, 6, 9, 10], 11, 18);
    assert [4, 5, 6, 9, 10] + [11] == [4, 5, 6, 9, 10, 11];
    TallIsShaped([4, 5, 6, 9, 10, 11]);
  }

  lemma NotLeaf(ids: seq<int>)
    requires |ids| >= 2
    ensures !IsLeaf(Tall(ids))
  {
  }

  lemma TallIsShaped(ids: seq<int>)
    requires |ids| >= 2
    ensures Shaped(Tall(ids)) && Balanced(Tall(ids))
  {
    hide Row, LeftNode;
    RowBelow(7, 7, ids);
    TallShaped(Row(7, 7, ids));
  }

  lemma TallPair(ids: seq<int>, p: nat, n: nat)
    requires 3 <= |ids| <= 5 && n == 2 * |ids| + 8
    requires Reaches(6, Load(n), State(Some(Tall(ids)), Alloc(None, p)))
    ensures Reaches(6, Load(n + 2), State(Some(Tall(ids + [p])), Alloc(None, p + 1)))
  {
    hide Insert, Tall, Execute, Shaped, Balanced, KidsBalanced, IsFull, Load;
    TallGrows(ids, p);
    NotLeaf(ids);
    TwoMore(n, Tall(ids), Tall(ids + [p]), p);
  }

  // -------- departures --------

  /** Fresh keys only, and one deletion: no guard is needed so far. */
  lemma LoadIsFresh(n: nat, ops: seq<Op>)
    requires NoInsertions(ops)
    ensures LoadThenDrain(map[], Load(n) + ops)
  {
    FreshFrom(map[], 0, n, ops);
    assert Load(n) == PutsFrom(0, n);
  }

  function PutsFrom(k: nat, n: nat): seq<Op>
    requires k <= n
  {
    seq(n - k, i => Put(k + i + 1))
  }

  lemma {:induction false} FreshFrom(m: map<int, Val>, k: nat, n: nat, ops: seq<Op>)
    requires k <= n && NoInsertions(ops) && forall x :: x in m ==> x <= k
    ensures LoadThenDrain(m, PutsFrom(k, n) + ops)
    decreases n - k
  {
    var all := PutsFrom(k, n) + ops;
    if k == n {
      assert all == ops;
    } else {
      var op := Put(k + 1);
      FreshFrom(MapAfter(m, op), k + 1, n, ops);
      assert all[0] == op && all[1..] == PutsFrom(k + 1, n) + ops;
    }
  }

  /** After twenty fresh keys and one deletion, the deleted key is inserted again and cannot be found:
      it is stored left of the separator it had become. */
  lemma FreshKeyIsLost(val: Val)
    ensures var ops := Load(20) + [DeleteOp(13)];
            && LoadThenDrain(map[], ops)
            && Execute(6, EMPTY, ops + [FindOp(13), InsertOp(13, val), FindOp(13)]).answers
               == Execute(6, EMPTY, ops).answers + [Got(None), Accepted, Got(None)]
  {
    hide *;
    var ops := Load(20) + [DeleteOp(13)];
    var t := DroppedThirteen();
    FindTwice(ops, t, val);
  }

  /** The separator 13 has outlived its pair. */
  ghost predicate Stale(s: State) {
    && Inv(6, s) && s.root.Some? && s.alloc.free == None && 13 !in Abs(s)
    && s.root.value.keys == [7] && |s.root.value.kids| == 2
    && s.root.value.kids[1].keys == [9, 11, 13, 15, 17] && !IsLeaf(s.root.value.kids[1])
  }

  lemma DroppedThirteen() returns (t: State)
    ensures Reaches(6, Load(20) + [DeleteOp(13)], t) && Stale(t)
    ensures LoadThenDrain(map[], Load(20) + [DeleteOp(13)])
  {
    hide Load, LoadThenDrain, AllAllowed, Tall, Insert, Delete, Find, Execute;
    var ops := Load(20) + [DeleteOp(13)];
    LoadIsFresh(20, [DeleteOp(13)]);
    LoadThenDrainFromEmpty(6, ops);
    LoadTall();
    var s := State(Some(Tall([4, 5, 6, 9, 10, 11])), Alloc(None, 12));
    StaleSeparator(s);
    Step1(6, Load(20), s, DeleteOp(13));
    t := DeleteFrom(6, s, 13).state;
    EndsWithout(Load(20), 13);
  }

  /** A key deleted last is not in the map. */
  lemma EndsWithout(ops: seq<Op>, key: int)
    ensures key !in MapRun(map[], ops + [DeleteOp(key)])
  {
    MapRunSnoc(map[], ops, DeleteOp(key));
  }

  lemma {:induction false} MapRunSnoc(m: map<int, Val>, ops: seq<Op>, op: Op)
    ensures MapRun(m, ops + [op]) == MapAfter(MapRun(m, ops), op)
    decreases |ops|
  {
    if ops == [] {
      assert [op][1..] == [];
    } else {
      assert (ops + [op])[0] == ops[0] && (ops + [op])[1..] == ops[1..] + [op];
      MapRunSnoc(MapAfter(m, ops[0]), ops[1..], op);
    }
  }

  lemma FindTwice(ops: seq<Op>, s: State, val: Val)
    requires Reaches(6, ops, s) && Stale(s)
    ensures Execute(6, EMPTY, ops + [FindOp(13), InsertOp(13, val), FindOp(13)]).answers
         == Execute(6, EMPTY, ops).answers + [Got(None), Accepted, Got(None)]
  {
    hide Execute, Apply, Stale, RootReady;
    LostAgain(s, val);
    var x := Apply(6, s, InsertOp(13, val));
    var ops1 := ops + [FindOp(13)];
    var ops2 := ops1 + [InsertOp(13, val)];
    Step1(6, ops, s, FindOp(13));
    Step1(6, ops1, s, InsertOp(13, val));
    Step1(6, ops2, x.state, FindOp(13));
    assert ops + [FindOp(13), InsertOp(13, val), FindOp(13)] == ops2 + [FindOp(13)];
  }

  /** The separator 13 outlives its pair. */
  lemma StaleSeparator(s: State)
    requires s == State(Some(Tall([4, 5, 6, 9, 10, 11])), Alloc(None, 12))
    ensures RootReady(s) && Open(s).tree == s.root.value
    ensures var t := DeleteFrom(6, s, 13).state;
            && t.root.Some? && t.alloc == Alloc(None, 12) && t.root.value.keys == [7]
            && |t.root.value.kids| == 2 && t.root.value.kids[1].keys == [9, 11, 13, 15, 17]
               && !IsLeaf(t.root.value.kids[1])
  {
    var t, c := Tall([4, 5, 6, 9, 10, 11]), Row(7, 7, [4, 5, 6, 9, 10, 11]);
    TallIsShaped([4, 5, 6, 9, 10, 11]);
    RowWithStaleSeparator();
    ChildIndexUnique([7], 13, 1);
    hide Row, LeftNode, Shaped, Balanced, Delete, DeleteFrom;
    DropPlain(6, t, 1, 13, Delete(6, c, 13).tree, s.alloc);
    assert t.kids == [LeftNode(), c];
  }

  lemma RowWithStaleSeparator()
    ensures var c := Row(7, 7, [4, 5, 6, 9, 10, 11]);
            && Shaped(c) && Balanced(c) && !IsLeaf(c) && !IsLacking(6, c)
            && (var x := Delete(6, c, 13);
                x.tree.keys == [9, 11, 13, 15, 17] && x.freed == [] && !IsLeaf(x.tree))
  {
    var ids := [4, 5, 6, 9, 10, 11];
    var c := Row(7, 7, ids);
    RowBelow(7, 7, ids);
    assert c.keys == [9, 11, 13, 15, 17] && c.kids[3] == LeafPage(9, [13, 14], Some(10));
    ChildIndexUnique(c.keys, 13, 3);
    LeafIsBalanced(c.kids[3]);
    LeafPageShaped(9, [13, 14], Some(10));
    hide Row, LeafPage, Shaped, Balanced;
    DropPlain(6, c, 3, 13, Delete(6, c.kids[3], 13).tree, Alloc(None, 12));
  }

  /** What happens to a key that is not stored but separates the last child's halves. */
  lemma LostAgain(s: State, val: Val)
    requires Stale(s)
    ensures RootReady(s) && Apply(6, s, FindOp(13)) == StepResult(s, Got(None))
    ensures var x := Apply(6, s, InsertOp(13, val));
            && x.answer == Accepted && RootReady(x.state) && Apply(6, x.state, FindOp(13)).answer == Got(None)
  {
    LookupIsMapLookup(6, s, 13);
    hide Inv, Abs, Insert, Find, Shaped, Balanced, KidsBalanced, Ordered;
    var t, a := s.root.value, s.alloc;
    StaleGoesLeft(s);
    SeparatorHidesPair(6, t, 13, val, a, None, None);
    InsertShape(6, t, 13, val, a);
    var u := Insert(6, t, 13, val, a);
    assert Apply(6, s, InsertOp(13, val)).state == State(Some(u.tree), u.alloc);
  }

  lemma StaleGoesLeft(s: State)
    requires Stale(s)
    ensures var t := s.root.value;
            && Shaped(t) && Balanced(t) && KidsBalanced(t) && Ordered(t, None, None) && !IsLeaf(t) && !IsFull(6, t)
            && MeetsItsSeparator(6, t, 13, s.alloc) && KeepsHalves(6, t, 13, s.alloc)
  {
    hide Ordered, FilledKids, Chained, Distinct, Leaves;
    var t := s.root.value;
    ChildIndexUnique([7], 13, 1);
    BalancedKids(t);
  }

  // -------- two leaves --------

  function Two(a: seq<int>, b: seq<int>): Tree {
    Tree(2, [3], [], [LeafPage(0, a, Some(1)), LeafPage(1, b, None)], None)
  }

  lemma TwoShaped(a: seq<int>, b: seq<int>)
    ensures var t := Two(a, b);
            LeavesBelow(t, LeafPage(1, b, None)) && Shaped(t) && Balanced(t) && !IsLeaf(t) && KidsBalanced(t)
  {
    LeafPageShaped(0, a, Some(1));
    LeafPageShaped(1, b, None);
    TwoLeaves(2, 3, LeafPage(0, a, Some(1)), LeafPage(1, b, None));
    BalancedKids(Two(a, b));
  }

  lemma LoadTwo()
    ensures Reaches(6, Load(6), State(Some(Two([1, 2], [3, 4, 5, 6])), Alloc(None, 3)))
  {
    hide Execute, Load;
    LoadSplits(6, 2);
    assert Upto(1, 3) == [1, 2] && Upto(3, 7) == [3, 4, 5, 6];
  }

  lemma LoadCrowded()
    ensures Reaches(6, Load(7), State(Some(Two([1, 2], [3, 4, 5, 6, 7])), Alloc(None, 3)))
  {
    hide Execute, Load, Insert, Shaped, Balanced, Apply;
    LoadTwo();
    var t, a := Two([1, 2], [3, 4, 5, 6]), Alloc(None, 3);
    TwoShaped([1, 2], [3, 4, 5, 6]);
    AppendKey(6, t, 1, [3, 4, 5, 6], 7, a);
    assert [3, 4, 5, 6] + [7] == [3, 4, 5, 6, 7];
    assert t.kids[1 := LeafPage(1, [3, 4, 5, 6, 7], None)] == Two([1, 2], [3, 4, 5, 6, 7]).kids;
    PutInto(6, t, 7, a);
    Ready(t, a);
    Step1(6, Load(6), State(Some(t), a), Put(7));
    LoadMore(6);
  }

  /** The split of the crowded leaf promotes 5. */
  lemma CrowdedStep()
    ensures var t, a := Two([1, 2], [3, 4, 5, 6, 7]), Alloc(None, 3);
            && Shaped(t) && KidsBalanced(t) && NeedsSplit(6, t, 5) && ChildIndex(t.keys, 5) == 1 && Promoted(t, 5) == 5
            && (var s := Descend(6, t, 5, a);
                && s.index == 1 && s.tree.keys == [3, 5]
                && s.tree.kids == [LeafPage(0, [1, 2], Some(1)), LeafPage(1, [3, 4], Some(3)),
                                   LeafPage(3, [5, 6, 7], None)])
  {
    var ks := [3, 4, 5, 6, 7];
    var t, a := Two([1, 2], ks), Alloc(None, 3);
    TwoShaped([1, 2], ks);
    ChildIndexUnique([3], 5, 1);
    SplitLeafPage(1, ks, 3);
    assert ks[..2] == [3, 4] && ks[2..] == [5, 6, 7] && t.kids[1].keys == ks;
    hide LeafPage, Split;
    assert Descend(6, t, 5, a).tree.kids == [t.kids[0], Split(t.kids[1], a).left, Split(t.kids[1], a).right];
  }

  lemma CrowdedInsert(val: Val)
    ensures var t, a := Two([1, 2], [3, 4, 5, 6, 7]), Alloc(None, 3);
            && Shaped(t) && KidsBalanced(t)
            && (var u := Insert(6, t, 5, val, a).tree;
                |u.kids| == 3 && u.kids[1].keys == [3, 4, 5] && u.kids[2].keys == [5, 6, 7])
  {
    var t, a := Two([1, 2], [3, 4, 5, 6, 7]), Alloc(None, 3);
    TwoShaped([1, 2], [3, 4, 5, 6, 7]);
    CrowdedStep();
    var c := LeafPage(1, [3, 4], Some(3));
    LeafPageShaped(1, [3, 4], Some(3));
    ChildIndexUnique([3, 4], 5, 2);
    assert InsertLeaf(c, 5, val).keys == [3, 4, 5];
    assert LeafPage(3, [5, 6, 7], None).keys == [5, 6, 7];
    hide Descend, LeafPage, Two;
    var s := Descend(6, t, 5, a);
    assert Insert(6, t, 5, val, a) == Inserted(WithKid(s.tree, 1, InsertLeaf(c, 5, val)), s.alloc);
  }

  /** A duplicate of the separator a split promotes is stored a second time, to its left. */
  lemma DuplicateIsStoredTwice(val: Val)
    ensures var ops := Load(7) + [InsertOp(5, val)];
            var r := Execute(6, EMPTY, ops);
            && |r.answers| == |ops| && r.answers[|ops| - 1] == Accepted && r.state.root.Some?
            && (var u := r.state.root.value;
                |u.kids| == 3 && u.kids[1].keys == [3, 4, 5] && u.kids[2].keys == [5, 6, 7])
  {
    hide Insert, Execute, Two, Load, Shaped, Balanced;
    var t, a := Two([1, 2], [3, 4, 5, 6, 7]), Alloc(None, 3);
    TwoShaped([1, 2], [3, 4, 5, 6, 7]);
    LoadCrowded();
    CrowdedInsert(val);
    Ready(t, a);
    RootHasRoom([1, 2], [3, 4, 5, 6, 7], 5, val, a);
    Step1(6, Load(7), State(Some(t), a), InsertOp(5, val));
  }

  lemma RootHasRoom(a: seq<int>, b: seq<int>, key: int, val: Val, free: Alloc)
    requires Shaped(Two(a, b)) && Balanced(Two(a, b)) && KidsBalanced(Two(a, b))
    ensures var r := Insert(6, Two(a, b), key, val, free);
            Apply(6, State(Some(Two(a, b)), free), InsertOp(key, val))
              == StepResult(State(Some(r.tree), r.alloc), Accepted)
  {
    hide Insert, Shaped, Balanced;
    assert !IsLeaf(Two(a, b)) && !IsFull(6, Two(a, b));
  }

  // -------- a root that collapses --------

  lemma DropFromLeaf(id: int, ks: seq<int>, next: Option<int>, q: nat)
    requires SortedKeys(ks) && q < |ks|
    ensures DeleteLeaf(LeafPage(id, ks, next), ks[q])
         == Deleted(LeafPage(id, ks[..q] + ks[q + 1..], next), Some((ks[q], 0)), [])
  {
    ChildIndexUnique(ks, ks[q], q + 1);
  }

  /** Where nothing is repaired a deletion changes one child. */
  lemma DropPlain(d: int, t: Tree, i: nat, key: int, c: Tree, free: Alloc)
    requires Shaped(t) && Balanced(t) && d >= 4 && i < |t.kids| && |t.keys| > 0 && !IsLeaf(t)
    requires ChildIndex(t.keys, key) == i && !IsLacking(d, t.kids[i])
    requires Shaped(t.kids[i]) && Balanced(t.kids[i])
    requires Delete(d, t.kids[i], key).tree == c && Delete(d, t.kids[i], key).freed == []
    ensures Delete(d, t, key).tree == WithKid(t, i, c) && Delete(d, t, key).freed == []
    ensures DeleteFrom(d, State(Some(t), free), key).state == State(Some(WithKid(t, i, c)), free)
  {
    assert Repair(d, t, i) == Repaired(t, i, []);
    hide Repair, Shaped, Balanced;
  }

  /** Deleting from a leaf that has two keys at least changes this leaf only. */
  lemma DropRight(a: seq<int>, b: seq<int>, q: nat, free: Alloc)
    requires SortedKeys(b) && q < |b| && |b| >= 2 && b[q] >= 3
    ensures RootReady(State(Some(Two(a, b)), free))
    ensures DeleteFrom(6, State(Some(Two(a, b)), free), b[q]).state == State(Some(Two(a, b[..q] + b[q + 1..])), free)
  {
    hide DeleteFrom;
    var t, c := Two(a, b), LeafPage(1, b[..q] + b[q + 1..], None);
    TwoShaped(a, b);
    ChildIndexUnique([3], b[q], 1);
    DropFromLeaf(1, b, None, q);
    DropPlain(6, t, 1, b[q], c, free);
    assert WithKid(t, 1, c) == Two(a, b[..q] + b[q + 1..]);
  }

  lemma DropLeft(a: seq<int>, b: seq<int>, q: nat, free: Alloc)
    requires SortedKeys(a) && q < |a| && |a| >= 2 && a[q] < 3
    ensures RootReady(State(Some(Two(a, b)), free))
    ensures DeleteFrom(6, State(Some(Two(a, b)), free), a[q]).state == State(Some(Two(a[..q] + a[q + 1..], b)), free)
  {
    hide DeleteFrom;
    var t, c := Two(a, b), LeafPage(0, a[..q] + a[q + 1..], Some(1));
    TwoShaped(a, b);
    ChildIndexUnique([3], a[q], 0);
    DropFromLeaf(0, a, Some(1), q);
    DropPlain(6, t, 0, a[q], c, free);
    assert WithKid(t, 0, c) == Two(a[..q] + a[q + 1..], b);
  }

  /** The repair that merges the two leaves. */
  lemma RepairMerges()
    ensures var t := Two([2], [3, 4]);
            && Shaped(t) && Balanced(t) && !IsLeaf(t) && ChildIndex(t.keys, 2) == 0
            && Repair(6, t, 0) == Repaired(Tree(2, [], [], [LeafPage(0, [2, 3, 4], None)], None), 0,
                                           [FreePage(1, None)])
  {
    var t := Two([2], [3, 4]);
    TwoShaped([2], [3, 4]);
    ChildIndexUnique([3], 2, 0);
    assert [2] + [3, 4] == [2, 3, 4];
    assert Join(t.kids[0], 3, t.kids[1]) == LeafPage(0, [2, 3, 4], None);
  }

  lemma DropRepaired(d: int, t: Tree, i: nat, key: int, r: Repaired, x: Deleted)
    requires Shaped(t) && Balanced(t) && d >= 4 && !IsLeaf(t) && i < |t.kids| && ChildIndex(t.keys, key) == i
    requires Repair(d, t, i) == r && r.index < |r.tree.kids|
    requires Shaped(r.tree.kids[r.index]) && Balanced(r.tree.kids[r.index])
    requires Delete(d, r.tree.kids[r.index], key) == x
    ensures Delete(d, t, key) == Deleted(WithKid(r.tree, r.index, x.tree), x.value, r.freed + x.freed)
  {
    hide Repair, Shaped, Balanced, WithKid;
  }

  lemma DropRoot(d: int, t: Tree, key: int, u: Tree, a: Alloc)
    requires Shaped(t) && Balanced(t) && d >= 4
    requires Delete(d, t, key).tree.keys == [] && Delete(d, t, key).tree.kids == [u]
    ensures RootReady(State(Some(t), a))
    ensures var x := Delete(d, t, key).tree;
            DeleteFrom(d, State(Some(t), a), key).state == State(Some(u), Alloc(Some(FreePage(x.id, x.next)), a.pages))
  {
    hide Delete, Shaped, Balanced;
  }

  /** The merge of the two leaves, and the root that goes with it. */
  lemma DropMerging()
    ensures var s := State(Some(Two([2], [3, 4])), Alloc(None, 3));
            && RootReady(s)
            && DeleteFrom(6, s, 2).state == State(Some(LeafPage(0, [3, 4], None)), Alloc(Some(FreePage(2, None)), 3))
  {
    hide LeafPage, Repair, Join, Two, Shaped, Balanced, DeleteFrom, RootReady;
    RepairMerges();
    var t, m, u := Two([2], [3, 4]), LeafPage(0, [2, 3, 4], None), LeafPage(0, [3, 4], None);
    LeafPageShaped(0, [2, 3, 4], None);
    LeafIsBalanced(m);
    DropFromLeaf(0, [2, 3, 4], None, 0);
    assert [2, 3, 4][..0] + [2, 3, 4][1..] == [3, 4] && [2, 3, 4][0] == 2;
    DropRepaired(6, t, 0, 2, Repair(6, t, 0), Deleted(u, Some((2, 0)), []));
    DropRoot(6, t, 2, u, Alloc(None, 3));
  }

  lemma LeafIsBalanced(t: Tree)
    requires IsLeaf(t)
    ensures Balanced(t)
  {
  }

  function Drops(): seq<Op> { [DeleteOp(6), DeleteOp(5), DeleteOp(1), DeleteOp(2)] }

  lemma Drop(ops: seq<Op>, s: State, key: int)
    requires Reaches(6, ops, s) && RootReady(s)
    ensures Reaches(6, ops + [DeleteOp(key)], DeleteFrom(6, s, key).state)
  {
    Step1(6, ops, s, DeleteOp(key));
  }

  /** Six keys go in and four come out: the two leaves and the root become one leaf again. */
  lemma LoadAndCollapse()
    ensures Reaches(6, Load(6) + Drops(), State(Some(LeafPage(0, [3, 4], None)), Alloc(Some(FreePage(2, None)), 3)))
  {
    hide Execute, Load, DeleteFrom, RootReady, LeafPage, Two, Reaches;
    LoadTwo();
    var a, ops := Alloc(None, 3), Load(6);
    DropRight([1, 2], [3, 4, 5, 6], 3, a);
    assert [3, 4, 5, 6][..3] + [3, 4, 5, 6][4..] == [3, 4, 5];
    Drop(ops, State(Some(Two([1, 2], [3, 4, 5, 6])), a), 6);
    DropRight([1, 2], [3, 4, 5], 2, a);
    assert [3, 4, 5][..2] + [3, 4, 5][3..] == [3, 4];
    Drop(ops + [DeleteOp(6)], State(Some(Two([1, 2], [3, 4, 5])), a), 5);
    DropLeft([1, 2], [3, 4], 0, a);
    assert [1, 2][..0] + [1, 2][1..] == [2];
    Drop(ops + [DeleteOp(6)] + [DeleteOp(5)], State(Some(Two([1, 2], [3, 4])), a), 1);
    DropMerging();
    Drop(ops + [DeleteOp(6)] + [DeleteOp(5)] + [DeleteOp(1)], State(Some(Two([2], [3, 4])), a), 2);
    assert ops + [DeleteOp(6)] + [DeleteOp(5)] + [DeleteOp(1)] + [DeleteOp(2)] == ops + Drops();
  }

  /** The last of these deletions gives back two pages, and one of them is lost for good. */
  lemma DeletionLosesAPage()
    ensures var ops := Load(6) + Drops();
            && SafeRun(6, EMPTY, ops) && LostInRun(6, EMPTY, ops) == multiset{1}
            && Execute(6, EMPTY, ops).state.alloc == Alloc(Some(FreePage(2, None)), 3)
            && !NoPageLost(Execute(6, EMPTY, ops).state)
  {
    hide Execute, Load, LoadThenDrain, SafeRun, LostInRun, KeepsPages;
    var ops := Load(6) + Drops();
    LoadAndCollapse();
    LoadIsFresh(6, Drops());
    LoadThenDrainFromEmpty(6, ops);
    EmptyInv(6);
    LoadThenDrainIsSafe(6, EMPTY, ops);
    RunFromEmptyKeepsBooks(6, ops);
    LostIsOne(LostInRun(6, EMPTY, ops));
  }

  lemma LostIsOne(lost: multiset<int>)
    ensures var s := State(Some(LeafPage(0, [3, 4], None)), Alloc(Some(FreePage(2, None)), 3));
            Books(s, lost) ==> lost == multiset{1} && !NoPageLost(s)
  {
    var s := State(Some(LeafPage(0, [3, 4], None)), Alloc(Some(FreePage(2, None)), 3));
    assert Bag(s.root.value) == multiset{0} + BagOf([]);
    RangeOne(0);
    RangeOne(1);
    RangeOne(2);
    RangeSplit(0, 1, 3);
    RangeSplit(1, 2, 3);
    assert Range(0, 3) == multiset{0, 1, 2};
    if Books(s, lost) { assert lost == multiset{0, 1, 2} - multiset{0, 2}; }
  }

  // -------- a page that is used again --------

  function Reused(keys: seq<int>): State {
    State(Some(LeafPage(0, keys, None)), Alloc(Some(FreePage(2, None)), 3))
  }

  lemma PutAlone(ks: seq<int>, key: int)
    requires SortedKeys(ks) && 0 < |ks| < 5 && ks[|ks| - 1] < key
    ensures RootReady(Reused(ks)) && Apply(6, Reused(ks), Put(key)) == StepResult(Reused(ks + [key]), Accepted)
  {
    AppendToLeaf(0, ks, None, key);
    assert key !in ks;
  }

  function Refills(): seq<Op> { Load(6) + Drops() + [Put(5), Put(6), Put(7)] }

  lemma LoadReused()
    ensures Reaches(6, Refills(), Reused([3, 4, 5, 6, 7]))
  {
    hide Execute, Load, Apply, RootReady;
    LoadAndCollapse();
    var ops := Load(6) + Drops();
    PutAlone([3, 4], 5);
    assert [3, 4] + [5] == [3, 4, 5];
    Step1(6, ops, Reused([3, 4]), Put(5));
    PutAlone([3, 4, 5], 6);
    assert [3, 4, 5] + [6] == [3, 4, 5, 6];
    Step1(6, ops + [Put(5)], Reused([3, 4, 5]), Put(6));
    PutAlone([3, 4, 5, 6], 7);
    assert [3, 4, 5, 6] + [7] == [3, 4, 5, 6, 7];
    Step1(6, ops + [Put(5)] + [Put(6)], Reused([3, 4, 5, 6]), Put(7));
    assert ops + [Put(5)] + [Put(6)] + [Put(7)] == Refills();
  }

  lemma ReusedSplits(val: Val)
    ensures var s := Reused([3, 4, 5, 6, 7]);
            && RootReady(s) && !SafeInsert(6, s, 8)
            && (var x := Apply(6, s, InsertOp(8, val));
                && x.answer == Accepted && x.state.root.Some? && x.state.root.value.keys == [5]
                && |x.state.root.value.kids| == 2 && x.state.root.value.kids[0].keys == [3, 4]
                && x.state.root.value.kids[1].keys == [8])
  {
    var t, a := LeafPage(0, [3, 4, 5, 6, 7], None), Alloc(Some(FreePage(2, None)), 3);
    var p := Split(t, a);
    assert p.left.keys == [3, 4] && p.right == BlankPage(2, None) && p.key == 5 && p.alloc == Alloc(None, 3);
    GrowShape(6, t, a);
    assert IsLeaf(p.left) && Shaped(p.left) && IsFull(6, t);
    hide LeafPage, Split;
    var g := Grow(6, t, a);
    assert g == Opened(Tree(3, [5], [], [p.left, p.right], None), Alloc(None, 4));
    BlankTakesKey(p.left, val);
  }

  lemma BlankTakesKey(l: Tree, val: Val)
    requires Shaped(l) && IsLeaf(l)
    ensures var t := Tree(3, [5], [], [l, BlankPage(2, None)], None);
            && Shaped(t) && KidsBalanced(t) && !IsLeaf(t)
            && Insert(6, t, 8, val, Alloc(None, 4)).tree.keys == [5]
            && |Insert(6, t, 8, val, Alloc(None, 4)).tree.kids| == 2
            && Insert(6, t, 8, val, Alloc(None, 4)).tree.kids[0] == l
            && Insert(6, t, 8, val, Alloc(None, 4)).tree.kids[1].keys == [8]
  {
    var t, b := Tree(3, [5], [], [l, BlankPage(2, None)], None), BlankPage(2, None);
    TwoLeaves(3, 5, l, b);
    BalancedKids(t);
    ChildIndexUnique([5], 8, 1);
    ChildIndexUnique([], 8, 0);
    assert InsertLeaf(b, 8, val).keys == [8];
    assert Descend(6, t, 8, Alloc(None, 4)) == Step(t, 1, Alloc(None, 4));
  }

  /** Splitting into a reused page drops the right half: 5, 6 and 7 were stored and are gone. */
  lemma ReuseDropsHalf(val: Val)
    ensures var r := Execute(6, EMPTY, Refills());
            && |r.answers| == |Refills()| && r.state.root.Some? && r.state.root.value.keys == [3, 4, 5, 6, 7]
    ensures var ops := Refills() + [InsertOp(8, val)];
            var r := Execute(6, EMPTY, ops);
            && |r.answers| == |ops| && r.answers[|ops| - 1] == Accepted && r.state.root.Some?
            && (var u := r.state.root.value;
                |u.kids| == 2 && u.keys == [5] && u.kids[0].keys == [3, 4] && u.kids[1].keys == [8])
  {
    hide Execute, Refills, Apply;
    LoadReused();
    ReusedSplits(val);
    Step1(6, Refills(), Reused([3, 4, 5, 6, 7]), InsertOp(8, val));
  }

  // -------- degree 4 --------

  function FourFirst(): Tree { LeafPage(0, [1], Some(1)) }

  function FourSecond(): Tree { LeafPage(1, [2], Some(3)) }

  function FourFlat(): Tree {
    Tree(2, [2, 3, 4], [], [FourFirst(), FourSecond(), LeafPage(3, [3], Some(4)), LeafPage(4, [4, 5, 6], None)], None)
  }

  function FourLeft(first: seq<int>): Tree { Tree(2, [2], [], [LeafPage(0, first, Some(1)), FourSecond()], None) }

  function FourRight(): Tree {
    Tree(5, [4, 5], [], [LeafPage(3, [3], Some(4)), LeafPage(4, [4], Some(7)), LeafPage(7, [5, 6, 7], None)], None)
  }

  function FourTall(left: Tree): Tree { Tree(6, [3], [], [left, FourRight()], None) }

  lemma LeavesGiveShape(t: Tree)
    requires !IsLeaf(t) && t.vals == [] && |t.kids| == |t.keys| + 1 && SortedKeys(t.keys)
    requires forall c {:trigger c in t.kids} :: c in t.kids ==> IsLeaf(c) && |c.keys| == |c.vals|
    ensures LeavesBelow(t, t.kids[|t.keys|]) && Shaped(t) && Balanced(t) && KidsBalanced(t) && Depth(t) == 1
  {
    LeavesBelowBalanced(t, t.kids[|t.keys|]);
  }

  function FourEarly(): Tree { Tree(2, [2], [], [FourFirst(), LeafPage(1, [2, 3, 4], None)], None) }

  function FourMiddle(): Tree {
    Tree(2, [2, 3], [], [FourFirst(), FourSecond(), LeafPage(3, [3, 4, 5], None)], None)
  }

  lemma FourFifth()
    ensures var t := FourEarly();
            && Shaped(t) && Balanced(t) && KidsBalanced(t) && !IsLeaf(t) && !IsFull(4, t)
            && Insert(4, t, 5, (5, 0), Alloc(None, 3)) == Inserted(FourMiddle(), Alloc(None, 4))
  {
    var t := FourEarly();
    LeavesGiveShape(t);
    AppendSplitting(4, t, 1, [2, 3, 4], 5, 3, 1);
    assert [2, 3, 4][..1] == [2] && [2, 3, 4][1..] + [5] == [3, 4, 5];
    assert t.kids[..1] == [FourFirst()];
    hide Insert, LeafPage, Shaped, Balanced, KidsBalanced;
  }

  lemma FourSixth()
    ensures var t := FourMiddle();
            && Shaped(t) && Balanced(t) && KidsBalanced(t) && !IsLeaf(t) && !IsFull(4, t)
            && Insert(4, t, 6, (6, 0), Alloc(None, 4)) == Inserted(FourFlat(), Alloc(None, 5))
  {
    var t := FourMiddle();
    LeavesGiveShape(t);
    AppendSplitting(4, t, 3, [3, 4, 5], 6, 4, 1);
    assert [3, 4, 5][..1] == [3] && [3, 4, 5][1..] + [6] == [4, 5, 6];
    assert t.kids[..2] == [FourFirst(), FourSecond()];
    hide Insert, LeafPage, Shaped, Balanced, KidsBalanced;
  }

  lemma LoadFour()
    ensures Reaches(4, Load(6), State(Some(FourFlat()), Alloc(None, 5)))
  {
    hide Execute, Load, Insert, Apply, Shaped, Balanced, KidsBalanced, FourMiddle, FourFlat, IsLeaf, IsFull;
    LoadSplits(4, 1);
    assert Upto(1, 2) == [1] && Upto(2, 5) == [2, 3, 4];
    FourFifth();
    PutInto(4, FourEarly(), 5, Alloc(None, 3));
    Step1(4, Load(4), State(Some(FourEarly()), Alloc(None, 3)), Put(5));
    LoadMore(4);
    FourSixth();
    Ready(FourMiddle(), Alloc(None, 4));
    PutInto(4, FourMiddle(), 6, Alloc(None, 4));
    Step1(4, Load(5), State(Some(FourMiddle()), Alloc(None, 4)), Put(6));
    LoadMore(5);
  }

  function FourNarrow(): Tree {
    Tree(5, [4], [], [LeafPage(3, [3], Some(4)), LeafPage(4, [4, 5, 6], None)], None)
  }

  lemma FourRootSplits()
    ensures var s := State(Some(FourFlat()), Alloc(None, 5));
            && RootReady(s)
            && Start(4, s) == Opened(Tree(6, [3], [], [FourLeft([1]), FourNarrow()], None), Alloc(None, 7))
  {
    var t := FourFlat();
    LeavesGiveShape(t);
    assert IsFull(4, t);
    assert LeftHalf(t, 5) == FourLeft([1]);
    assert RightHalf(t, 5, None) == FourNarrow();
    hide LeafPage, FourFlat, FourLeft, FourNarrow, LeftHalf, RightHalf;
  }

  lemma FourTallShaped(l: Tree, r: Tree)
    requires Shaped(l) && Shaped(r) && Balanced(l) && Balanced(r) && Depth(l) == 1 && Depth(r) == 1
    ensures var t := Tree(6, [3], [], [l, r], None);
            Shaped(t) && Balanced(t) && KidsBalanced(t) && !IsLeaf(t)
  {
    assert Depth(Tree(6, [3], [], [l, r], None)) == 2;
  }

  lemma FourNarrowGrows()
    ensures var t := FourNarrow();
            && Shaped(t) && Balanced(t) && KidsBalanced(t) && Depth(t) == 1 && !IsFull(4, t)
            && Insert(4, t, 7, (7, 0), Alloc(None, 7)) == Inserted(FourRight(), Alloc(None, 8))
  {
    var t := FourNarrow();
    LeavesGiveShape(t);
    AppendSplitting(4, t, 4, [4, 5, 6], 7, 7, 1);
    assert [4, 5, 6][..1] == [4] && [4, 5, 6][1..] + [7] == [5, 6, 7];
    assert t.kids[..1] == [LeafPage(3, [3], Some(4))];
    hide Insert, LeafPage, Shaped, Balanced, KidsBalanced;
  }

  lemma FourSidesShaped(first: seq<int>)
    ensures var l, r := FourLeft(first), FourRight();
            Shaped(l) && Shaped(r) && Balanced(l) && Balanced(r) && Depth(l) == 1 && Depth(r) == 1
    ensures var t := FourTall(FourLeft(first));
            Shaped(t) && Balanced(t) && KidsBalanced(t) && !IsLeaf(t)
  {
    LeavesGiveShape(FourLeft(first));
    LeavesGiveShape(FourRight());
    hide FourLeft, FourRight;
    FourTallShaped(FourLeft(first), FourRight());
  }

  /** A put below the second child of the root. */
  lemma PutUnderSecond(l: Tree, r: Tree, key: int, a: Alloc)
    requires Shaped(l) && Shaped(r) && Balanced(l) && Balanced(r) && Depth(l) == 1 && Depth(r) == 1
    requires KidsBalanced(r) && key >= 3 && !IsFull(4, r)
    ensures var t := Tree(6, [3], [], [l, r], None);
            && Shaped(t) && KidsBalanced(t)
            && (var x := Insert(4, r, key, (key, 0), a);
                Insert(4, t, key, (key, 0), a) == Inserted(Tree(6, [3], [], [l, x.tree], None), x.alloc))
  {
    FourTallShaped(l, r);
    ChildIndexUnique([3], key, 1);
  }

  lemma LoadFourTall()
    ensures Reaches(4, Load(7), State(Some(FourTall(FourLeft([1]))), Alloc(None, 8)))
  {
    hide Execute, Load, Insert, Apply, Start, RootReady, Shaped, Balanced, KidsBalanced, FourFlat, FourRight,
      FourNarrow, FourLeft, IsFull;
    LoadFour();
    FourRootSplits();
    FourNarrowGrows();
    FourSidesShaped([1]);
    FourTallShaped(FourLeft([1]), FourNarrow());
    PutUnderSecond(FourLeft([1]), FourNarrow(), 7, Alloc(None, 7));
    var s, t := State(Some(FourFlat()), Alloc(None, 5)), Tree(6, [3], [], [FourLeft([1]), FourNarrow()], None);
    PutBelow(4, s, Opened(t, Alloc(None, 7)), 7, Inserted(FourTall(FourLeft([1])), Alloc(None, 8)));
    Step1(4, Load(6), s, Put(7));
    LoadMore(6);
  }

  lemma FourDropsFirst()
    ensures var l := FourLeft([1]);
            && Shaped(l) && Balanced(l)
            && Delete(4, l, 1).tree == FourLeft([]) && Delete(4, l, 1).freed == []
  {
    var t, c := FourLeft([1]), LeafPage(0, [], Some(1));
    FourSidesShaped([1]);
    ChildIndexUnique([2], 1, 0);
    DropFromLeaf(0, [1], Some(1), 0);
    assert [1][..0] + [1][1..] == [];
    LeafIsBalanced(t.kids[0]);
    LeafPageShaped(0, [1], Some(1));
    assert !IsLacking(4, t.kids[0]) && !IsLeaf(t) && WithKid(t, 0, c) == FourLeft([]);
    assert Delete(4, t.kids[0], 1) == DeleteLeaf(t.kids[0], 1);
    hide *;
    DropPlain(4, t, 0, 1, c, Alloc(None, 8));
  }

  /** The second deletion merges the two leaves, and nothing is left to separate. */
  lemma FourDropsAgain()
    ensures var l := FourLeft([]);
            && Shaped(l) && Balanced(l)
            && Delete(4, l, 1).tree.keys == [] && !IsLeaf(Delete(4, l, 1).tree)
  {
    var t := FourLeft([]);
    FourSidesShaped([]);
    ChildIndexUnique([2], 1, 0);
    var m := LeafPage(0, [2], Some(3));
    assert Join(t.kids[0], 2, t.kids[1]) == m;
    var r := Repaired(Tree(2, [], [], [m], None), 0, [Released(t.kids[1])]);
    assert Repair(4, t, 0) == r;
    LeafIsBalanced(m);
    LeafPageShaped(0, [2], Some(3));
    hide LeafPage, Repair, FourLeft;
    DropRepaired(4, t, 0, 1, r, Delete(4, m, 1));
  }

  /** A deletion below the root's first child, which is not repaired. */
  lemma DropUnderFirst(first: seq<int>, a: Alloc)
    ensures var t, l := FourTall(FourLeft(first)), FourLeft(first);
            && RootReady(State(Some(t), a)) && Shaped(t) && Balanced(t) && Shaped(l) && Balanced(l)
            && Delete(4, t, 1).tree == FourTall(Delete(4, l, 1).tree) && Delete(4, t, 1).freed == Delete(4, l, 1).freed
  {
    var t, l := FourTall(FourLeft(first)), FourLeft(first);
    FourSidesShaped(first);
    ChildIndexUnique([3], 1, 0);
    assert Repair(4, t, 0) == Repaired(t, 0, []);
    DropRepaired(4, t, 0, 1, Repaired(t, 0, []), Delete(4, l, 1));
  }

  lemma DropBelowKeys(d: int, t: Tree, key: int, a: Alloc)
    requires Shaped(t) && Balanced(t) && d >= 4 && Delete(d, t, key).tree.keys != []
    ensures RootReady(State(Some(t), a))
            && DeleteFrom(d, State(Some(t), a), key).state.root == Some(Delete(d, t, key).tree)
    ensures Delete(d, t, key).freed == [] ==> DeleteFrom(d, State(Some(t), a), key).state.alloc == a
  {
    hide Delete, Shaped, Balanced;
  }

  /** Degree 4 is accepted, but there a deletion can leave an internal page below the root without a key:
      seven keys go in, and the first is deleted twice. */
  lemma DegreeFourEmptiesAPage()
    ensures DegreeAccepted(4)
    ensures var ops := Load(7) + [DeleteOp(1), DeleteOp(1)];
            var r := Execute(4, EMPTY, ops);
            && |r.answers| == |ops| && r.state.root.Some?
            && (var t := r.state.root.value;
                t.keys == [3] && |t.kids| == 2 && !IsLeaf(t.kids[0]) && t.kids[0].keys == [])
  {
    hide Execute, Load, Delete, DeleteFrom, RootReady, Shaped, Balanced, FourLeft, FourRight;
    LoadFourTall();
    FourDropsFirst();
    FourDropsAgain();
    var a, ops := Alloc(None, 8), Load(7);
    var t, u := FourTall(FourLeft([1])), FourTall(FourLeft([]));
    DropUnderFirst([1], a);
    DropBelowKeys(4, t, 1, a);
    Step1(4, ops, State(Some(t), a), DeleteOp(1));
    DropUnderFirst([], a);
    DropBelowKeys(4, u, 1, a);
    Step1(4, ops + [DeleteOp(1)], State(Some(u), a), DeleteOp(1));
    assert ops + [DeleteOp(1)] + [DeleteOp(1)] == ops + [DeleteOp(1), DeleteOp(1)];
  }
}
