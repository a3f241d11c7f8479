/** Consequences: the height of a tree, and runs that need no guard. */
module BTreeFacts {
  import opened Wrappers
  import opened Entries
  import opened BTree
  import opened BTreeSplit
  import opened BTreeInsert
  import opened BTreeDelete
  import opened BTreeStates
  import opened BTreePages
  import opened Powers

  // -------- height --------

  lemma {:induction false} KidsHold(ts: seq<Tree>, m: nat)
    requires forall c {:trigger c in ts} :: c in ts ==> |Flat(c)| >= m
    ensures |EntriesOf(LeavesOf(ts))| >= |ts| * m
  {
    if ts != [] {
      assert ts[0] in ts;
      forall c | c in ts[1..] ensures |Flat(c)| >= m { assert c in ts; }
      KidsHold(ts[1..], m);
      EntriesConcat(Leaves(ts[0]), LeavesOf(ts[1..]));
      OneMore(|ts|, m);
    }
  }

  lemma OneMore(n: nat, m: nat)
    requires n > 0
    ensures n * m == m + (n - 1) * m
  {
  }

  /** A page below the root with h levels of internal pages over its leaves. */
  lemma {:induction false} SubtreeHolds(d: int, t: Tree)
    requires DegreeAccepted(d) && d >= 6 && Shaped(t) && Balanced(t) && Filled(d, t)
    ensures |Flat(t)| >= Pow(d / 2 - 1, Depth(t)) * (d / 2 - 2)
  {
    var b, m := d / 2 - 1, d / 2 - 2;
    if IsLeaf(t) {
      LeavesOne(t);
    } else {
      var p := Pow(b, Depth(t) - 1) * m;
      forall c | c in t.kids ensures |Flat(c)| >= p { SubtreeHolds(d, c); }
      KidsHold(t.kids, p);
      Scale(b, |t.kids|, p);
      Assoc(b, Pow(b, Depth(t) - 1), m);
    }
  }

  lemma Scale(a: nat, b: nat, m: nat)
    requires a <= b
    ensures a * m <= b * m
  {
  }

  lemma Assoc(a: nat, b: nat, c: nat)
    ensures (a * b) * c == a * (b * c)
  {
  }

  /** A tree of h+1 levels holds at least 2 * (d/2-1)^(h-1) * (d/2-2) pairs: height is logarithmic. */
  lemma TreeHolds(d: int, t: Tree)
    requires DegreeAccepted(d) && d >= 6 && Valid(d, t) && Depth(t) >= 1
    ensures |Flat(t)| >= 2 * (Pow(d / 2 - 1, Depth(t) - 1) * (d / 2 - 2))
  {
    hide Pow, Leaves, LeavesOf, EntriesOf, Valid, Filled, Balanced, Shaped, Depth;
    KidsOfRoot(d, t);
    var p := Pow(d / 2 - 1, Depth(t) - 1) * (d / 2 - 2);
    forall c | c in t.kids ensures |Flat(c)| >= p { SubtreeHolds(d, c); }
    KidsHold(t.kids, p);
    Scale(2, |t.kids|, p);
  }

  lemma KidsOfRoot(d: int, t: Tree)
    requires Valid(d, t) && Depth(t) >= 1
    ensures |t.kids| >= 2 && Flat(t) == EntriesOf(LeavesOf(t.kids))
    ensures forall c {:trigger c in t.kids} :: c in t.kids ==>
              Shaped(c) && Balanced(c) && Filled(d, c) && Depth(c) == Depth(t) - 1
  {
    hide Pow, Filled, LeavesOf, EntriesOf, Ordered, Chained, Distinct;
  }

  // -------- runs with fresh keys need no guard --------

  /** Every key of every page is one of ks. */
  ghost predicate KeysIn(t: Tree, ks: set<int>) {
    && (forall i :: 0 <= i < |t.keys| ==> t.keys[i] in ks)
    && forall c {:trigger c in t.kids} :: c in t.kids ==> KeysIn(c, ks)
  }

  lemma {:induction false} KeysInMore(t: Tree, ks: set<int>, more: set<int>)
    requires KeysIn(t, ks) && ks <= more
    ensures KeysIn(t, more)
  {
    forall c | c in t.kids ensures KeysIn(c, more) { KeysInMore(c, ks, more); }
  }

  lemma HalvesKeysIn(t: Tree, newId: int, link: Option<int>, ks: set<int>)
    requires Shaped(t) && KeysIn(t, ks) && |t.keys| > 1
    ensures KeysIn(LeftHalf(t, newId), ks) && KeysIn(RightHalf(t, newId, link), ks)
    ensures t.keys[|t.keys| / 2] in ks
  {
    var l, r := LeftHalf(t, newId), RightHalf(t, newId, link);
    forall c | c in l.kids || c in r.kids ensures c in t.kids {}
  }

  lemma DescendKeysIn(d: int, t: Tree, key: int, a: Alloc, ks: set<int>)
    requires Shaped(t) && KidsBalanced(t) && !IsLeaf(t) && d >= 4 && KeysIn(t, ks) && a.free == None
    ensures var s := Descend(d, t, key, a);
            && KeysIn(s.tree, ks) && s.index < |s.tree.kids| && KeysIn(s.tree.kids[s.index], ks)
            && (NeedsSplit(d, t, key) ==> Promoted(t, key) in ks)
  {
    var i := ChildIndex(t.keys, key);
    var c := t.kids[i];
    assert c in t.kids;
    DescendShape(d, t, key, a);
    var s := Descend(d, t, key, a);
    if NeedsSplit(d, t, key) {
      HalvesKeysIn(c, NextId(a), StaleLink(a), ks);
      SplitFresh(c, a);
      SplitKidKeysIn(t, i, Split(c, a), ks);
    }
    assert s.tree.kids[s.index] in s.tree.kids;
  }

  lemma SplitKidKeysIn(t: Tree, i: nat, s: SplitResult, ks: set<int>)
    requires KeysIn(t, ks) && i < |t.kids| && i <= |t.keys|
    requires KeysIn(s.left, ks) && KeysIn(s.right, ks) && s.key in ks
    ensures KeysIn(SplitKid(t, i, s), ks)
  {
    var u := SplitKid(t, i, s);
    forall c | c in u.kids ensures KeysIn(c, ks) { assert c in t.kids || c == s.left || c == s.right; }
    forall j | 0 <= j < |u.keys| ensures u.keys[j] in ks {
      assert u.keys[j] == if j < i then t.keys[j] else if j == i then s.key else t.keys[j - 1];
    }
  }

  /** A key that no page holds never meets its own separator. */
  lemma {:induction false} FreshKeyIsSafe(d: int, t: Tree, key: int, a: Alloc, ks: set<int>)
    requires Shaped(t) && KidsBalanced(t) && d >= 4 && KeysIn(t, ks) && key !in ks && a.free == None
    ensures !MeetsItsSeparator(d, t, key, a)
    decreases Depth(t)
  {
    if !IsLeaf(t) {
      DescendShape(d, t, key, a);
      KidKeepsHalves(d, t, key, a);
      DescendKeysIn(d, t, key, a, ks);
      var s := Descend(d, t, key, a);
      FreshKeyIsSafe(d, s.tree.kids[s.index], key, s.alloc, ks);
    }
  }

  lemma {:induction false} InsertKeysIn(d: int, t: Tree, key: int, val: Val, a: Alloc, ks: set<int>)
    requires Shaped(t) && KidsBalanced(t) && d >= 4 && KeysIn(t, ks) && a.free == None
    ensures KeysIn(Insert(d, t, key, val, a).tree, ks + {key})
    decreases Depth(t)
  {
    hide Descend;
    KeysInMore(t, ks, ks + {key});
    if !IsLeaf(t) {
      DescendShape(d, t, key, a);
      KidKeepsHalves(d, t, key, a);
      DescendKeysIn(d, t, key, a, ks);
      var s := Descend(d, t, key, a);
      KeysInMore(s.tree, ks, ks + {key});
      InsertKeysIn(d, s.tree.kids[s.index], key, val, s.alloc, ks);
      var c := Insert(d, s.tree.kids[s.index], key, val, s.alloc).tree;
      forall x | x in WithKid(s.tree, s.index, c).kids ensures KeysIn(x, ks + {key}) {
        assert x in s.tree.kids || x == c;
      }
    }
  }

  lemma PairKeysIn(l: Tree, r: Tree, p: Pair, ks: set<int>)
    requires KeysIn(l, ks) && KeysIn(r, ks)
    requires forall i :: 0 <= i < |p.left.keys| ==> p.left.keys[i] in ks
    requires forall i :: 0 <= i < |p.right.keys| ==> p.right.keys[i] in ks
    requires forall c {:trigger c in p.left.kids} {:trigger c in p.right.kids} ::
               c in p.left.kids || c in p.right.kids ==> c in l.kids || c in r.kids
    ensures KeysIn(p.left, ks) && KeysIn(p.right, ks)
  {
    forall c | c in p.left.kids ensures KeysIn(c, ks) { assert c in l.kids || c in r.kids; }
    forall c | c in p.right.kids ensures KeysIn(c, ks) { assert c in l.kids || c in r.kids; }
  }

  lemma LentKeysIn(l: Tree, key: int, r: Tree, ks: set<int>)
    requires Siblings(l, r) && KeysIn(l, ks) && KeysIn(r, ks) && key in ks
    ensures |l.keys| > 1 ==> KeysIn(LendRight(l, key, r).left, ks) && KeysIn(LendRight(l, key, r).right, ks)
                             && LendRight(l, key, r).key in ks
    ensures |r.keys| > 1 ==> KeysIn(LendLeft(l, key, r).left, ks) && KeysIn(LendLeft(l, key, r).right, ks)
                             && LendLeft(l, key, r).key in ks
    ensures KeysIn(Join(l, key, r), ks)
  {
    if |l.keys| > 1 { PairKeysIn(l, r, LendRight(l, key, r), ks); }
    if |r.keys| > 1 { PairKeysIn(l, r, LendLeft(l, key, r), ks); }
    forall c | c in Join(l, key, r).kids ensures KeysIn(c, ks) { assert c in l.kids || c in r.kids; }
  }

  lemma WithPairKeysIn(t: Tree, j: nat, p: Pair, ks: set<int>)
    requires KeysIn(t, ks) && j < |t.keys| && j + 1 < |t.kids|
    requires KeysIn(p.left, ks) && KeysIn(p.right, ks) && p.key in ks
    ensures KeysIn(WithPair(t, j, p), ks)
  {
    forall c | c in WithPair(t, j, p).kids ensures KeysIn(c, ks) { assert c in t.kids || c == p.left || c == p.right; }
  }

  lemma MergeKeysIn(t: Tree, j: nat, ks: set<int>)
    requires KeysIn(t, ks) && j < |t.keys| && j + 1 < |t.kids| && KeysIn(Join(t.kids[j], t.keys[j], t.kids[j + 1]), ks)
    ensures KeysIn(MergeAt(t, j), ks)
  {
    var u := MergeAt(t, j);
    forall c | c in u.kids ensures KeysIn(c, ks) {
      assert c in t.kids || c == Join(t.kids[j], t.keys[j], t.kids[j + 1]);
    }
  }

  lemma MovedKeysIn(t: Tree, j: nat, ks: set<int>)
    requires KeysIn(t, ks) && Shaped(t) && Balanced(t) && j + 1 < |t.kids|
    ensures Siblings(t.kids[j], t.kids[j + 1]) && j < |t.keys|
    ensures |t.kids[j].keys| > 1 ==> KeysIn(WithPair(t, j, LendRight(t.kids[j], t.keys[j], t.kids[j + 1])), ks)
    ensures |t.kids[j + 1].keys| > 1 ==> KeysIn(WithPair(t, j, LendLeft(t.kids[j], t.keys[j], t.kids[j + 1])), ks)
    ensures KeysIn(MergeAt(t, j), ks)
  {
    KidsAlike(t, j);
    var l, r := t.kids[j], t.kids[j + 1];
    assert l in t.kids && r in t.kids;
    LentKeysIn(l, t.keys[j], r, ks);
    hide KeysIn, LendRight, LendLeft, Join, WithPair, MergeAt;
    if |l.keys| > 1 { WithPairKeysIn(t, j, LendRight(l, t.keys[j], r), ks); }
    if |r.keys| > 1 { WithPairKeysIn(t, j, LendLeft(l, t.keys[j], r), ks); }
    MergeKeysIn(t, j, ks);
  }

  /** Separators move; no key comes from outside. */
  lemma RepairKeysIn(d: int, t: Tree, i: nat, ks: set<int>)
    requires Shaped(t) && Balanced(t) && d >= 4 && i < |t.kids| && KeysIn(t, ks)
    ensures KeysIn(Repair(d, t, i).tree, ks)
  {
    hide KeysIn, LendRight, LendLeft, WithPair, MergeAt;
    if i > 0 { MovedKeysIn(t, i - 1, ks); }
    if i + 1 < |t.kids| { MovedKeysIn(t, i, ks); }
  }

  lemma {:induction false} DeleteKeysIn(d: int, t: Tree, key: int, ks: set<int>)
    requires Shaped(t) && Balanced(t) && d >= 4 && KeysIn(t, ks)
    ensures KeysIn(Delete(d, t, key).tree, ks)
    decreases Depth(t)
  {
    hide Repair;
    if IsLeaf(t) {
      forall k | k in DeleteLeaf(t, key).tree.keys ensures k in ks { assert k in t.keys; }
    } else {
      var i := ChildIndex(t.keys, key);
      RepairShape(d, t, i);
      RepairKeysIn(d, t, i, ks);
      var r := Repair(d, t, i);
      assert r.tree.kids[r.index] in r.tree.kids;
      DeleteKeysIn(d, r.tree.kids[r.index], key, ks);
      var c := Delete(d, r.tree.kids[r.index], key).tree;
      forall x | x in WithKid(r.tree, r.index, c).kids ensures KeysIn(x, ks) { assert x in r.tree.kids || x == c; }
    }
  }

  /** All keys in the pages are among ks, and nothing is on the free list. */
  ghost predicate Over(s: State, ks: set<int>) {
    && s.alloc.free == None && Abs(s).Keys <= ks
    && (s.root.Some? ==> KeysIn(s.root.value, ks))
  }

  lemma OverMore(s: State, ks: set<int>, more: set<int>)
    requires Over(s, ks) && ks <= more
    ensures Over(s, more)
  {
    if s.root.Some? { KeysInMore(s.root.value, ks, more); }
  }

  lemma StartOver(d: int, s: State, ks: set<int>)
    requires Inv(d, s) && DegreeAccepted(d) && d >= 6 && Over(s, ks)
    ensures var o := Start(d, s);
            KeysIn(o.tree, ks) && o.alloc.free == None && Open(s).alloc.free == None
  {
    OpenInv(d, s);
    var p := Open(s);
    if IsFull(d, p.tree) {
      var t, a := p.tree, p.alloc;
      HalvesKeysIn(t, NextId(a), StaleLink(a), ks);
      SplitFresh(t, a);
      GrownKeysIn(d, t, a, ks);
    }
  }

  lemma GrownKeysIn(d: int, t: Tree, a: Alloc, ks: set<int>)
    requires Shaped(t) && |t.keys| > 1 && IsFull(d, t)
    requires KeysIn(Split(t, a).left, ks) && KeysIn(Split(t, a).right, ks) && Split(t, a).key in ks
    ensures KeysIn(Grow(d, t, a).tree, ks)
  {
    hide Split;
    var g := Grow(d, t, a).tree;
    forall c | c in g.kids ensures KeysIn(c, ks) { assert c == Split(t, a).left || c == Split(t, a).right; }
  }

  /** A key that was never inserted is safe. */
  lemma FreshStep(d: int, s: State, key: int, val: Val, ks: set<int>)
    requires Inv(d, s) && DegreeAccepted(d) && d >= 6 && Over(s, ks) && key !in ks
    ensures SafeInsert(d, s, key) && Over(InsertInto(d, s, key, val).state, ks + {key})
  {
    StartOver(d, s, ks);
    var o := Start(d, s);
    FreshKeyIsSafe(d, o.tree, key, o.alloc, ks);
    SafeInsertRefinesMap(d, s, key, val);
    OverAfter(d, s, key, val, ks);
  }

  lemma OverAfter(d: int, s: State, key: int, val: Val, ks: set<int>)
    requires Inv(d, s) && DegreeAccepted(d) && d >= 6 && SafeInsert(d, s, key) && Abs(s).Keys <= ks
    requires KeysIn(Start(d, s).tree, ks) && Start(d, s).alloc.free == None
    requires Abs(InsertInto(d, s, key, val).state).Keys <= Abs(s).Keys + {key}
    ensures Over(InsertInto(d, s, key, val).state, ks + {key})
  {
    hide Insert, Start, Ordered, ToMap, Leaves, EntriesOf, Abs;
    StartValid(d, s);
    var o := Start(d, s);
    InsertKeysIn(d, o.tree, key, val, o.alloc, ks);
    InsertBag(d, o.tree, key, val, o.alloc);
    KeysInMore(o.tree, ks, ks + {key});
  }

  /** A deletion that releases no page brings in no key and frees nothing. */
  lemma DeletionStaysOver(d: int, s: State, key: int, ks: set<int>)
    requires Inv(d, s) && DegreeAccepted(d) && d >= 6 && Over(s, ks) && Releases(d, s, key) == 0
    ensures Over(DeleteFrom(d, s, key).state, ks)
  {
    hide Delete, Releases, Leaves, EntriesOf, ToMap;
    DeleteRefinesMap(d, s, key);
    ReleasesAreFreed(d, s, key);
    OpenInv(d, s);
    DeleteKeysIn(d, Open(s).tree, key, ks);
  }

  lemma FindStaysOver(d: int, s: State, ks: set<int>)
    requires Inv(d, s) && DegreeAccepted(d) && Over(s, ks)
    ensures Over(State(Some(Open(s).tree), Open(s).alloc), ks)
  {
    OpenInv(d, s);
  }

  /** Insertions of keys never inserted before, deletions that release no page, and lookups; then anything
      but insertions. What a deletion is going to release can be counted before (see Releases). */
  ghost predicate FreshRun(d: int, s: State, ks: set<int>, ops: seq<Op>)
    requires d >= 4
    decreases |ops|
  {
    NoInsertions(ops) ||
    (&& RootReady(s)
     && match ops[0] {
          case InsertOp(k, _) => k !in ks && FreshRun(d, Apply(d, s, ops[0]).state, ks + {k}, ops[1..])
          case DeleteOp(k) => Releases(d, s, k) == 0 && FreshRun(d, Apply(d, s, ops[0]).state, ks, ops[1..])
          case FindOp(_) => FreshRun(d, Apply(d, s, ops[0]).state, ks, ops[1..])
        })
  }

  predicate NoInsertions(ops: seq<Op>) { forall i :: 0 <= i < |ops| ==> !ops[i].InsertOp? }

  lemma {:induction false} DrainIsSafe(d: int, s: State, ops: seq<Op>)
    requires Inv(d, s) && DegreeAccepted(d) && d >= 6 && NoInsertions(ops)
    ensures SafeRun(d, s, ops)
    decreases |ops|
  {
    if ops != [] {
      StepRefinesMap(d, s, ops[0]);
      DrainIsSafe(d, Apply(d, s, ops[0]).state, ops[1..]);
    }
  }

  lemma {:induction false} FreshRunIsSafe(d: int, s: State, ks: set<int>, ops: seq<Op>)
    requires Inv(d, s) && DegreeAccepted(d) && d >= 6 && Over(s, ks) && FreshRun(d, s, ks, ops)
    ensures SafeRun(d, s, ops)
    decreases |ops|
  {
    hide SafeInsert, Over, Releases, InsertInto, DeleteFrom;
    if NoInsertions(ops) {
      DrainIsSafe(d, s, ops);
    } else {
      var t := Apply(d, s, ops[0]).state;
      match ops[0] {
        case InsertOp(k, v) =>
          FreshStep(d, s, k, v, ks);
          StepRefinesMap(d, s, ops[0]);
          FreshRunIsSafe(d, t, ks + {k}, ops[1..]);
        case DeleteOp(k) =>
          DeletionStaysOver(d, s, k, ks);
          StepRefinesMap(d, s, ops[0]);
          FreshRunIsSafe(d, t, ks, ops[1..]);
        case FindOp(_) =>
          FindStaysOver(d, s, ks);
          StepRefinesMap(d, s, ops[0]);
          FreshRunIsSafe(d, t, ks, ops[1..]);
      }
    }
  }

  /** From an empty store, such a run refines a finite map with no guard on its insertions. */
  lemma FreshRunFromEmpty(d: int, ops: seq<Op>)
    requires DegreeAccepted(d) && d >= 6 && FreshRun(d, EMPTY, {}, ops)
    ensures var r := Execute(d, EMPTY, ops);
            && Inv(d, r.state) && Abs(r.state) == MapRun(map[], ops) && AllAllowed(map[], ops, r.answers)
  {
    EmptyInv(d);
    FreshRunIsSafe(d, EMPTY, {}, ops);
    SafeRunFromEmpty(d, ops);
  }

  /** Fresh insertions and lookups first, then anything but insertions. */
  ghost predicate LoadThenDrain(m: map<int, Val>, ops: seq<Op>)
    decreases |ops|
  {
    ops == []
    || (ops[0].InsertOp? && ops[0].key !in m && LoadThenDrain(MapAfter(m, ops[0]), ops[1..]))
    || (ops[0].FindOp? && LoadThenDrain(m, ops[1..]))
    || NoInsertions(ops)
  }

  lemma {:induction false} LoadThenDrainIsSafe(d: int, s: State, ops: seq<Op>)
    requires Inv(d, s) && DegreeAccepted(d) && d >= 6 && Over(s, Abs(s).Keys) && LoadThenDrain(Abs(s), ops)
    ensures SafeRun(d, s, ops)
    decreases |ops|
  {
    hide SafeInsert, InsertInto, DeleteFrom;
    if NoInsertions(ops) {
      DrainIsSafe(d, s, ops);
    } else {
      var op := ops[0];
      if op.InsertOp? {
        FreshStep(d, s, op.key, op.val, Abs(s).Keys);
        assert Abs(s).Keys + {op.key} == MapAfter(Abs(s), op).Keys;
      } else {
        OpenInv(d, s);
        FindStaysOver(d, s, Abs(s).Keys);
      }
      StepRefinesMap(d, s, op);
      LoadThenDrainIsSafe(d, Apply(d, s, op).state, ops[1..]);
    }
  }

  /** From an empty store, loading fresh keys and then draining refines a finite map without any guard. */
  lemma LoadThenDrainFromEmpty(d: int, ops: seq<Op>)
    requires DegreeAccepted(d) && d >= 6 && LoadThenDrain(map[], ops)
    ensures var r := Execute(d, EMPTY, ops);
            && Inv(d, r.state) && Abs(r.state) == MapRun(map[], ops) && AllAllowed(map[], ops, r.answers)
  {
    EmptyInv(d);
    LoadThenDrainIsSafe(d, EMPTY, ops);
    SafeRunFromEmpty(d, ops);
  }
}
