/** Lookup and insertion, exactly as the node code descends, and when insertion
    refines insertion into a finite map. */
module BTreeInsert {
  import opened Wrappers
  import opened Entries
  import opened BTree
  import opened BTreeSplit

  /** The first position whose key exceeds the wanted one, or the number of keys. */
  function ChildIndex(keys: seq<int>, key: int): (i: nat)
    ensures i <= |keys|
    ensures forall j :: 0 <= j < i ==> keys[j] <= key
    ensures i < |keys| ==> key < keys[i]
  {
    if keys == [] || key < keys[0] then 0 else 1 + ChildIndex(keys[1..], key)
  }

  lemma {:induction false} ChildIndexUnique(keys: seq<int>, key: int, i: nat)
    requires SortedKeys(keys) && i <= |keys|
    requires i > 0 ==> keys[i - 1] <= key
    requires i < |keys| ==> key < keys[i]
    ensures ChildIndex(keys, key) == i
  {
    if i > 0 { ChildIndexUnique(keys[1..], key, i - 1); }
  }

  // -------- lookup --------

  /** The leaf a lookup ends in. */
  function FindLeaf(t: Tree, key: int): Tree
    requires Shaped(t)
  {
    if IsLeaf(t) then t
    else
      assert t.kids[ChildIndex(t.keys, key)] in t.kids;
      FindLeaf(t.kids[ChildIndex(t.keys, key)], key)
  }

  function Find(t: Tree, key: int): Option<Val>
    requires Shaped(t)
  {
    Get(LeafEntries(FindLeaf(t, key)), key)
  }

  /** A lookup sees every pair of the tree. */
  lemma {:induction false} FindIsGet(t: Tree, key: int, lo: Option<int>, hi: Option<int>)
    requires Shaped(t) && Ordered(t, lo, hi) && AtLeast(lo, key) && Under(key, hi)
    ensures Find(t, key) == Get(Flat(t), key)
  {
    if IsLeaf(t) {
      LeavesOne(t);
    } else {
      var i := ChildIndex(t.keys, key);
      assert t.kids[i] in t.kids && KidOrdered(t, i, lo, hi);
      FindIsGet(t.kids[i], key, Lo(t.keys, lo, i), Hi(t.keys, hi, i));
      KidCut(t, i);
      KidIsolated(t, lo, hi, i, key);
      DelMiddle(EntriesOf(LeavesOf(t.kids[..i])), Flat(t.kids[i]), EntriesOf(LeavesOf(t.kids[i + 1..])), key);
    }
  }

  // -------- insertion --------

  datatype Step = Step(tree: Tree, index: nat, alloc: Alloc)

  predicate NeedsSplit(d: int, t: Tree, key: int)
    requires Shaped(t) && !IsLeaf(t)
  {
    IsFull(d, t.kids[ChildIndex(t.keys, key)])
  }

  /** The key that splitting the target child would promote. */
  function Promoted(t: Tree, key: int): int
    requires Shaped(t) && !IsLeaf(t) && |t.kids[ChildIndex(t.keys, key)].keys| > 0
  {
    var c := t.kids[ChildIndex(t.keys, key)];
    c.keys[|c.keys| / 2]
  }

  /** Choose the child, split it when it is full, and choose the half. After the last
      child the half is chosen with `>`, anywhere else with `>=`. */
  function Descend(d: int, t: Tree, key: int, a: Alloc): Step
    requires Shaped(t) && !IsLeaf(t) && d >= 4
  {
    var i := ChildIndex(t.keys, key);
    var c := t.kids[i];
    if !IsFull(d, c) then Step(t, i, a)
    else
      assert c in t.kids;
      var s := Split(c, a);
      var right := if i == |t.keys| then key > s.key else key >= s.key;
      Step(SplitKid(t, i, s), if right then i + 1 else i, s.alloc)
  }

  lemma DescendShape(d: int, t: Tree, key: int, a: Alloc)
    requires Shaped(t) && KidsBalanced(t) && !IsLeaf(t) && d >= 4
    ensures var s := Descend(d, t, key, a);
            && Shaped(s.tree) && s.index < |s.tree.kids| && Depth(s.tree) == Depth(t) && s.tree.id == t.id
            && Shaped(s.tree.kids[s.index]) && Balanced(s.tree.kids[s.index])
            && Depth(s.tree.kids[s.index]) < Depth(t)
            && (Balanced(t) && (NeedsSplit(d, t, key) ==> a.free == None) ==> Balanced(s.tree))
  {
    var i := ChildIndex(t.keys, key);
    assert t.kids[i] in t.kids;
    if NeedsSplit(d, t, key) {
      SplitShape(t.kids[i], a);
      var p := Split(t.kids[i], a);
      SplitKidShape(t, i, p);
      SplitKidBounds(t, i, p, None, None, i);
      SplitKidBounds(t, i, p, None, None, i + 1);
    }
  }

  datatype Inserted = Inserted(tree: Tree, alloc: Alloc)

  function InsertLeaf(t: Tree, key: int, val: Val): Tree
    requires Shaped(t) && IsLeaf(t)
  {
    var p := ChildIndex(t.keys, key);
    if key in t.keys then t
    else t.(keys := t.keys[..p] + [key] + t.keys[p..], vals := t.vals[..p] + [val] + t.vals[p..])
  }

  function Insert(d: int, t: Tree, key: int, val: Val, a: Alloc): Inserted
    requires Shaped(t) && KidsBalanced(t) && d >= 4
    decreases Depth(t)
  {
    if IsLeaf(t) then Inserted(InsertLeaf(t, key, val), a)
    else
      DescendShape(d, t, key, a);
      var s := Descend(d, t, key, a);
      var r := Insert(d, s.tree.kids[s.index], key, val, s.alloc);
      Inserted(WithKid(s.tree, s.index, r.tree), r.alloc)
  }

  // -------- when an insertion is safe --------

  /** A page on the way down is full. */
  predicate SplitsOnPath(d: int, t: Tree, key: int)
    requires Shaped(t)
  {
    !IsLeaf(t) &&
    (var c := t.kids[ChildIndex(t.keys, key)];
     assert c in t.kids;
     IsFull(d, c) || SplitsOnPath(d, c, key))
  }

  /** Somewhere on the way down the last child is split and promotes the very key to insert. */
  predicate MeetsItsSeparator(d: int, t: Tree, key: int, a: Alloc)
    requires Shaped(t) && KidsBalanced(t) && d >= 4
    decreases Depth(t)
  {
    !IsLeaf(t) &&
    (|| (ChildIndex(t.keys, key) == |t.keys| && NeedsSplit(d, t, key) && Promoted(t, key) == key)
     || (DescendShape(d, t, key, a);
         var s := Descend(d, t, key, a);
         MeetsItsSeparator(d, s.tree.kids[s.index], key, s.alloc)))
  }

  /** No split takes the page of the free list. */
  predicate KeepsHalves(d: int, t: Tree, key: int, a: Alloc)
    requires Shaped(t)
  {
    a.free == None || !SplitsOnPath(d, t, key)
  }

  predicate Safe(d: int, t: Tree, key: int, a: Alloc)
    requires Shaped(t) && KidsBalanced(t) && d >= 4
  {
    KeepsHalves(d, t, key, a) && !MeetsItsSeparator(d, t, key, a)
  }

  lemma KidKeepsHalves(d: int, t: Tree, key: int, a: Alloc)
    requires Shaped(t) && KidsBalanced(t) && !IsLeaf(t) && d >= 4 && KeepsHalves(d, t, key, a)
    ensures var s := Descend(d, t, key, a);
            && s.index < |s.tree.kids| && Shaped(s.tree.kids[s.index])
            && s.alloc.free == a.free
            && KeepsHalves(d, s.tree.kids[s.index], key, s.alloc)
            && (NeedsSplit(d, t, key) ==> a.free == None)
            && (a.free.Some? ==> s.tree == t && s.alloc == a)
  {
    DescendShape(d, t, key, a);
  }

  // -------- one step keeps everything --------

  lemma DescendOrdered(d: int, t: Tree, key: int, a: Alloc, lo: Option<int>, hi: Option<int>)
    requires Shaped(t) && Balanced(t) && !IsLeaf(t) && d >= 4
    requires Ordered(t, lo, hi) && AtLeast(lo, key) && Under(key, hi)
    ensures var s := Descend(d, t, key, a);
            && Ordered(s.tree, lo, hi) && s.index <= |s.tree.keys| && s.index < |s.tree.kids|
            && KidOrdered(s.tree, s.index, lo, hi)
            && AtLeast(Lo(s.tree.keys, lo, s.index), key)
            && (!(ChildIndex(t.keys, key) == |t.keys| && NeedsSplit(d, t, key) && Promoted(t, key) == key)
                ==> Under(key, Hi(s.tree.keys, hi, s.index)))
  {
    var s := Descend(d, t, key, a);
    var i := ChildIndex(t.keys, key);
    var c := t.kids[i];
    assert c in t.kids && KidOrdered(t, i, lo, hi);
    if IsFull(d, c) {
      var p := Split(c, a);
      HalvesOrdered(c, NextId(a), StaleLink(a), Lo(t.keys, lo, i), Hi(t.keys, hi, i));
      SplitKidOrdered(t, i, p, lo, hi);
      SplitKidBounds(t, i, p, lo, hi, s.index);
    }
    assert KidOrdered(s.tree, s.index, lo, hi);
  }

  lemma DescendLeaves(d: int, t: Tree, key: int, a: Alloc, nxt: Option<int>)
    requires Shaped(t) && KidsBalanced(t) && !IsLeaf(t) && d >= 4
    requires NeedsSplit(d, t, key) ==> a.free == None
    ensures var s := Descend(d, t, key, a);
            && Flat(s.tree) == Flat(t)
            && Leaves(s.tree)[0].id == Leaves(t)[0].id
            && (Chained(Leaves(t), nxt) ==> Chained(Leaves(s.tree), nxt))
            && Bag(s.tree) == Bag(t) + Range(a.pages, s.alloc.pages)
            && a.pages <= s.alloc.pages
  {
    var i := ChildIndex(t.keys, key);
    assert t.kids[i] in t.kids;
    if NeedsSplit(d, t, key) {
      hide Leaves, EntriesOf, Bag, SplitKid, Split;
      SplitKidWhole(t, i, a, nxt);
      RangeOne(a.pages);
      assert Split(t.kids[i], a).alloc.pages == a.pages + 1 by { SplitFresh(t.kids[i], a); }
    } else {
      assert Range(a.pages, a.pages) == multiset{};
    }
  }

  lemma RangeNone(m: nat)
    ensures Range(m, m) == multiset{}
  {
  }

  lemma RangeOne(m: nat)
    ensures Range(m, m + 1) == multiset{m}
  {
    assert Range(m + 1, m + 1) == multiset{};
  }

  lemma DescendFilled(d: int, t: Tree, key: int, a: Alloc)
    requires DegreeAccepted(d) && d >= 6 && Shaped(t) && !IsLeaf(t) && FilledKids(d, t)
    requires NeedsSplit(d, t, key) ==> a.free == None
    ensures var s := Descend(d, t, key, a);
            && FilledKids(d, s.tree) && |t.keys| <= |s.tree.keys| <= |t.keys| + 1
            && s.index < |s.tree.kids| && !IsFull(d, s.tree.kids[s.index])
  {
    var i := ChildIndex(t.keys, key);
    assert t.kids[i] in t.kids;
    if NeedsSplit(d, t, key) { SplitKidFilled(d, t, i, a); }
  }

  /** The page ids handed out while the page count went from m to n. */
  function Range(m: nat, n: nat): multiset<int>
    decreases n - m
  {
    if m >= n then multiset{} else multiset{m} + Range(m + 1, n)
  }

  lemma {:induction false} RangeSplit(l: nat, m: nat, n: nat)
    requires l <= m <= n
    ensures Range(l, n) == Range(l, m) + Range(m, n)
    decreases m - l
  {
    if l < m { RangeSplit(l + 1, m, n); }
  }

  lemma {:induction false} RangeMember(m: nat, n: nat, x: int)
    ensures Range(m, n)[x] == if m <= x < n then 1 else 0
    decreases n - m
  {
    if m < n { RangeMember(m + 1, n, x); }
  }

  // -------- what an insertion does --------

  lemma {:induction false} InsertShape(d: int, t: Tree, key: int, val: Val, a: Alloc)
    requires Shaped(t) && Balanced(t) && d >= 4 && KeepsHalves(d, t, key, a)
    ensures var r := Insert(d, t, key, val, a);
            Shaped(r.tree) && Balanced(r.tree) && Depth(r.tree) == Depth(t) && r.tree.id == t.id
    decreases Depth(t)
  {
    hide Descend;
    if !IsLeaf(t) {
      DescendShape(d, t, key, a);
      KidKeepsHalves(d, t, key, a);
      var s := Descend(d, t, key, a);
      InsertShape(d, s.tree.kids[s.index], key, val, s.alloc);
      var c := Insert(d, s.tree.kids[s.index], key, val, s.alloc).tree;
      WithKidShaped(s.tree, s.index, c);
      WithKidBalanced(s.tree, s.index, c);
    }
  }

  lemma InsHit(pre: seq<Entry>, e: Entry, post: seq<Entry>, val: Val)
    requires AllBelow(pre, e.0) && AllAbove(post, e.0)
    ensures Ins(pre + [e] + post, e.0, val) == pre + [e] + post
  {
    InsMiddle(pre, [e], post, e.0, val);
  }

  lemma InsMiss(pre: seq<Entry>, post: seq<Entry>, key: int, val: Val)
    requires AllBelow(pre, key) && AllAbove(post, key)
    ensures Ins(pre + post, key, val) == pre + [(key, val)] + post
  {
    InsMiddle(pre, [], post, key, val);
    assert pre + [] + post == pre + post;
  }

  lemma InsertLeafFlat(t: Tree, key: int, val: Val)
    requires Shaped(t) && IsLeaf(t) && SortedKeys(t.keys)
    ensures Flat(InsertLeaf(t, key, val)) == Ins(Flat(t), key, val)
  {
    InsertLeafEntries(t, key, val);
    LeavesOne(t);
    LeavesOne(InsertLeaf(t, key, val));
  }

  lemma InsertLeafEntries(t: Tree, key: int, val: Val)
    requires Shaped(t) && IsLeaf(t) && SortedKeys(t.keys)
    ensures LeafEntries(InsertLeaf(t, key, val)) == Ins(LeafEntries(t), key, val)
  {
    if key in t.keys {
      InsertHit(t.keys, t.vals, key, val);
    } else {
      InsertMiss(t.keys, t.vals, key, val);
      ZipSplice(t.keys, t.vals, ChildIndex(t.keys, key), key, val);
    }
  }

  lemma InsertHit(keys: seq<int>, vals: seq<Val>, key: int, val: Val)
    requires |keys| == |vals| && SortedKeys(keys) && key in keys
    ensures Ins(Zip(keys, vals), key, val) == Zip(keys, vals)
  {
    var f := Zip(keys, vals);
    var q :| 0 <= q < |keys| && keys[q] == key;
    InsHit(f[..q], f[q], f[q + 1..], val);
    assert f == f[..q] + [f[q]] + f[q + 1..];
  }

  lemma InsertMiss(keys: seq<int>, vals: seq<Val>, key: int, val: Val)
    requires |keys| == |vals| && SortedKeys(keys) && key !in keys
    ensures var f := Zip(keys, vals);
            var p := ChildIndex(keys, key);
            Ins(f, key, val) == f[..p] + [(key, val)] + f[p..]
  {
    var p := ChildIndex(keys, key);
    var f := Zip(keys, vals);
    MissApart(keys, vals, key);
    hide Ins, Zip;
    InsMiss(f[..p], f[p..], key, val);
    assert f == f[..p] + f[p..];
  }

  lemma MissApart(keys: seq<int>, vals: seq<Val>, key: int)
    requires |keys| == |vals| && SortedKeys(keys) && key !in keys
    ensures var f := Zip(keys, vals);
            var p := ChildIndex(keys, key);
            AllBelow(f[..p], key) && AllAbove(f[p..], key)
  {
    var f := Zip(keys, vals);
    var p := ChildIndex(keys, key);
    forall j | 0 <= j < p ensures f[j].0 < key { assert keys[j] in keys; }
    forall j | p <= j < |f| ensures key < f[j].0 { assert keys[p] <= keys[j]; }
  }

  lemma ZipSplice(keys: seq<int>, vals: seq<Val>, p: nat, key: int, val: Val)
    requires |keys| == |vals| && p <= |keys|
    ensures var f := Zip(keys, vals);
            Zip(keys[..p] + [key] + keys[p..], vals[..p] + [val] + vals[p..]) == f[..p] + [(key, val)] + f[p..]
  {
  }

  lemma InsertLeafOrdered(t: Tree, key: int, val: Val, lo: Option<int>, hi: Option<int>)
    requires Shaped(t) && IsLeaf(t) && Ordered(t, lo, hi) && AtLeast(lo, key) && Under(key, hi)
    ensures Ordered(InsertLeaf(t, key, val), lo, hi)
  {
    if key !in t.keys {
      var p := ChildIndex(t.keys, key);
      assert p > 0 ==> t.keys[p - 1] in t.keys;
      SplicedSorted(t.keys, p, key);
    }
  }

  lemma WithKidInserted(t: Tree, i: nat, c: Tree, key: int, val: Val, lo: Option<int>, hi: Option<int>)
    requires Shaped(t) && Ordered(t, lo, hi) && i < |t.kids|
    requires AtLeast(Lo(t.keys, lo, i), key) && Under(key, Hi(t.keys, hi, i))
    requires Flat(c) == Ins(Flat(t.kids[i]), key, val)
    ensures Flat(WithKid(t, i, c)) == Ins(Flat(t), key, val)
  {
    KidCut(t, i);
    WithKidCut(t, i, c);
    KidIsolated(t, lo, hi, i, key);
    InsMiddle(EntriesOf(LeavesOf(t.kids[..i])), Flat(t.kids[i]), EntriesOf(LeavesOf(t.kids[i + 1..])), key, val);
  }

  /** Safe insertion is insertion into the sorted list of pairs, and keeps the search order. */
  lemma {:induction false} InsertRefines(d: int, t: Tree, key: int, val: Val, a: Alloc, lo: Option<int>,
                                         hi: Option<int>)
    requires Shaped(t) && Balanced(t) && d >= 4 && Safe(d, t, key, a)
    requires Ordered(t, lo, hi) && AtLeast(lo, key) && Under(key, hi)
    ensures Ordered(Insert(d, t, key, val, a).tree, lo, hi)
    ensures Flat(Insert(d, t, key, val, a).tree) == Ins(Flat(t), key, val)
    decreases Depth(t)
  {
    hide Descend;
    if IsLeaf(t) {
      InsertLeafFlat(t, key, val);
      InsertLeafOrdered(t, key, val, lo, hi);
    } else {
      DescendShape(d, t, key, a);
      KidKeepsHalves(d, t, key, a);
      DescendOrdered(d, t, key, a, lo, hi);
      DescendLeaves(d, t, key, a, None);
      var s := Descend(d, t, key, a);
      var c := s.tree.kids[s.index];
      InsertRefines(d, c, key, val, s.alloc, Lo(s.tree.keys, lo, s.index), Hi(s.tree.keys, hi, s.index));
      var c' := Insert(d, c, key, val, s.alloc).tree;
      WithKidOrdered(s.tree, s.index, c', lo, hi);
      WithKidInserted(s.tree, s.index, c', key, val, lo, hi);
    }
  }

  lemma {:induction false} InsertFilled(d: int, t: Tree, key: int, val: Val, a: Alloc)
    requires DegreeAccepted(d) && d >= 6 && Shaped(t) && Balanced(t) && KeepsHalves(d, t, key, a)
    requires FilledKids(d, t) && !IsFull(d, t)
    ensures var r := Insert(d, t, key, val, a);
            FilledKids(d, r.tree) && |t.keys| <= |r.tree.keys| <= |t.keys| + 1
    decreases Depth(t)
  {
    hide Descend;
    if !IsLeaf(t) {
      DescendShape(d, t, key, a);
      KidKeepsHalves(d, t, key, a);
      DescendFilled(d, t, key, a);
      var s := Descend(d, t, key, a);
      var c := s.tree.kids[s.index];
      assert c in s.tree.kids;
      InsertFilled(d, c, key, val, s.alloc);
      WithKidFilled(d, s.tree, s.index, Insert(d, c, key, val, s.alloc).tree);
    }
  }

  /** The leaf chain stays whole and starts where it started. */
  lemma {:induction false} InsertChained(d: int, t: Tree, key: int, val: Val, a: Alloc, nxt: Option<int>)
    requires Shaped(t) && Balanced(t) && d >= 4 && KeepsHalves(d, t, key, a) && Chained(Leaves(t), nxt)
    ensures Chained(Leaves(Insert(d, t, key, val, a).tree), nxt)
    ensures Leaves(Insert(d, t, key, val, a).tree)[0].id == Leaves(t)[0].id
    decreases Depth(t)
  {
    hide Descend;
    if IsLeaf(t) {
      ChainOne(t, nxt);
      ChainOne(InsertLeaf(t, key, val), nxt);
    } else {
      DescendShape(d, t, key, a);
      KidKeepsHalves(d, t, key, a);
      DescendLeaves(d, t, key, a, nxt);
      var s := Descend(d, t, key, a);
      var c := s.tree.kids[s.index];
      KidChained(s.tree, s.index, nxt);
      InsertChained(d, c, key, val, s.alloc, HeadId(LeavesOf(s.tree.kids[s.index + 1..]), nxt));
      WithKidChained(s.tree, s.index, Insert(d, c, key, val, s.alloc).tree, nxt);
    }
  }

  lemma WithKidBag(t: Tree, i: nat, c: Tree, more: multiset<int>)
    requires i < |t.kids| && Bag(c) == Bag(t.kids[i]) + more
    ensures Bag(WithKid(t, i, c)) == Bag(t) + more
  {
    KidCut(t, i);
    WithKidCut(t, i, c);
  }

  lemma InsertLeafBag(t: Tree, key: int, val: Val)
    requires Shaped(t) && IsLeaf(t)
    ensures Bag(InsertLeaf(t, key, val)) == Bag(t)
  {
  }

  /** Insertion adds exactly the pages it allocates. */
  lemma {:induction false} InsertBag(d: int, t: Tree, key: int, val: Val, a: Alloc)
    requires Shaped(t) && Balanced(t) && d >= 4 && KeepsHalves(d, t, key, a)
    ensures var r := Insert(d, t, key, val, a);
            && a.pages <= r.alloc.pages && r.alloc.free == a.free
            && Bag(r.tree) == Bag(t) + Range(a.pages, r.alloc.pages)
    decreases Depth(t)
  {
    hide Descend, Bag, Range;
    if IsLeaf(t) {
      InsertLeafBag(t, key, val);
      RangeNone(a.pages);
    } else {
      DescendShape(d, t, key, a);
      KidKeepsHalves(d, t, key, a);
      DescendLeaves(d, t, key, a, None);
      var s := Descend(d, t, key, a);
      var c := s.tree.kids[s.index];
      InsertBag(d, c, key, val, s.alloc);
      var r := Insert(d, c, key, val, s.alloc);
      WithKidBag(s.tree, s.index, r.tree, Range(s.alloc.pages, r.alloc.pages));
      RangeSplit(a.pages, s.alloc.pages, r.alloc.pages);
      assert Bag(t) + Range(a.pages, s.alloc.pages) + Range(s.alloc.pages, r.alloc.pages)
          == Bag(t) + (Range(a.pages, s.alloc.pages) + Range(s.alloc.pages, r.alloc.pages));
    }
  }

  // -------- what an unsafe insertion does --------

  /** Every page of the tree holds something: a page below the root is never empty. */
  lemma {:induction false} FilledHoldsPairs(d: int, t: Tree)
    requires DegreeAccepted(d) && d >= 6 && Shaped(t) && Filled(d, t)
    ensures |Flat(t)| >= 1
  {
    if IsLeaf(t) {
      LeavesOne(t);
    } else {
      assert t.kids[0] in t.kids;
      FilledHoldsPairs(d, t.kids[0]);
      KidCut(t, 0);
    }
  }

  /** An insertion without a free page adds one pair at most. */
  lemma {:induction false} InsertGrowth(d: int, t: Tree, key: int, val: Val, a: Alloc)
    requires Shaped(t) && KidsBalanced(t) && d >= 4 && a.free == None
    ensures |Flat(t)| <= |Flat(Insert(d, t, key, val, a).tree)| <= |Flat(t)| + 1
    decreases Depth(t)
  {
    hide Descend;
    if IsLeaf(t) {
      LeavesOne(t);
      LeavesOne(InsertLeaf(t, key, val));
    } else {
      DescendShape(d, t, key, a);
      KidKeepsHalves(d, t, key, a);
      DescendLeaves(d, t, key, a, None);
      var s := Descend(d, t, key, a);
      InsertGrowth(d, s.tree.kids[s.index], key, val, s.alloc);
      WithKidLength(s.tree, s.index, Insert(d, s.tree.kids[s.index], key, val, s.alloc).tree);
    }
  }

  lemma WithKidLength(t: Tree, i: nat, c: Tree)
    requires i < |t.kids|
    ensures |Flat(WithKid(t, i, c))| - |Flat(c)| == |Flat(t)| - |Flat(t.kids[i])|
  {
    KidCut(t, i);
    WithKidCut(t, i, c);
  }

  /** A split that takes the page of the free list drops the right half: at least two pairs. */
  lemma ReuseDrops(d: int, t: Tree, i: nat, a: Alloc)
    requires DegreeAccepted(d) && d >= 6 && Shaped(t) && FilledKids(d, t) && i < |t.kids|
    requires a.free.Some? && Shaped(t.kids[i]) && IsFull(d, t.kids[i])
    ensures |Flat(SplitKid(t, i, Split(t.kids[i], a)))| <= |Flat(t)| - 2
  {
    var c := t.kids[i];
    assert c in t.kids;
    var s := Split(c, a);
    var r := RightHalf(c, NextId(a), StaleLink(a));
    HalvesLeaves(c, NextId(a), StaleLink(a), None);
    EntriesConcat(Leaves(s.left), Leaves(r));
    RightHalfPairs(d, c, NextId(a), StaleLink(a));
    BlankHoldsNothing(NextId(a), StaleLink(a));
    SplitKidLength(t, i, s);
  }

  lemma BlankHoldsNothing(id: int, link: Option<int>)
    ensures Flat(BlankPage(id, link)) == []
  {
    LeavesOne(BlankPage(id, link));
  }

  lemma SplitKidLength(t: Tree, i: nat, s: SplitResult)
    requires i < |t.kids| && i <= |t.keys|
    ensures |Flat(SplitKid(t, i, s))| - |Flat(s.left)| - |Flat(s.right)| == |Flat(t)| - |Flat(t.kids[i])|
  {
    KidCut(t, i);
    LeavesCut(t.kids[..i], [s.left, s.right], t.kids[i + 1..]);
    PairLeaves(s.left, s.right);
    EntriesConcat(Leaves(s.left), Leaves(s.right));
    EntriesCut(LeavesOf(t.kids[..i]), Leaves(s.left) + Leaves(s.right), LeavesOf(t.kids[i + 1..]));
  }

  lemma RightHalfPairs(d: int, t: Tree, newId: int, link: Option<int>)
    requires DegreeAccepted(d) && d >= 6 && Shaped(t) && FilledKids(d, t) && IsFull(d, t)
    ensures |Flat(RightHalf(t, newId, link))| >= 2
  {
    var r := RightHalf(t, newId, link);
    if IsLeaf(t) {
      LeavesOne(r);
    } else {
      assert |r.kids| >= 2;
      var x, y := r.kids[0], r.kids[1];
      assert x in t.kids && y in t.kids;
      FilledHoldsPairs(d, x);
      FilledHoldsPairs(d, y);
      assert r.kids == [x, y] + r.kids[2..];
      LeavesConcat([x, y], r.kids[2..]);
      PairLeaves(x, y);
      EntriesConcat(Leaves(x) + Leaves(y), LeavesOf(r.kids[2..]));
      EntriesConcat(Leaves(x), Leaves(y));
    }
  }

  /** An insertion that splits into the page of the free list loses pairs. */
  lemma {:induction false} ReuseLoses(d: int, t: Tree, key: int, val: Val, a: Alloc)
    requires DegreeAccepted(d) && d >= 6 && Shaped(t) && Balanced(t) && FilledKids(d, t)
    requires a.free.Some? && SplitsOnPath(d, t, key)
    ensures |Flat(Insert(d, t, key, val, a).tree)| < |Flat(t)|
    decreases Depth(t)
  {
    hide Split, SplitKid;
    var i := ChildIndex(t.keys, key);
    assert t.kids[i] in t.kids;
    DescendShape(d, t, key, a);
    var s := Descend(d, t, key, a);
    var c := s.tree.kids[s.index];
    if NeedsSplit(d, t, key) {
      ReuseDrops(d, t, i, a);
      assert s.alloc.free == None by { SplitUsesFree(t.kids[i], a); }
      InsertGrowth(d, c, key, val, s.alloc);
    } else {
      ReuseLoses(d, c, key, val, a);
    }
    WithKidLength(s.tree, s.index, Insert(d, c, key, val, s.alloc).tree);
  }

  lemma SplitUsesFree(t: Tree, a: Alloc)
    requires Shaped(t) && |t.keys| > 0
    ensures Split(t, a).alloc.free == None
  {
  }

  /** The inserted key is stored somewhere. */
  lemma {:induction false} InsertStores(d: int, t: Tree, key: int, val: Val, a: Alloc)
    requires Shaped(t) && Balanced(t) && d >= 4
    ensures exists e :: e in Flat(Insert(d, t, key, val, a).tree) && e.0 == key
    decreases Depth(t)
  {
    hide Descend;
    if IsLeaf(t) {
      var u := InsertLeaf(t, key, val);
      LeavesOne(u);
      var p := ChildIndex(t.keys, key);
      if key in t.keys {
        var q :| 0 <= q < |t.keys| && t.keys[q] == key;
        assert LeafEntries(u)[q].0 == key;
      } else {
        assert LeafEntries(u)[p].0 == key;
      }
    } else {
      DescendShape(d, t, key, a);
      var s := Descend(d, t, key, a);
      InsertStores(d, s.tree.kids[s.index], key, val, s.alloc);
      WithKidCut(s.tree, s.index, Insert(d, s.tree.kids[s.index], key, val, s.alloc).tree);
    }
  }

  /** An insertion that meets its own separator destroys the search order, whatever the bounds. */
  lemma {:induction false} SeparatorBreaksOrder(d: int, t: Tree, key: int, val: Val, a: Alloc,
      lo: Option<int>, hi: Option<int>, lo': Option<int>, hi': Option<int>)
    requires Shaped(t) && Balanced(t) && d >= 4 && a.free == None && MeetsItsSeparator(d, t, key, a)
    requires Ordered(t, lo, hi) && AtLeast(lo, key) && Under(key, hi)
    ensures !Ordered(Insert(d, t, key, val, a).tree, lo', hi')
    decreases Depth(t)
  {
    hide Descend, Leaves, EntriesOf;
    DescendShape(d, t, key, a);
    KidKeepsHalves(d, t, key, a);
    DescendOrdered(d, t, key, a, lo, hi);
    var s := Descend(d, t, key, a);
    var c := s.tree.kids[s.index];
    var c' := Insert(d, c, key, val, s.alloc).tree;
    var u := WithKid(s.tree, s.index, c');
    if Ordered(u, lo', hi') {
      assert KidOrdered(u, s.index, lo', hi');
      if ChildIndex(t.keys, key) == |t.keys| && NeedsSplit(d, t, key) && Promoted(t, key) == key {
        StepsLeft(d, t, key, a);
        InsertShape(d, c, key, val, s.alloc);
        InsertStores(d, c, key, val, s.alloc);
        FlatWithin(c', Lo(u.keys, lo', s.index), Hi(u.keys, hi', s.index));
        assert false;
      } else {
        SeparatorBreaksOrder(d, c, key, val, s.alloc, Lo(s.tree.keys, lo, s.index), Hi(s.tree.keys, hi, s.index),
                             Lo(u.keys, lo', s.index), Hi(u.keys, hi', s.index));
      }
    }
  }

  /** At its own separator the insertion turns left. */
  lemma StepsLeft(d: int, t: Tree, key: int, a: Alloc)
    requires Shaped(t) && Balanced(t) && !IsLeaf(t) && d >= 4
    requires ChildIndex(t.keys, key) == |t.keys| && NeedsSplit(d, t, key) && Promoted(t, key) == key
    ensures var s := Descend(d, t, key, a);
            s.index + 1 == |s.tree.keys| && s.tree.keys[s.index] == key
  {
  }

  /** The exact condition under which an insertion refines insertion into the map. */
  lemma InsertRefinesExactlyWhenSafe(d: int, t: Tree, key: int, val: Val, a: Alloc)
    requires DegreeAccepted(d) && d >= 6 && Shaped(t) && Balanced(t) && Ordered(t, None, None) && FilledKids(d, t)
    ensures Safe(d, t, key, a) <==>
            var u := Insert(d, t, key, val, a).tree;
            Ordered(u, None, None) && Flat(u) == Ins(Flat(t), key, val)
  {
    if Safe(d, t, key, a) {
      InsertRefines(d, t, key, val, a, None, None);
    } else if !KeepsHalves(d, t, key, a) {
      ReuseLoses(d, t, key, val, a);
      InsLength(Flat(t), key, val);
    } else if a.free.Some? {
      NoSplitNoSeparator(d, t, key, a);
    } else {
      SeparatorBreaksOrder(d, t, key, val, a, None, None, None, None);
    }
  }

  lemma {:induction false} NoSplitNoSeparator(d: int, t: Tree, key: int, a: Alloc)
    requires Shaped(t) && Balanced(t) && d >= 4 && !SplitsOnPath(d, t, key)
    ensures !MeetsItsSeparator(d, t, key, a)
    decreases Depth(t)
  {
    if !IsLeaf(t) {
      DescendShape(d, t, key, a);
      NoSplitNoSeparator(d, t.kids[ChildIndex(t.keys, key)], key, a);
    }
  }

  /** Looking for a key of child i's interval looks into child i. */
  lemma FindInKid(t: Tree, i: nat, key: int, lo: Option<int>, hi: Option<int>)
    requires Shaped(t) && SortedKeys(t.keys) && i < |t.kids| && i <= |t.keys|
    requires i > 0 ==> t.keys[i - 1] <= key
    requires i < |t.keys| ==> key < t.keys[i]
    ensures Shaped(t.kids[i]) && Find(t, key) == Find(t.kids[i], key)
    ensures Ordered(t, lo, hi) && AtLeast(lo, key) && Under(key, hi) ==> Find(t.kids[i], key) == Get(Flat(t), key)
  {
    assert t.kids[i] in t.kids;
    ChildIndexUnique(t.keys, key, i);
    if Ordered(t, lo, hi) && AtLeast(lo, key) && Under(key, hi) { FindIsGet(t, key, lo, hi); }
  }

  /** Where the separator is met, the lookup goes right and the insertion went left. */
  lemma SeparatorHidesHere(t: Tree, i: nat, c: Tree, key: int, lo: Option<int>, hi: Option<int>)
    requires Shaped(t) && Ordered(t, lo, hi) && AtLeast(lo, key) && Under(key, hi)
    requires !IsLeaf(t) && i + 1 == |t.keys| && t.keys[i] == key && Shaped(WithKid(t, i, c))
    ensures Find(WithKid(t, i, c), key) == Get(Flat(t), key)
  {
    FindInKid(t, i + 1, key, lo, hi);
    FindInKid(WithKid(t, i, c), i + 1, key, lo, hi);
  }

  lemma SeparatorHidesBelow(t: Tree, i: nat, c: Tree, key: int, lo: Option<int>, hi: Option<int>)
    requires Shaped(t) && Ordered(t, lo, hi) && AtLeast(lo, key) && Under(key, hi) && i < |t.kids|
    requires AtLeast(Lo(t.keys, lo, i), key) && Under(key, Hi(t.keys, hi, i))
    requires Shaped(WithKid(t, i, c)) && Shaped(c) && Shaped(t.kids[i]) && Find(c, key) == Find(t.kids[i], key)
    ensures Find(WithKid(t, i, c), key) == Get(Flat(t), key)
  {
    FindInKid(t, i, key, lo, hi);
    FindInKid(WithKid(t, i, c), i, key, lo, hi);
  }

  /** The pair stored by an insertion that meets its own separator cannot be found: a lookup
      answers as if the insertion had not happened. */
  lemma {:induction false} SeparatorHidesPair(d: int, t: Tree, key: int, val: Val, a: Alloc, lo: Option<int>,
                                              hi: Option<int>)
    requires Shaped(t) && Balanced(t) && d >= 4 && a.free == None && MeetsItsSeparator(d, t, key, a)
    requires Ordered(t, lo, hi) && AtLeast(lo, key) && Under(key, hi)
    ensures Shaped(Insert(d, t, key, val, a).tree)
    ensures Find(Insert(d, t, key, val, a).tree, key) == Find(t, key)
    decreases Depth(t)
  {
    hide Descend, Find, Leaves, EntriesOf;
    InsertShape(d, t, key, val, a);
    DescendShape(d, t, key, a);
    KidKeepsHalves(d, t, key, a);
    DescendOrdered(d, t, key, a, lo, hi);
    DescendLeaves(d, t, key, a, None);
    FindIsGet(t, key, lo, hi);
    var s := Descend(d, t, key, a);
    var c := s.tree.kids[s.index];
    var c' := Insert(d, c, key, val, s.alloc).tree;
    if ChildIndex(t.keys, key) == |t.keys| && NeedsSplit(d, t, key) && Promoted(t, key) == key {
      StepsLeft(d, t, key, a);
      SeparatorHidesHere(s.tree, s.index, c', key, lo, hi);
    } else {
      SeparatorHidesPair(d, c, key, val, s.alloc, Lo(s.tree.keys, lo, s.index), Hi(s.tree.keys, hi, s.index));
      SeparatorHidesBelow(s.tree, s.index, c', key, lo, hi);
    }
  }
}
