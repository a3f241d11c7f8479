/** One page of the free space map: a perfect binary max-tree, cut off on the right to fit the page. */
module FsmTree {
  import opened Bytes
  import opened PageLayout
  import opened Wrappers

  function Pow2(k: nat): (p: nat)
    ensures p >= 1
  {
    if k == 0 then 1 else 2 * Pow2(k - 1)
  }

  // -------- page layout --------

  /** Page sizes are powers of two held in 16 bits; the tree needs at least 64 bytes. */
  predicate TreePage(pageSize: int, k: nat) { 5 <= k <= 14 && pageSize == Pow2(k + 1) }

  function Nodes(pageSize: int): int { MaxTuple(pageSize) }
  function NonLeafNodes(pageSize: int): int { pageSize / 2 - 1 }
  function LeafNodes(pageSize: int): int { Nodes(pageSize) - NonLeafNodes(pageSize) }

  // -------- the tree in an array --------

  function Max(a: int, b: int): int { if a >= b then a else b }

  /** The maximum of the children that are in the array; 0 when there are none. */
  function ChildMax(s: seq<int>, x: nat): int {
    if 2 * x + 1 >= |s| then 0
    else if 2 * x + 2 >= |s| then s[2 * x + 1]
    else Max(s[2 * x + 1], s[2 * x + 2])
  }

  /** Every internal node holds the maximum of its children. */
  ghost predicate MaxTree(s: seq<int>, inner: nat) {
    && inner <= |s|
    && (forall x :: 0 <= x < |s| ==> s[x] >= 0)
    && (forall x {:trigger ChildMax(s, x)} :: 0 <= x < inner ==> s[x] == ChildMax(s, x))
  }

  /** The leftmost and the rightmost node j levels below x. */
  function First(x: nat, j: nat): nat
    decreases j
  {
    if j == 0 then x else First(2 * x + 1, j - 1)
  }

  function Last(x: nat, j: nat): nat
    decreases j
  {
    if j == 0 then x else Last(2 * x + 2, j - 1)
  }

  lemma {:induction false} FirstLast(x: nat, j: nat)
    ensures First(x, j) == (x + 1) * Pow2(j) - 1
    ensures Last(x, j) == (x + 2) * Pow2(j) - 2
    ensures x <= First(x, j) <= Last(x, j) + 1
    decreases j
  {
    if j > 0 {
      FirstLast(2 * x + 1, j - 1);
      FirstLast(2 * x + 2, j - 1);
      var p := Pow2(j - 1);
      assert (2 * x + 2) * p == (x + 1) * (2 * p);
      assert (2 * x + 4) * p == (x + 2) * (2 * p);
      FirstGrows(x, j);
    }
  }

  lemma {:induction false} FirstGrows(x: nat, j: nat)
    requires j > 0
    ensures 2 * x + 1 <= First(x, j) <= Last(x, j)
    decreases j
  {
    if j > 1 {
      FirstGrows(2 * x + 1, j - 1);
      FirstGrows(2 * x + 2, j - 1);
      FirstMonotone(2 * x + 1, 2 * x + 2, j - 1);
    }
  }

  lemma {:induction false} FirstMonotone(x: nat, y: nat, j: nat)
    requires x <= y
    ensures First(x, j) <= First(y, j) && Last(x, j) <= Last(y, j)
    decreases j
  {
    if j > 0 { FirstMonotone(2 * x + 1, 2 * y + 1, j - 1); FirstMonotone(2 * x + 2, 2 * y + 2, j - 1); }
  }

  /** The leaves of the right child follow those of the left one. */
  lemma SiblingsMeet(x: nat, j: nat)
    requires j > 0
    ensures First(x, j) == First(2 * x + 1, j - 1)
    ensures First(2 * x + 2, j - 1) == Last(2 * x + 1, j - 1) + 1
    ensures Last(x, j) == Last(2 * x + 2, j - 1)
  {
    FirstLast(2 * x + 1, j - 1);
    FirstLast(2 * x + 2, j - 1);
    var p := Pow2(j - 1);
    assert (2 * x + 3) * p - 1 == ((2 * x + 1) + 2) * p - 2 + 1;
  }

  /** Node x stands above the leaf level, j levels up. */
  ghost predicate Above(inner: nat, x: nat, j: nat) {
    inner <= First(x, j) && Last(x, j) <= 2 * inner
  }

  lemma AboveInner(inner: nat, x: nat, j: nat)
    requires Above(inner, x, j)
    ensures x < inner <==> j > 0
    ensures j > 0 ==> Above(inner, 2 * x + 1, j - 1) && Above(inner, 2 * x + 2, j - 1)
  {
    if j > 0 {
      FirstGrows(x, j);
      SiblingsMeet(x, j);
      FirstLast(2 * x + 1, j - 1);
      FirstLast(2 * x + 2, j - 1);
      FirstMonotone(2 * x + 1, 2 * x + 2, j - 1);
    }
  }

  /** The root stands above the whole leaf level. */
  lemma RootAbove(inner: nat, k: nat)
    requires inner + 1 == Pow2(k)
    ensures Above(inner, 0, k) && First(0, k) == inner && Last(0, k) == 2 * inner
  {
    FirstLast(0, k);
  }

  /** A node bounds every leaf below it. */
  lemma {:induction false} BoundsBelow(s: seq<int>, inner: nat, x: nat, j: nat, y: nat)
    requires MaxTree(s, inner) && Above(inner, x, j) && First(x, j) <= y <= Last(x, j) && y < |s|
    ensures x < |s| && s[y] <= s[x]
    decreases j
  {
    AboveInner(inner, x, j);
    if j > 0 {
      assert s[x] == ChildMax(s, x);
      SiblingsMeet(x, j);
      if y <= Last(2 * x + 1, j - 1) {
        BoundsBelow(s, inner, 2 * x + 1, j - 1, y);
      } else {
        BoundsBelow(s, inner, 2 * x + 2, j - 1, y);
      }
    }
  }

  /** A positive node has a leaf below it inside the array. */
  lemma {:induction false} PositiveReaches(s: seq<int>, inner: nat, x: nat, j: nat)
    requires MaxTree(s, inner) && Above(inner, x, j) && x < |s| && s[x] > 0
    ensures First(x, j) < |s|
    decreases j
  {
    AboveInner(inner, x, j);
    if j > 0 {
      assert s[x] == ChildMax(s, x);
      SiblingsMeet(x, j);
      FirstLast(2 * x + 1, j - 1);
      if 2 * x + 2 < |s| && s[2 * x + 2] > 0 {
        PositiveReaches(s, inner, 2 * x + 2, j - 1);
        FirstMonotone(2 * x + 1, 2 * x + 2, j - 1);
      } else {
        PositiveReaches(s, inner, 2 * x + 1, j - 1);
      }
    }
  }

  /** The root is the maximum over all leaves. */
  lemma RootIsMaximum(s: seq<int>, inner: nat, k: nat)
    requires MaxTree(s, inner) && inner + 1 == Pow2(k) && inner < |s| <= 2 * inner + 1
    ensures forall y :: inner <= y < |s| ==> s[y] <= s[0]
    ensures exists y :: inner <= y < |s| && s[y] == s[0]
  {
    RootAbove(inner, k);
    forall y | inner <= y < |s| ensures s[y] <= s[0] { BoundsBelow(s, inner, 0, k, y); }
    var y := Attained(s, inner, 0, k);
  }

  /** Some leaf below x holds the value of x, if x reaches into the array. */
  lemma {:induction false} Attained(s: seq<int>, inner: nat, x: nat, j: nat) returns (y: nat)
    requires MaxTree(s, inner) && Above(inner, x, j) && First(x, j) < |s|
    ensures First(x, j) <= y <= Last(x, j) && y < |s| && x < |s| && s[y] == s[x]
    decreases j
  {
    AboveInner(inner, x, j);
    if j == 0 {
      y := x;
    } else {
      assert s[x] == ChildMax(s, x);
      FirstGrows(x, j);
      SiblingsMeet(x, j);
      var l, r := 2 * x + 1, 2 * x + 2;
      FirstMonotone(l, r, j - 1);
      if r < |s| && s[r] > s[l] {
        PositiveReaches(s, inner, r, j - 1);
        y := Attained(s, inner, r, j - 1);
      } else {
        y := Attained(s, inner, l, j - 1);
      }
    }
  }

  /** The leaves determine the whole tree. */
  lemma LeavesDetermine(s: seq<int>, t: seq<int>, inner: nat)
    requires MaxTree(s, inner) && MaxTree(t, inner) && |s| == |t|
    requires forall y :: inner <= y < |s| ==> s[y] == t[y]
    ensures s == t
  {
    forall x | 0 <= x < |s| ensures s[x] == t[x] { NodeDetermined(s, t, inner, x); }
  }

  lemma {:induction false} NodeDetermined(s: seq<int>, t: seq<int>, inner: nat, x: nat)
    requires MaxTree(s, inner) && MaxTree(t, inner) && |s| == |t| && x < |s|
    requires forall y :: inner <= y < |s| ==> s[y] == t[y]
    ensures s[x] == t[x]
    decreases |s| - x
  {
    if x < inner {
      assert s[x] == ChildMax(s, x) && t[x] == ChildMax(t, x);
      if 2 * x + 1 < |s| { NodeDetermined(s, t, inner, 2 * x + 1); }
      if 2 * x + 2 < |s| { NodeDetermined(s, t, inner, 2 * x + 2); }
    }
  }

  // -------- searching --------

  /** The search stands at x, j levels above the leaves: enough below, too little to the left. */
  ghost predicate Searching(s: seq<int>, inner: nat, x: nat, j: nat, n: int) {
    && Above(inner, x, j) && x < |s| && First(x, j) < |s| && s[x] >= n
    && forall y :: inner <= y < First(x, j) ==> s[y] < n
  }

  lemma SearchStarts(s: seq<int>, inner: nat, k: nat, n: int)
    requires inner + 1 == Pow2(k) && inner < |s| && s[0] >= n
    ensures Searching(s, inner, 0, k, n)
  {
    RootAbove(inner, k);
  }

  /** The leftmost leaf with enough. */
  ghost predicate FirstFit(s: seq<int>, inner: nat, x: nat, n: int) {
    inner <= x < |s| && s[x] >= n && forall y :: inner <= y < x ==> s[y] < n
  }

  lemma SearchEnds(s: seq<int>, inner: nat, x: nat, j: nat, n: int)
    requires Searching(s, inner, x, j, n) && x >= inner
    ensures FirstFit(s, inner, x, n)
  {
    AboveInner(inner, x, j);
  }

  lemma StepDown(s: seq<int>, inner: nat, x: nat, j: nat, n: int)
    requires MaxTree(s, inner) && Searching(s, inner, x, j, n) && x < inner && n >= 0
    ensures j > 0 && 2 * x + 1 < |s|
    ensures s[2 * x + 1] >= n ==> Searching(s, inner, 2 * x + 1, j - 1, n)
    ensures s[2 * x + 1] < n ==> 2 * x + 2 < |s| && s[2 * x + 2] >= n && Searching(s, inner, 2 * x + 2, j - 1, n)
  {
    AboveInner(inner, x, j);
    FirstGrows(x, j);
    SiblingsMeet(x, j);
    var l, r := 2 * x + 1, 2 * x + 2;
    if s[l] < n {
      assert s[x] == ChildMax(s, x);
      PositiveReaches(s, inner, r, j - 1);
      forall y | First(l, j - 1) <= y < First(r, j - 1) ensures s[y] < n { BoundsBelow(s, inner, l, j - 1, y); }
    }
  }

  // -------- updating --------

  /** All maxima are right except perhaps at p. */
  ghost predicate MaximaExcept(s: seq<int>, inner: nat, p: nat) {
    inner <= |s| && forall x {:trigger ChildMax(s, x)} :: 0 <= x < inner && x != p ==> s[x] == ChildMax(s, x)
  }

  function Parent(x: nat): nat
    requires x > 0
  {
    (x - 1) / 2
  }

  /** A changed node matters to its parent only. */
  lemma ChangeOne(s: seq<int>, inner: nat, p: nat, v: int)
    requires inner <= |s| && 0 < p < |s| && MaximaExcept(s, inner, p)
    requires p < inner ==> v == ChildMax(s, p)
    ensures MaximaExcept(s[p := v], inner, Parent(p))
  {
    var t := s[p := v];
    forall x | 0 <= x < inner && x != Parent(p) ensures t[x] == ChildMax(t, x) {
      assert 2 * x + 1 != p && 2 * x + 2 != p;
      assert x == p || s[x] == ChildMax(s, x);
    }
  }

  lemma ChangeRoot(s: seq<int>, inner: nat, v: int)
    requires 0 < inner <= |s| && MaximaExcept(s, inner, 0) && v == ChildMax(s, 0)
    ensures MaximaExcept(s[0 := v], inner, inner)
  {
    var t := s[0 := v];
    forall x | 0 <= x < inner ensures t[x] == ChildMax(t, x) {
      assert x == 0 || s[x] == ChildMax(s, x);
    }
  }

  /** A slot found by a search, with the value the search reports for it. */
  datatype FsmSlot = FsmSlot(slotIndex: nat, availableSpace: int)

  class BinaryTree {
    const arr: array<Byte>
    const nonLeafNodes: nat
    const leafNodes: nat
    ghost const k: nat

    /** The shape a page size gives the tree. */
    ghost predicate Shape()
    {
      && nonLeafNodes + 1 == Pow2(k) && leafNodes > 0 && nonLeafNodes > 0
      && arr.Length == nonLeafNodes + leafNodes <= 2 * nonLeafNodes + 1
    }

    ghost predicate Valid()
      reads this, arr
    {
      Shape() && MaxTree(arr[..], nonLeafNodes)
    }

    /** The values of the leaf slots. */
    ghost function Slots(): (s: seq<Byte>)
      reads this, arr
      requires Shape()
      ensures |s| == leafNodes
    {
      arr[nonLeafNodes..]
    }

    constructor (pageSize: nat, ghost k: nat)
      requires TreePage(pageSize, k)
      ensures Valid() && fresh(arr) && arr.Length == Nodes(pageSize) && leafNodes == LeafNodes(pageSize)
      ensures nonLeafNodes == NonLeafNodes(pageSize)
      ensures forall i :: 0 <= i < arr.Length ==> arr[i] == 0
    {
      this.k := k;
      PowAtLeast(k);
      arr := new Byte[Nodes(pageSize)](_ => 0);
      nonLeafNodes := NonLeafNodes(pageSize);
      leafNodes := LeafNodes(pageSize);
    }

    constructor Deserialize(bytes: seq<Byte>, pageSize: nat, ghost k: nat)
      requires TreePage(pageSize, k) && |bytes| == Nodes(pageSize)
      ensures Shape() && fresh(arr) && arr[..] == bytes && leafNodes == LeafNodes(pageSize)
      ensures nonLeafNodes == NonLeafNodes(pageSize)
    {
      this.k := k;
      PowAtLeast(k);
      arr := new Byte[|bytes|](i requires 0 <= i < |bytes| => bytes[i]);
      nonLeafNodes := NonLeafNodes(pageSize);
      leafNodes := LeafNodes(pageSize);
    }

    predicate IsLeafNode(index: nat)
    {
      index >= nonLeafNodes
    }

    /** The smallest slot with enough space, or None exactly when no slot has enough. The reported
        value is read at the slot number, not at the leaf. */
    method FindAvailable(minSpaceNeeded: Byte) returns (r: Option<FsmSlot>)
      requires Valid()
      ensures r.None? <==> forall i :: 0 <= i < leafNodes ==> Slots()[i] < minSpaceNeeded
      ensures r.None? <==> arr[0] < minSpaceNeeded
      ensures r.Some? ==>
                var i := r.value.slotIndex;
                && i < leafNodes && Slots()[i] >= minSpaceNeeded
                && (forall h :: 0 <= h < i ==> Slots()[h] < minSpaceNeeded)
                && i < arr.Length && r.value.availableSpace == arr[i]
    {
      ghost var s := arr[..];
      RootIsMaximum(s, nonLeafNodes, k);
      assert forall i :: 0 <= i < leafNodes ==> Slots()[i] == s[nonLeafNodes + i];
      if arr[0] < minSpaceNeeded {
        return None;
      }
      ghost var best :| nonLeafNodes <= best < |s| && s[best] == s[0];
      assert Slots()[best - nonLeafNodes] >= minSpaceNeeded;
      var current := WalkDown(minSpaceNeeded);
      var slot := current - nonLeafNodes;
      assert Slots()[slot] == arr[current];
      r := Some(FsmSlot(slot, arr[slot]));
    }

    /** From the root to the leftmost leaf with enough space. */
    method WalkDown(minSpaceNeeded: Byte) returns (current: nat)
      requires Valid() && arr[0] >= minSpaceNeeded
      ensures FirstFit(arr[..], nonLeafNodes, current, minSpaceNeeded)
    {
      ghost var s := arr[..];
      SearchStarts(s, nonLeafNodes, k, minSpaceNeeded);
      assert MaxTree(s, nonLeafNodes);
      hide Searching, MaxTree, Above, First, Last, Pow2, FirstFit;
      current := 0;
      ghost var j := k;
      while !IsLeafNode(current)
        invariant Searching(s, nonLeafNodes, current, j, minSpaceNeeded)
        decreases j
      {
        StepDown(s, nonLeafNodes, current, j, minSpaceNeeded);
        var leftChild := 2 * current + 1;
        var rightChild := leftChild + 1;
        var leftValue := arr[leftChild];
        var rightValue: Byte := if rightChild < arr.Length then arr[rightChild] else 0;
        if leftValue >= minSpaceNeeded {
          current := leftChild;
        } else if rightValue >= minSpaceNeeded {
          current := rightChild;
        } else {
          assert false;
        }
        j := j - 1;
      }
      SearchEnds(s, nonLeafNodes, current, j, minSpaceNeeded);
    }

    /** Set one slot and restore the maxima above it. */
    method SetAvailableSpace(slot: nat, availableSpace: Byte)
      requires Valid() && slot < leafNodes
      modifies arr
      ensures Valid() && Slots() == old(Slots())[slot := availableSpace]
      ensures arr[0] >= availableSpace
    {
      ghost var before := arr[..];
      RootIsMaximum(before, nonLeafNodes, k);
      var node := nonLeafNodes + slot;
      assert before[node] == arr[node];
      if arr[node] == availableSpace && availableSpace <= arr[0] {
        assert Slots() == old(Slots())[slot := availableSpace];
        return;
      }
      arr[node] := availableSpace;
      ghost var after := before[node := availableSpace];
      assert arr[..] == after;
      ChangeOne(before, nonLeafNodes, node, availableSpace);
      Repair(node, after);
      assert Slots() == old(Slots())[slot := availableSpace];
      RootIsMaximum(arr[..], nonLeafNodes, k);
      assert arr[..][nonLeafNodes + slot] == availableSpace;
    }

    /** Walk up from a changed node; stop at the first maximum that does not change. */
    method Repair(changed: nat, ghost s: seq<int>)
      requires Shape() && 0 < changed < arr.Length && arr[..] == s
      requires MaximaExcept(s, nonLeafNodes, Parent(changed))
      modifies arr
      ensures MaxTree(arr[..], nonLeafNodes)
      ensures arr[nonLeafNodes..] == s[nonLeafNodes..]
    {
      var node := changed;
      while true
        invariant 0 < node < arr.Length && MaximaExcept(arr[..], nonLeafNodes, Parent(node))
        invariant forall y :: nonLeafNodes <= y < arr.Length ==> arr[y] == s[y]
        decreases node
      {
        node := Parent(node);
        ghost var now := arr[..];
        var newValue := MaxOfChildren(node);
        if arr[node] == newValue {
          NothingToDo(now, nonLeafNodes, node);
          break;
        }
        hide MaximaExcept, ChildMax;
        arr[node] := newValue;
        assert arr[..] == now[node := newValue];
        if node == 0 {
          ChangeRoot(now, nonLeafNodes, newValue);
          break;
        }
        ChangeOne(now, nonLeafNodes, node, newValue);
      }
    }

    method MaxOfChildren(node: nat) returns (newValue: Byte)
      requires 2 * node + 1 < arr.Length
      ensures newValue == ChildMax(arr[..], node)
    {
      var left := 2 * node + 1;
      var right := left + 1;
      newValue := arr[left];
      if right < arr.Length {
        newValue := if newValue >= arr[right] then newValue else arr[right];
      }
    }
  }

  lemma NothingToDo(s: seq<int>, inner: nat, p: nat)
    requires MaximaExcept(s, inner, p) && p < inner && s[p] == ChildMax(s, p)
    ensures MaximaExcept(s, inner, inner)
  {
  }

  /** What the shape of a page rests on. */
  lemma PowAtLeast(k: nat)
    requires 5 <= k <= 14
    ensures Pow2(k) >= 32 && Pow2(k + 1) == 2 * Pow2(k) && Pow2(k + 1) <= 32768
  {
    PowMonotone(5, k);
    PowMonotone(k + 1, 15);
    assert Pow2(5) == 32;
    assert Pow2(15) == 32 * Pow2(10) == 32 * 32 * Pow2(5);
  }

  lemma {:induction false} PowMonotone(a: nat, b: nat)
    requires a <= b
    ensures Pow2(a) <= Pow2(b)
    decreases b - a
  {
    if a < b { PowMonotone(a, b - 1); }
  }
}
