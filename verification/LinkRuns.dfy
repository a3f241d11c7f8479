/** A run from an empty store after which the leaf chain turns back. */
module BTreeLinkRuns {
  import opened Wrappers
  import opened Entries
  import opened BTree
  import opened BTreeSplit
  import opened BTreeInsert
  import opened BTreeDelete
  import opened BTreeStates
  import opened BTreeRuns
  import opened StoredTrees
  import opened BTreeLinks

  /** Leaf 1, between leaves 0 and 3, is about to be merged away. */
  function FourLeaves(second: seq<int>): Tree {
    Tree(2, [3, 5, 7], [],
         [LeafPage(0, [1, 2], Some(1)), LeafPage(1, second, Some(3)), LeafPage(3, [5, 6], Some(4)),
          LeafPage(4, [7, 8, 9, 10], None)], None)
  }

  function ThreeLeaves(first: seq<int>, last: seq<int>): Tree {
    Tree(2, [5, 7], [], [LeafPage(0, first, Some(3)), LeafPage(3, [5, 6], Some(4)), LeafPage(4, last, None)], None)
  }

  /** The last leaf has been split into page 1, which still links to page 3. */
  function Turned(): Tree {
    Tree(2, [5, 7, 9], [],
         [LeafPage(0, [1, 2], Some(3)), LeafPage(3, [5, 6], Some(4)), LeafPage(4, [7, 8], Some(1)),
          LeafPage(1, [12], Some(3))], None)
  }

  const FREE := Alloc(Some(FreePage(1, Some(3))), 5)

  lemma LoadTen()
    ensures Reaches(6, Load(10), State(Some(FourLeaves([3, 4])), Alloc(None, 5)))
  {
    hide Reaches;
    LoadRow(3);
    assert RootIds(3) == [0, 1, 3, 4];
    assert Row(2, 1, [0, 1, 3, 4]) == FourLeaves([3, 4]);
  }

  lemma FourLeavesFacts()
    ensures var t := FourLeaves([3, 4]);
            && Shaped(t) && Balanced(t) && !IsLeaf(t) && |t.keys| == 3 && |t.kids| == 4 && ChildIndex(t.keys, 3) == 1
            && t.kids[1] == LeafPage(1, [3, 4], Some(3))
            && WithKid(t, 1, LeafPage(1, [4], Some(3))) == FourLeaves([4])
  {
    LeavesGiveShape(FourLeaves([3, 4]));
    ChildIndexUnique([3, 5, 7], 3, 1);
  }

  lemma LeafLosesThree()
    ensures var l := LeafPage(1, [3, 4], Some(3));
            && Shaped(l) && Balanced(l) && !IsLacking(6, l)
            && Delete(6, l, 3).tree == LeafPage(1, [4], Some(3)) && Delete(6, l, 3).freed == []
  {
    DropFromLeaf(1, [3, 4], Some(3), 0);
    assert [3, 4][..0] + [3, 4][1..] == [4];
    LeafIsBalanced(LeafPage(1, [3, 4], Some(3)));
  }

  lemma DropThree()
    ensures var t := FourLeaves([3, 4]);
            && RootReady(State(Some(t), Alloc(None, 5)))
            && DeleteFrom(6, State(Some(t), Alloc(None, 5)), 3).state == State(Some(FourLeaves([4])), Alloc(None, 5))
  {
    hide *;
    FourLeavesFacts();
    LeafLosesThree();
    Ready(FourLeaves([3, 4]), Alloc(None, 5));
    DropPlain(6, FourLeaves([3, 4]), 1, 3, LeafPage(1, [4], Some(3)), Alloc(None, 5));
  }

  /** Leaf 1 lacks keys and neither neighbour can lend, so it goes into leaf 0. */
  lemma FourLeavesMerge()
    ensures var t := FourLeaves([4]);
            && Shaped(t) && Balanced(t) && !IsLeaf(t) && ChildIndex(t.keys, 4) == 1
            && Repair(6, t, 1) == Repaired(ThreeLeaves([1, 2, 4], [7, 8, 9, 10]), 0, [FreePage(1, Some(3))])
  {
    var t := FourLeaves([4]);
    LeavesGiveShape(t);
    ChildIndexUnique([3, 5, 7], 4, 1);
    assert [1, 2] + [4] == [1, 2, 4];
    assert Join(t.kids[0], 3, t.kids[1]) == LeafPage(0, [1, 2, 4], Some(3));
  }

  lemma DropFour()
    ensures var t := FourLeaves([4]);
            && RootReady(State(Some(t), Alloc(None, 5)))
            && DeleteFrom(6, State(Some(t), Alloc(None, 5)), 4).state
               == State(Some(ThreeLeaves([1, 2], [7, 8, 9, 10])), FREE)
  {
    hide Repair, Join;
    FourLeavesMerge();
    var t, u := FourLeaves([4]), ThreeLeaves([1, 2, 4], [7, 8, 9, 10]);
    var c := LeafPage(0, [1, 2], Some(3));
    LeafPageShaped(0, [1, 2, 4], Some(3));
    LeafIsBalanced(u.kids[0]);
    DropFromLeaf(0, [1, 2, 4], Some(3), 2);
    assert [1, 2, 4][..2] + [1, 2, 4][3..] == [1, 2];
    DropRepaired(6, t, 1, 4, Repair(6, t, 1), Deleted(c, Some((4, 0)), []));
    assert WithKid(u, 0, c) == ThreeLeaves([1, 2], [7, 8, 9, 10]);
  }

  lemma PutEleven()
    ensures var t := ThreeLeaves([1, 2], [7, 8, 9, 10]);
            && RootReady(State(Some(t), FREE))
            && Apply(6, State(Some(t), FREE), Put(11)).state
               == State(Some(ThreeLeaves([1, 2], [7, 8, 9, 10, 11])), FREE)
  {
    hide Insert, Apply;
    var t := ThreeLeaves([1, 2], [7, 8, 9, 10]);
    LeavesGiveShape(t);
    AppendKey(6, t, 4, [7, 8, 9, 10], 11, FREE);
    assert [7, 8, 9, 10] + [11] == [7, 8, 9, 10, 11];
    assert t.kids[2 := LeafPage(4, [7, 8, 9, 10, 11], None)] == ThreeLeaves([1, 2], [7, 8, 9, 10, 11]).kids;
    PutInto(6, t, 11, FREE);
  }

  lemma LastLeafSplits()
    ensures Split(LeafPage(4, [7, 8, 9, 10, 11], None), FREE)
         == SplitResult(LeafPage(4, [7, 8], Some(1)), LeafPage(1, [], Some(3)), 9, Alloc(None, 5))
  {
    assert [7, 8, 9, 10, 11][..2] == [7, 8];
  }

  lemma PutTwelve()
    ensures var t := ThreeLeaves([1, 2], [7, 8, 9, 10, 11]);
            && RootReady(State(Some(t), FREE)) && SplitsLeafIntoFree(6, State(Some(t), FREE), 12)
            && Apply(6, State(Some(t), FREE), Put(12)).state == State(Some(Turned()), Alloc(None, 5))
  {
    var t, c := ThreeLeaves([1, 2], [7, 8, 9, 10, 11]), LeafPage(4, [7, 8, 9, 10, 11], None);
    LeavesGiveShape(t);
    ChildIndexUnique([5, 7], 12, 2);
    assert OnlyLeafIsFull(6, c, 12) && t.kids[2] == c;
    LastLeafSplits();
    AppendToLeaf(1, [], Some(3), 12);
    LeafPageShaped(1, [], Some(3));
    assert [] + [12] == [12];
    hide Insert, Apply, LeafPage, Split, InsertLeaf;
    var u := SplitKid(t, 2, Split(c, FREE));
    StepIntoLeaf(6, t, 12, (12, 0), FREE, u, 3, Alloc(None, 5));
    assert WithKid(u, 3, LeafPage(1, [12], Some(3))) == Turned();
    PutInto(6, t, 12, FREE);
  }

  function TurnOps(): seq<Op> { Load(10) + [DeleteOp(3), DeleteOp(4), Put(11), Put(12)] }

  /** Ten keys go in, two come out, so that a leaf is released, and the second of two more puts splits a
      leaf into the released page. */
  lemma RunTurns()
    ensures Reaches(6, TurnOps(), State(Some(Turned()), Alloc(None, 5)))
  {
    hide Execute, Load, DeleteFrom, RootReady, Apply, Reaches, FourLeaves, ThreeLeaves, Turned;
    LoadTen();
    DropThree();
    var ops := Load(10);
    Drop(ops, State(Some(FourLeaves([3, 4])), Alloc(None, 5)), 3);
    DropFour();
    Drop(ops + [DeleteOp(3)], State(Some(FourLeaves([4])), Alloc(None, 5)), 4);
    PutEleven();
    Step1(6, ops + [DeleteOp(3)] + [DeleteOp(4)], State(Some(ThreeLeaves([1, 2], [7, 8, 9, 10])), FREE), Put(11));
    PutTwelve();
    Step1(6, ops + [DeleteOp(3)] + [DeleteOp(4)] + [Put(11)],
          State(Some(ThreeLeaves([1, 2], [7, 8, 9, 10, 11])), FREE), Put(12));
    assert ops + [DeleteOp(3)] + [DeleteOp(4)] + [Put(11)] + [Put(12)] == TurnOps();
  }

  /** The leaves lie in pages 0, 3, 4 and 1, and page 1 links back to page 3. */
  lemma ChainTurnsBack(p: map<int, PageImage>)
    ensures var r := Execute(6, EMPTY, TurnOps());
            && |r.answers| == |TurnOps()| && r.state.root.Some? && r.state.alloc == Alloc(None, 5)
            && (var ls := Leaves(r.state.root.value);
                && |ls| == 4
                && ls[0].id == 0 && ls[0].keys == [1, 2] && ls[0].next == Some(3)
                && ls[1].id == 3 && ls[1].keys == [5, 6] && ls[1].next == Some(4)
                && ls[2].id == 4 && ls[2].keys == [7, 8] && ls[2].next == Some(1)
                && ls[3].id == 1 && ls[3].keys == [12] && ls[3].next == Some(3))
            && Shaped(r.state.root.value) && FindLeaf(r.state.root.value, 7).id == 4
            && (Stored(p, r.state.root.value) ==> !Ends(p, Some(0)) && !Ends(p, Some(4)))
  {
    hide Execute;
    RunTurns();
    var t := Turned();
    LeavesGiveShape(t);
    ChildIndexUnique([5, 7, 9], 7, 2);
    FourKidsLeaves(t);
    assert FindLeaf(t, 7) == t.kids[2];
    if Stored(p, t) { NeverEnds(p, t); }
  }

  lemma FourKidsLeaves(t: Tree)
    requires |t.kids| == 4 && forall i :: 0 <= i < 4 ==> IsLeaf(t.kids[i])
    ensures Leaves(t) == t.kids
  {
    PairLeaves(t.kids[0], t.kids[1]);
    PairLeaves(t.kids[2], t.kids[3]);
    assert t.kids == [t.kids[0], t.kids[1]] + [t.kids[2], t.kids[3]];
    LeavesConcat([t.kids[0], t.kids[1]], [t.kids[2], t.kids[3]]);
  }

  lemma NeverEnds(p: map<int, PageImage>, t: Tree)
    requires t == Turned() && Stored(p, t)
    ensures !Ends(p, Some(0)) && !Ends(p, Some(4))
  {
    forall c | c in t.kids ensures c.id in p && p[c.id].nextLeaf == c.next {}
    assert t.kids[0] in t.kids && t.kids[1] in t.kids && t.kids[2] in t.kids && t.kids[3] in t.kids;
    assert 0 in p && 3 in p && 4 in p && 1 in p;
    Circle(p);
  }

  lemma Circle(p: map<int, PageImage>)
    requires 0 in p && 3 in p && 4 in p && 1 in p
    requires p[0].nextLeaf == Some(3) && p[3].nextLeaf == Some(4)
    requires p[4].nextLeaf == Some(1) && p[1].nextLeaf == Some(3)
    ensures !Ends(p, Some(0)) && !Ends(p, Some(4))
  {
    OneStep(p, 0);
    OneStep(p, 3);
    OneStep(p, 4);
    OneStep(p, 1);
    assert Follow(p, Some(4), 0 + 1) == Follow(p, Some(1), 0);
    assert Follow(p, Some(4), 1 + 1) == Follow(p, Some(1), 0 + 1);
    assert Follow(p, Some(4), 2 + 1) == Follow(p, Some(1), 1 + 1) == Follow(p, Some(3), 0 + 1);
    forall n: nat ensures Follow(p, Some(4), n) != None { NoEndOfCircle(p, Some(4), 3, n); }
    forall n: nat ensures Follow(p, Some(0), n) != None {
      OnceEnded(p, Some(0), n, n + 2);
      assert Follow(p, Some(0), n + 1 + 1) == Follow(p, Some(3), n + 1) == Follow(p, Some(4), n);
    }
  }
}
