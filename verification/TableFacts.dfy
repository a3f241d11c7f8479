/** Tables on which an insertion is refused, panics, or leaves the indexes ahead of the rows. */
module TableFacts {
  import opened Bytes
  import opened Entries
  import opened HashJoins
  import opened PageLayout
  import opened PageSlots
  import opened Rows
  import opened TableAccesses
  import opened TableIndexes
  import opened TablePages
  import opened TableRows
  import opened Wrappers
  import Addresses = FsmAddresses
  import FreeSpaceMap
  import Index = BTreeStates
  import Trees = BTree
  import Inserts = BTreeInsert
  import Splits = BTreeSplit

  // -------- the first page of a table --------

  /** Page 1 is the only one, with these slots, and the root of the free space map has its category. */
  ghost predicate OnePage(t: TableAccess, slots: seq<Slot>, from: nat)
    reads t, t.fsm
  {
    && t.Stored() && t.pageSize == 256 && t.heap.Keys == {1}
    && SlotsOn(t.heap, 1) == slots && StartOn(t.heap, 256, 1) == from && MaxAvailable(slots, from) >= 0
    && FreeSpaceMap.RootLevelHolds(t.fsm.L(), t.fsm.pages,
                                   FreeSpaceMap.PageSpaceToCategory(256, MaxAvailable(slots, from)))
  }

  ghost predicate StillEmpty(t: TableAccess)
    reads t, t.fsm
  {
    t.Stored() && t.pageSize == 256 && t.heap == map[] && t.fsm.pages == map[]
  }

  /** An empty table has no page to offer. */
  lemma EmptyNeedsNewPage(t: TableAccess, length: nat)
    requires StillEmpty(t) && 0 < length <= 235
    ensures t.fsm.NeedsNewPage(length) && !t.fsm.OutOfPages(length) && t.fsm.ChosenPage(length) == 1
    ensures !FallsShort(t.heap, 256, 1, length) && !RestHasNoRoom(t.heap, 256, 1, length)
    ensures SlotsOn(t.heap, 1) == [] && StartOn(t.heap, 256, 1) == 242
    ensures FreeSpaceMap.RootLevelHolds(t.fsm.L(), t.fsm.pages, 0)
  {
    assert 1 !in t.heap && t.fsm.nextHeapId == 1;
    RootOf(t.fsm);
  }

  lemma RootOf(f: FreeSpaceMap.Fsm)
    requires f.Valid() && f.pages == map[]
    ensures f.RootTop() == 0 && FreeSpaceMap.RootLevelHolds(f.L(), f.pages, 0)
  {
  }

  lemma RecordedOnePage(t: TableAccess, was: FreeSpaceMap.Pages, v: int)
    requires t.Stored() && t.pageSize == 256 && t.heap.Keys == {1} && t.Recorded(was, 1)
    requires FreeSpaceMap.RootLevelHolds(t.fsm.L(), was, v)
    ensures MaxAvailable(SlotsOn(t.heap, 1), StartOn(t.heap, 256, 1)) >= 0
    ensures var space := MaxAvailable(SlotsOn(t.heap, 1), StartOn(t.heap, 256, 1));
            FreeSpaceMap.RootLevelHolds(t.fsm.L(), t.fsm.pages, FreeSpaceMap.PageSpaceToCategory(256, space))
  {
    hide FreeSpaceMap.Recorded, FreeSpaceMap.RootLevelHolds, SlotsOn, StartOn;
    FreeSpaceMap.RecordedAtRoot(t.fsm.L(), was, t.fsm.pages, 0, FreeSpaceMap.PageSpaceToCategory(256, t.fsm.heap[1]),
                                v);
  }

  /** With one page, a request the root covers goes to it. */
  lemma OnePageIsChosen(t: TableAccess, slots: seq<Slot>, from: nat, length: nat)
    requires OnePage(t, slots, from)
    requires FreeSpaceMap.PageSpaceToCategory(256, MaxAvailable(slots, from))
             >= FreeSpaceMap.SpaceNeededToCategory(256, length)
    ensures !t.fsm.OutOfPages(length) && !t.fsm.NeedsNewPage(length) && t.fsm.ChosenPage(length) == 1
    ensures SlotsOn(t.heap, 1) == slots && StartOn(t.heap, 256, 1) == from && t.pageSize == 256 && t.Stored()
            && 1 in t.heap
  {
    hide FreeSpaceMap.RootLevelHolds, FreeSpaceMap.PageSpaceToCategory, FreeSpaceMap.SpaceNeededToCategory,
      MaxAvailable;
    t.fsm.SoundPages(0);
    FreeSpaceMap.RootOffersIt(t.fsm.L(), t.fsm.pages, t.fsm.nextId,
                              FreeSpaceMap.PageSpaceToCategory(256, MaxAvailable(slots, from)));
    t.fsm.ChoiceMeans(length);
    t.fsm.ChosenPageExists(length);
    assert t.fsm.ChosenPage(length) in t.heap;
  }

  lemma StartsEmpty(t: TableAccess)
    requires t.Valid() && t.pageSize == 256 && t.heap == map[] && t.fsm.pages == map[]
    ensures StillEmpty(t)
  {
  }

  lemma FirstPlace(was: HeapFile, now: HeapFile, place: (int, nat), length: nat)
    requires was == map[] && place.0 == 1 && 0 < length <= 235 && Placed(was, now, 256, 1, place.1, length)
    ensures place == (1, 0) && now.Keys == {1}
    ensures SlotsOn(now, 1) == [Slot(length, 242 - length, false)] && StartOn(now, 256, 1) == 242 - length
  {
  }

  lemma NowOnePage(t: TableAccess, slots: seq<Slot>, from: nat)
    requires t.Stored() && t.pageSize == 256 && t.heap.Keys == {1}
    requires SlotsOn(t.heap, 1) == slots && StartOn(t.heap, 256, 1) == from && MaxAvailable(slots, from) >= 0
    requires FreeSpaceMap.RootLevelHolds(t.fsm.L(), t.fsm.pages,
                                         FreeSpaceMap.PageSpaceToCategory(256, MaxAvailable(slots, from)))
    ensures OnePage(t, slots, from)
  {
  }

  // -------- rows of one text --------

  function As(n: nat): (s: seq<Byte>)
    ensures |s| == n && ValidUtf8(s)
  {
    if n == 0 then []
    else
      var s := [65] + As(n - 1);
      assert CharLength(s) == 1 && s[1..] == As(n - 1);
      s
  }

  function Texts(): Schema { [Column(1, "text", VarcharType(1000))] }

  function TextRow(n: nat): Row { Row([VarcharCell(As(n))]) }

  lemma TextRowBytes(n: nat)
    requires n <= 1000
    ensures Validates(TextRow(n), Texts()) && |RowBytes(TextRow(n).cells)| == n + 2
  {
    assert TextRow(n).cells[1..] == [];
    assert RowBytes(TextRow(n).cells) == CellBytes(VarcharCell(As(n))) + RowBytes([]);
  }

  lemma NoIndexes(t: TableAccess, row: Row)
    requires t.Valid() && t.columns == [] && Validates(row, t.schema)
    ensures t.RowError(row) == t.StorageError(|RowBytes(row.cells)|, false)
    ensures FreshKeys(t.schema, t.columns, t.indexes, row) && Healthy(t.indexes)
            && SafeKeys(t.schema, t.columns, t.indexes, row)
    ensures IntColumns(t.schema, t.columns, row) && AllColumnsKnown(t.schema, t.columns)
  {
    t.RowErrorMeans(row);
  }

  method NewTexts() returns (t: TableAccess)
    ensures fresh(t) && fresh(t.fsm) && t.Valid() && t.schema == Texts() && t.columns == [] && t.pageSize == 256
    ensures t.heap == map[] && t.fsm.pages == map[]
  {
    t := new TableAccess(256, Texts(), []);
  }

  /** A table of texts, without an index, that holds one row. */
  method OneText(n: nat) returns (t: TableAccess)
    requires n <= 233
    ensures fresh(t) && fresh(t.fsm) && t.Valid() && t.schema == Texts() && t.columns == []
    ensures OnePage(t, [Slot(n + 2, 240 - n, false)], 240 - n) && RowAt(t.heap, Texts(), 1, 0) == Some(TextRow(n))
  {
    hide *;
    t := NewTexts();
    StartsEmpty(t);
    TextRowBytes(n);
    EmptyNeedsNewPage(t, n + 2);
    NoIndexes(t, TextRow(n));
    t.StorageErrorMeans(n + 2, false);
    ghost var heap, pages := t.heap, t.fsm.pages;
    t.ValidParts();
    var r := t.Insert(TextRow(n));
    match r {
      case Ok(place) =>
        FirstPlace(heap, t.heap, place, n + 2);
        RecordedOnePage(t, pages, 0);
        NowOnePage(t, [Slot(n + 2, 240 - n, false)], 240 - n);
      case Err(_) =>
        assert false;
    }
  }

  // -------- a page that falls short --------

  lemma HundredBytesLeft()
    ensures var slots := [Slot(135, 107, false)];
            && MaxAvailable(slots, 107) == 100 && FreeSpaceMap.PageSpaceToCategory(256, 100) == 100
            && FreeSpaceMap.SpaceNeededToCategory(256, 100) == 100
            && forall heap: HeapFile :: SlotsOn(heap, 1) == slots && StartOn(heap, 256, 1) == 107 ==>
                 FallsShort(heap, 256, 1, 100)
  {
    assert MaxDeleted([Slot(135, 107, false)][..0]) == 0;
  }

  lemma NoPageAdded(was: HeapFile, now: HeapFile, id: int)
    requires PageAdded(was, now, id) && id in was
    ensures now == was
  {
  }

  /** A page has 100 bytes left and is chosen for a row of 100 bytes, but has no room for its slot: the row is
      refused. */
  method ShortPage() returns (t: TableAccess, r: Result<(int, nat), AccessError>)
    ensures t.Valid() && t.schema == Texts() && t.pageSize == 256 && r == Err(InsertRowError)
    ensures Validates(TextRow(98), Texts()) && |RowBytes(TextRow(98).cells)| == 100
    ensures FallsShort(t.heap, 256, 1, 100) && MaxAvailable(SlotsOn(t.heap, 1), StartOn(t.heap, 256, 1)) == 100
  {
    hide *;
    t := OneText(133);
    TextRowBytes(98);
    HundredBytesLeft();
    OnePageIsChosen(t, [Slot(135, 107, false)], 107, 100);
    NoIndexes(t, TextRow(98));
    t.StorageErrorMeans(100, false);
    t.ValidParts();
    ghost var before := t.heap;
    r := t.Insert(TextRow(98));
    NoPageAdded(before, t.heap, 1);
  }

  // -------- a rest without a slot --------

  lemma DeletedSlotIsTooLong()
    ensures var slots := [Slot(235, 7, true)];
            && [Slot(235, 7, false)][0 := [Slot(235, 7, false)][0].(deleted := true)] == slots
            && MaxAvailable(slots, 7) == 235 && FreeSpaceMap.PageSpaceToCategory(256, 235) == 255
            && FreeSpaceMap.SpaceNeededToCategory(256, 10) == 10
            && forall heap: HeapFile :: SlotsOn(heap, 1) == slots && StartOn(heap, 256, 1) == 7 ==>
                 !FallsShort(heap, 256, 1, 10) && RestHasNoRoom(heap, 256, 1, 10)
  {
    var slots := [Slot(235, 7, true)];
    assert MaxDeleted(slots[..0]) == 0;
    assert Fits(slots[0], 10);
  }

  lemma DeletedPage(was: HeapFile, now: HeapFile)
    requires SlotsOn(was, 1) == [Slot(235, 7, false)] && StartOn(was, 256, 1) == 7
    requires was.Keys == {1} && Marked(was, now, 256, 1, 0)
    ensures SlotsOn(now, 1) == [Slot(235, 7, true)] && StartOn(now, 256, 1) == 7 && now.Keys == {1}
  {
  }

  lemma OnePageRoot(t: TableAccess, slots: seq<Slot>, from: nat)
    requires OnePage(t, slots, from)
    ensures t.pageSize == 256 && t.Stored() && t.heap.Keys == {1} && t.fsm.Shape() && t.fsm.L().Ok()
    ensures SlotsOn(t.heap, 1) == slots && StartOn(t.heap, 256, 1) == from && MaxAvailable(slots, from) >= 0
    ensures FreeSpaceMap.RootLevelHolds(t.fsm.L(), t.fsm.pages,
                                        FreeSpaceMap.PageSpaceToCategory(256, MaxAvailable(slots, from)))
  {
  }

  lemma OneFound(n: nat)
    ensures forall i :: 0 <= i < |[Found(1, 0, TextRow(n))]| ==>
              [Found(1, 0, TextRow(n))][i].pageId == 1 && |[Found(1, 0, TextRow(n))][i].row.cells| == |Texts()|
  {
  }

  lemma WithoutIndexes(schema: Schema, indexes: seq<Index.State>, found: seq<Found>)
    requires |indexes| == 0
    ensures AllColumnsKnown(schema, []) && KeysMatchPlaces(schema, [], indexes, found)
    ensures forall row :: IntColumns(schema, [], row)
  {
  }

  /** A row fills its page and is deleted; a shorter one takes over its slot, and there is no room in the
      directory for what remains. */
  method RestWithoutSlot() returns (t: TableAccess, r: Result<(int, nat), AccessError>)
    ensures t.schema == Texts() && t.pageSize == 256 && Validates(TextRow(8), Texts()) && r == Err(Panic)
  {
    hide *;
    t := OneText(233);
    OnePageRoot(t, [Slot(235, 7, false)], 7);
    ghost var heap, pages := t.heap, t.fsm.pages;
    OneFound(233);
    WithoutIndexes(t.schema, t.indexes, [Found(1, 0, TextRow(233))]);
    t.ValidParts();
    t.StoredParts();
    var deleted := t.Delete([Found(1, 0, TextRow(233))]);
    DeletedPage(heap, t.heap);
    DeletedSlotIsTooLong();
    RecordedOnePage(t, pages, FreeSpaceMap.PageSpaceToCategory(256, MaxAvailable([Slot(235, 7, false)], 7)));
    NowOnePage(t, [Slot(235, 7, true)], 7);
    TextRowBytes(8);
    OnePageIsChosen(t, [Slot(235, 7, true)], 7, 10);
    NoIndexes(t, TextRow(8));
    t.StorageErrorMeans(10, false);
    r := t.Insert(TextRow(8));
  }

  // -------- a key without its row --------

  function Pairs(): Schema { [Column(1, "a", IntType), Column(2, "b", IntType)] }

  function Pair(a: I32, b: I32): Row { Row([IntCell(a), IntCell(b)]) }

  lemma PairFacts(a: I32, b: I32)
    ensures Validates(Pair(a, b), Pairs()) && |RowBytes(Pair(a, b).cells)| == 8
    ensures KeyOf(Pairs(), 1, Pair(a, b)) == Some(a) && KeyOf(Pairs(), 2, Pair(a, b)) == Some(b)
    ensures AllColumnsKnown(Pairs(), [1, 2]) && IntColumns(Pairs(), [1, 2], Pair(a, b))
  {
    var cells := Pair(a, b).cells;
    assert cells[1..] == [IntCell(b)] && cells[1..][1..] == [];
    assert RowBytes(cells[1..]) == CellBytes(IntCell(b)) + RowBytes([]);
    assert Pairs()[..1] == [Column(1, "a", IntType)] && Pairs()[..1][..0] == [];
    assert Position(Pairs()[..1], 1) == Some(0) && Position(Pairs()[..1], 2) == None;
  }

  /** An index with one key. */
  function Single(k: int, at: Val): Index.State {
    Index.State(Some(Trees.Tree(0, [k], [at], [], None)), Splits.Alloc(None, 1))
  }

  lemma FirstKey(k: int, at: Val)
    ensures Index.Inv(BTREE_MAX_DEGREE, Index.EMPTY) && Index.Abs(Index.EMPTY) == map[]
    ensures Index.SafeInsert(BTREE_MAX_DEGREE, Index.EMPTY, k) && !Index.Refuses(BTREE_MAX_DEGREE, Index.EMPTY, k)
    ensures Index.InsertInto(BTREE_MAX_DEGREE, Index.EMPTY, k, at).state == Single(k, at)
    ensures Index.Inv(BTREE_MAX_DEGREE, Single(k, at)) && Index.Abs(Single(k, at)) == map[k := at]
  {
    Index.EmptyInv(BTREE_MAX_DEGREE);
    LeafTakesFirst(k, at);
    Index.SafeInsertRefinesMap(BTREE_MAX_DEGREE, Index.EMPTY, k, at);
  }

  lemma LeafTakesFirst(k: int, at: Val)
    ensures Inserts.InsertLeaf(Splits.BlankPage(0, None), k, at) == Trees.Tree(0, [k], [at], [], None)
  {
    Inserts.ChildIndexUnique([], k, 0);
  }

  lemma SecondKey(k: int, at: Val, j: int, other: Val)
    ensures Index.Inv(BTREE_MAX_DEGREE, Single(k, at))
    ensures Index.Refuses(BTREE_MAX_DEGREE, Single(k, at), j) <==> j == k
    ensures Index.SafeInsert(BTREE_MAX_DEGREE, Single(k, at), j)
    ensures j in Index.Abs(Index.InsertInto(BTREE_MAX_DEGREE, Single(k, at), j, other).state)
  {
    FirstKey(k, at);
    assert Index.SafeInsert(BTREE_MAX_DEGREE, Single(k, at), j);
    Index.SafeInsertRefinesMap(BTREE_MAX_DEGREE, Single(k, at), j, other);
  }

  method NewPairs() returns (t: TableAccess)
    ensures fresh(t) && fresh(t.fsm) && t.Valid() && t.schema == Pairs() && t.columns == [1, 2] && t.pageSize == 256
    ensures t.heap == map[] && t.fsm.pages == map[] && t.indexes == [Index.EMPTY, Index.EMPTY]
  {
    t := new TableAccess(256, Pairs(), [1, 2]);
    assert t.indexes == [Index.EMPTY, Index.EMPTY];
  }

  /** Both indexes take their first key. */
  lemma FirstKeysTaken(now: seq<Index.State>, a: I32, b: I32, at: Val)
    ensures var was := [Index.EMPTY, Index.EMPTY];
            && Healthy(was) && !SomeKeyRefused(Pairs(), [1, 2], was, Pair(a, b))
            && FreshKeys(Pairs(), [1, 2], was, Pair(a, b)) && SafeKeys(Pairs(), [1, 2], was, Pair(a, b))
            && (KeysTaken(Pairs(), [1, 2], was, now, Pair(a, b), at, 2) ==> now == [Single(a, at), Single(b, at)])
  {
    PairFacts(a, b);
    FirstKey(a, at);
    FirstKey(b, at);
    hide Index.Inv, Index.Abs, Index.InsertInto, Index.Refuses, Index.SafeInsert, Single, KeyOf;
  }

  /** The second index has the key and refuses it, after the first has taken its own. */
  lemma SecondKeyRefused(now: seq<Index.State>, a: I32, b: I32, at: Val, c: I32, other: Val)
    requires c != a
    ensures var was := [Single(a, at), Single(b, at)];
            && Healthy(was) && SomeKeyRefused(Pairs(), [1, 2], was, Pair(c, b))
            && (forall p: nat :: FirstKeyRefused(Pairs(), [1, 2], was, Pair(c, b), p) ==> p == 1)
            && !KeysWereThere(Pairs(), [1, 2], was, Pair(c, b), 1)
            && (KeysTaken(Pairs(), [1, 2], was, now, Pair(c, b), other, 1) ==> |now| == 2 && c in Index.Abs(now[0]))
  {
    PairFacts(c, b);
    FirstKey(a, at);
    FirstKey(b, at);
    SecondKey(a, at, c, other);
    SecondKey(b, at, b, other);
    hide Index.Inv, Index.Abs, Index.InsertInto, Index.Refuses, Index.SafeInsert, Single, KeyOf;
    var was := [Single(a, at), Single(b, at)];
    assert KeyRefused(Pairs(), [1, 2], was, Pair(c, b), 1) && !KeyRefused(Pairs(), [1, 2], was, Pair(c, b), 0);
    assert FirstKeyRefused(Pairs(), [1, 2], was, Pair(c, b), 1);
  }

  /** A table with two indexes that holds one row. */
  method OnePair(a: I32, b: I32) returns (t: TableAccess)
    ensures fresh(t) && fresh(t.fsm) && t.Valid() && t.schema == Pairs() && t.columns == [1, 2]
    ensures OnePage(t, [Slot(8, 234, false)], 234) && t.indexes == [Single(a, (1, 0)), Single(b, (1, 0))]
  {
    hide *;
    t := NewPairs();
    StartsEmpty(t);
    PairFacts(a, b);
    EmptyNeedsNewPage(t, 8);
    t.RowErrorMeans(Pair(a, b));
    t.StorageErrorMeans(8, false);
    ghost var heap, pages := t.heap, t.fsm.pages;
    FirstKeysTaken([], a, b, (1, 0));
    var r := t.Insert(Pair(a, b));
    match r {
      case Ok(place) =>
        FirstPlace(heap, t.heap, place, 8);
        FirstKeysTaken(t.indexes, a, b, place);
        RecordedOnePage(t, pages, 0);
        LastByteFree();
        NowOnePage(t, [Slot(8, 234, false)], 234);
      case Err(_) =>
        assert false;
    }
  }

  lemma LastByteFree()
    ensures var slots := [Slot(8, 234, false)];
            && MaxAvailable(slots, 234) == 227
            && FreeSpaceMap.PageSpaceToCategory(256, 227) >= FreeSpaceMap.SpaceNeededToCategory(256, 8)
            && forall heap: HeapFile :: SlotsOn(heap, 1) == slots && StartOn(heap, 256, 1) == 234 ==>
                 !FallsShort(heap, 256, 1, 8)
  {
    assert MaxDeleted([Slot(8, 234, false)][..0]) == 0;
  }

  lemma NoRowUnder(t: TableAccess, heap: HeapFile, indexes: seq<Index.State>, key: int)
    requires AllAgree(Pairs(), [1, 2], indexes, heap) && key !in Index.Abs(indexes[0])
    requires SameRows(heap, t.heap, Pairs())
    ensures forall id, slot: nat :: !HasKey(t.heap, Pairs(), 0, id, slot, key)
  {
    hide Index.Inv, Index.Abs, RowAt;
    PairFacts(0, 0);
    assert IndexAgrees(Pairs(), 1, indexes[0], heap);
    forall id, slot: nat ensures !HasKey(t.heap, Pairs(), 0, id, slot, key) {
      assert RowAt(t.heap, Pairs(), id, slot) == RowAt(heap, Pairs(), id, slot);
      assert HasKey(heap, Pairs(), 0, id, slot, key) <==> PointsTo(Index.Abs(indexes[0]), key, id, slot);
    }
  }

  /** The second index refuses its key; the first has taken its own, for a row that is not stored. */
  method KeyWithoutRow() returns (t: TableAccess, r: Result<(int, nat), AccessError>)
    ensures t.Stored() && !t.Valid() && t.schema == Pairs() && t.columns == [1, 2]
    ensures Validates(Pair(2, 5), Pairs()) && r == Err(UpdateRowsError)
    ensures |t.indexes| == 2 && 2 in Index.Abs(t.indexes[0])
    ensures forall id, slot: nat :: !HasKey(t.heap, Pairs(), 0, id, slot, 2)
  {
    hide *;
    t := OnePair(1, 5);
    PairFacts(2, 5);
    LastByteFree();
    OnePageIsChosen(t, [Slot(8, 234, false)], 234, 8);
    SecondKeyRefused([], 1, 5, (1, 0), 2, (1, 0));
    t.RowErrorMeans(Pair(2, 5));
    t.StorageErrorMeans(8, true);
    ghost var was, before := t.indexes, t.heap;
    FirstKey(1, (1, 0));
    r := t.Insert(Pair(2, 5));
    forall slot: nat { SecondKeyRefused(t.indexes, 1, 5, (1, 0), 2, (1, slot)); }
    NoRowUnder(t, before, was, 2);
  }
}
