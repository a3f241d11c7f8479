/** Searching a table: what is found, and what deleting it does. */
module TableSearches {
  import opened Bytes
  import opened Entries
  import opened HashJoins
  import opened PageCodec
  import opened PageSlots
  import opened RecordScan
  import opened Rows
  import opened TableIndexes
  import opened TablePages
  import opened TableRows
  import opened Wrappers
  import Index = BTreeStates

  /** The cell is of the column's type, whatever its length. */
  predicate CellFits(cell: Cell, colType: ColumnType) {
    match (cell, colType)
    case (IntCell(_), IntType) => true
    case (VarcharCell(_), VarcharType(_)) => true
    case (ByteCell(_), ByteType) => true
    case _ => false
  }

  ghost predicate IsIndexed(schema: Schema, columns: seq<I32>, col: nat) {
    exists p :: 0 <= p < |columns| && Position(schema, columns[p]) == Some(col)
  }

  /** Rows found through an index are reported in slot 0. */
  function InSlotZero(found: seq<Found>): (r: seq<Found>)
    ensures |r| == |found| && RowsOf(r) == RowsOf(found)
    ensures forall i :: 0 <= i < |r| ==> r[i] == Found(found[i].pageId, 0, found[i].row)
  {
    seq(|found|, i requires 0 <= i < |found| => Found(found[i].pageId, 0, found[i].row))
  }

  /** The cell is of the column's type, an integer if the column is indexed, and no indexed column is unknown. */
  ghost predicate Searchable(schema: Schema, columns: seq<I32>, col: nat, cell: Cell)
    requires col < |schema|
  {
    && CellFits(cell, schema[col].colType) && AllColumnsKnown(schema, columns)
    && (IsIndexed(schema, columns, col) ==> cell.IntCell?)
  }

  /** How hits are reported: without an index where they lie, with one in slot 0. */
  ghost predicate Reported(schema: Schema, columns: seq<I32>, col: nat, hits: seq<Found>, rows: seq<Found>) {
    |rows| == |hits| && forall i :: 0 <= i < |rows| ==>
      rows[i] == if IsIndexed(schema, columns, col) then Found(hits[i].pageId, 0, hits[i].row) else hits[i]
  }

  /** What a search in a column is to give: the live rows with the cell, in the order of their places. A cell of
      another type, and one that is no integer for an index, cannot be looked for; with an unknown indexed column
      nothing can. */
  ghost predicate FoundInColumn(schema: Schema, columns: seq<I32>, heap: HeapFile, col: nat, cell: Cell,
                                r: Result<seq<Found>, AccessError>)
    requires col < |schema|
  {
    && (r.Ok? <==> Searchable(schema, columns, col, cell))
    && (r.Ok? ==>
          exists hits ::
            HitsInOrder(heap, schema, col, cell, hits) && Reported(schema, columns, col, hits, r.value))
    && (r.Err? ==> r.error == SearchError(schema, columns, col, cell))
  }

  ghost function SearchError(schema: Schema, columns: seq<I32>, col: nat, cell: Cell): AccessError
    requires col < |schema|
  {
    if CellFits(cell, schema[col].colType) && !AllColumnsKnown(schema, columns) then UpdateRowsError else LoadRowsError
  }

  method PointerTo(positions: seq<nat>, col: nat) returns (pointer: Option<nat>)
    ensures pointer.Some? ==> pointer.value < |positions| && positions[pointer.value] == col
    ensures pointer.None? ==> col !in positions
  {
    pointer := None;
    var p := 0;
    while p < |positions|
      invariant p <= |positions| && forall q :: 0 <= q < p ==> positions[q] != col
    {
      if positions[p] == col {
        return Some(p);
      }
      p := p + 1;
    }
  }

  lemma PointerSaysIndexed(schema: Schema, columns: seq<I32>, positions: seq<nat>, col: nat, pointer: Option<nat>)
    requires PositionsOf(schema, columns, positions)
    requires pointer.Some? ==> pointer.value < |positions| && positions[pointer.value] == col
    requires pointer.None? ==> col !in positions
    ensures IsIndexed(schema, columns, col) <==> pointer.Some?
  {
    if pointer.Some? { assert Position(schema, columns[pointer.value]) == Some(col); }
  }

  /** A lookup is a map lookup, and giving the index its root changes nothing else. */
  lemma LookupOpens(schema: Schema, columns: seq<I32>, indexes: seq<Index.State>, heap: HeapFile, pointer: nat,
                    col: nat, key: I32)
    requires AllAgree(schema, columns, indexes, heap) && pointer < |columns|
    requires Position(schema, columns[pointer]) == Some(col)
    ensures var s := indexes[pointer];
            && Index.RootReady(s)
            && Index.Lookup(s, key) == (if key in Index.Abs(s) then Some(Index.Abs(s)[key]) else None)
            && (key in Index.Abs(s) ==> Index.Abs(s)[key].1 >= 0)
            && Agrees(Index.Abs(s), heap, schema, col)
            && AllAgree(schema, columns,
                        indexes[pointer := Index.State(Some(Index.Open(s).tree), Index.Open(s).alloc)], heap)
  {
    hide Agrees, Index.Inv, Index.Abs, Index.Open, Index.Lookup, Index.RootReady;
    var s := indexes[pointer];
    assert IndexAgrees(schema, columns[pointer], s, heap);
    OpenedIndex(s, key);
    if key in Index.Abs(s) { PlacesAreSlots(Index.Abs(s), heap, schema, col, key); }
    var t := Index.State(Some(Index.Open(s).tree), Index.Open(s).alloc);
    assert IndexAgrees(schema, columns[pointer], t, heap);
  }

  /** A lookup in an index that was never accessed gives it an empty root; nothing else changes. */
  ghost predicate RootsGiven(was: seq<Index.State>, now: seq<Index.State>) {
    && |now| == |was|
    && forall p :: 0 <= p < |was| ==>
         now[p] == was[p] || now[p] == Index.State(Some(Index.Open(was[p]).tree), Index.Open(was[p]).alloc)
  }

  lemma RootsAsTheyAre(indexes: seq<Index.State>)
    ensures RootsGiven(indexes, indexes)
  {
  }

  lemma RootGiven(was: seq<Index.State>, now: seq<Index.State>, p: nat)
    requires p < |was| && now == was[p := Index.State(Some(Index.Open(was[p]).tree), Index.Open(was[p]).alloc)]
    ensures RootsGiven(was, now)
  {
  }

  lemma OpenedIndex(s: Index.State, key: I32)
    requires Index.Inv(BTREE_MAX_DEGREE, s)
    ensures var t := Index.State(Some(Index.Open(s).tree), Index.Open(s).alloc);
            && Index.Inv(BTREE_MAX_DEGREE, t) && Index.Abs(t) == Index.Abs(s) && Index.RootReady(s)
            && Index.Lookup(s, key) == if key in Index.Abs(s) then Some(Index.Abs(s)[key]) else None
  {
    Index.LookupIsMapLookup(BTREE_MAX_DEGREE, s, key);
    Index.OpenInv(BTREE_MAX_DEGREE, s);
  }

  lemma PlacesAreSlots(index: map<int, Val>, heap: HeapFile, schema: Schema, col: nat, key: int)
    requires Agrees(index, heap, schema, col) && key in index
    ensures index[key].1 >= 0
  {
  }

  lemma WhatIsFound(schema: Schema, columns: seq<I32>, heap: HeapFile, pageSize: int, n: nat, col: nat, cell: Cell)
    requires GoodPages(heap, pageSize, schema) && forall id :: id in heap <==> 1 <= id <= n
    requires col < |schema|
    ensures !CellFits(cell, schema[col].colType) ==> FoundInColumn(schema, columns, heap, col, cell, Err(LoadRowsError))
    ensures CellFits(cell, schema[col].colType) && !AllColumnsKnown(schema, columns) ==>
              FoundInColumn(schema, columns, heap, col, cell, Err(UpdateRowsError))
    ensures AllColumnsKnown(schema, columns) && IsIndexed(schema, columns, col) && !cell.IntCell? ==>
              FoundInColumn(schema, columns, heap, col, cell, Err(LoadRowsError))
    ensures CellFits(cell, schema[col].colType) && AllColumnsKnown(schema, columns)
            && (IsIndexed(schema, columns, col) ==> cell.IntCell?) ==>
              var hits := Filter(AllFound(heap, schema, n), col, cell);
              FoundInColumn(schema, columns, heap, col, cell,
                            Ok(if IsIndexed(schema, columns, col) then InSlotZero(hits) else hits))
  {
    hide AllFound, GoodPages, Filter, HitsInOrder;
    FilterIsInOrder(heap, pageSize, schema, n, col, cell);
    var hits := Filter(AllFound(heap, schema, n), col, cell);
    var rows := if IsIndexed(schema, columns, col) then InSlotZero(hits) else hits;
    assert Reported(schema, columns, col, hits, rows);
  }

  /** There is one answer only. */
  lemma WhatWasFound(schema: Schema, columns: seq<I32>, heap: HeapFile, pageSize: int, n: nat, col: nat, cell: Cell,
                     rows: seq<Found>)
    requires GoodPages(heap, pageSize, schema) && forall id :: id in heap <==> 1 <= id <= n
    requires col < |schema| && FoundInColumn(schema, columns, heap, col, cell, Ok(rows))
    ensures var hits := Filter(AllFound(heap, schema, n), col, cell);
            && rows == (if IsIndexed(schema, columns, col) then InSlotZero(hits) else hits)
            && Searchable(schema, columns, col, cell)
  {
    hide AllFound, GoodPages, Filter, HitsInOrder, IsIndexed;
    var hits :| HitsInOrder(heap, schema, col, cell, hits) && Reported(schema, columns, col, hits, rows);
    HitsAreTheFilter(heap, pageSize, schema, n, col, cell, hits);
  }

  /** The rows with a cell are gone, the others are as they were. */
  ghost predicate OnlyWithout(was: HeapFile, now: HeapFile, schema: Schema, col: nat, cell: Cell) {
    forall id, slot: nat :: RowAt(now, schema, id, slot)
                         == if HasCell(was, schema, col, id, slot, cell) then None else RowAt(was, schema, id, slot)
  }

  ghost predicate HasCell(heap: HeapFile, schema: Schema, col: nat, id: int, slot: nat, cell: Cell)
    ensures HasCell(heap, schema, col, id, slot, cell) ==> RowAt(heap, schema, id, slot).Some?
  {
    var row := RowAt(heap, schema, id, slot);
    row.Some? && col < |row.value.cells| && row.value.cells[col] == cell
  }

  lemma ScannedRowsAreLive(heap: HeapFile, pageSize: int, schema: Schema, n: nat, col: nat, cell: Cell)
    requires GoodPages(heap, pageSize, schema) && forall id :: 1 <= id <= n ==> id in heap
    ensures var hits := Filter(AllFound(heap, schema, n), col, cell);
            && Ascends(hits)
            && forall i :: 0 <= i < |hits| ==> RowAt(heap, schema, hits[i].pageId, hits[i].slot) == Some(hits[i].row)
  {
    hide *;
    var all := AllFound(heap, schema, n);
    ScanAscendsByPlace(heap, pageSize, schema, n);
    FilterAscends(all, col, cell);
    var hits := Filter(all, col, cell);
    forall i | 0 <= i < |hits| ensures RowAt(heap, schema, hits[i].pageId, hits[i].slot) == Some(hits[i].row) {
      FilterIsExact(all, col, cell, hits[i]);
      ScanFindsLiveRows(heap, pageSize, schema, n, hits[i]);
    }
  }

  /** The hits of a filtered scan lie exactly where the cell is. */
  lemma HitsAreWhereTheCellIs(heap: HeapFile, pageSize: int, schema: Schema, n: nat, col: nat, cell: Cell, id: int,
                              slot: nat)
    requires GoodPages(heap, pageSize, schema) && forall i :: i in heap <==> 1 <= i <= n
    ensures At(Filter(AllFound(heap, schema, n), col, cell), id, slot) <==> HasCell(heap, schema, col, id, slot, cell)
  {
    var all := AllFound(heap, schema, n);
    var hits := Filter(all, col, cell);
    hide RowAt, AllFound, Filter, GoodPages;
    if At(hits, id, slot) {
      var i :| 0 <= i < |hits| && hits[i].pageId == id && hits[i].slot == slot;
      FilterIsExact(all, col, cell, hits[i]);
      ScanFindsLiveRows(heap, pageSize, schema, n, hits[i]);
    }
    if HasCell(heap, schema, col, id, slot, cell) {
      LiveRowIsThere(heap, schema, id, slot);
      var f := Found(id, slot, RowAt(heap, schema, id, slot).value);
      ScanFindsLiveRows(heap, pageSize, schema, n, f);
      FilterIsExact(all, col, cell, f);
      var i :| 0 <= i < |hits| && hits[i] == f;
    }
  }

  lemma RemovedIsOnlyWithout(was: HeapFile, now: HeapFile, pageSize: int, schema: Schema, n: nat, col: nat, cell: Cell)
    requires GoodPages(was, pageSize, schema) && forall id :: id in was <==> 1 <= id <= n
    requires Removed(was, now, schema, Filter(AllFound(was, schema, n), col, cell))
    ensures OnlyWithout(was, now, schema, col, cell)
  {
    hide RowAt, AllFound, Filter, HasCell, GoodPages;
    forall id, slot: nat
      ensures RowAt(now, schema, id, slot)
           == if HasCell(was, schema, col, id, slot, cell) then None else RowAt(was, schema, id, slot)
    {
      HitsAreWhereTheCellIs(was, pageSize, schema, n, col, cell, id, slot);
    }
  }

  /** Where a search reports its hits: without an index where they lie, with one in slot 0. */
  ghost predicate HitsAreReported(schema: Schema, columns: seq<I32>, heap: HeapFile, col: nat, cell: Cell) {
    IsIndexed(schema, columns, col) ==> forall id, slot: nat :: HasCell(heap, schema, col, id, slot, cell) ==> slot == 0
  }

  /** The search is answered, and the rows it finds have a key for every index. */
  ghost predicate Deletable(schema: Schema, columns: seq<I32>, heap: HeapFile, col: nat, cell: Cell)
    requires col < |schema|
  {
    && Searchable(schema, columns, col, cell)
    && forall id, slot: nat :: HasCell(heap, schema, col, id, slot, cell) ==>
         IntColumns(schema, columns, RowAt(heap, schema, id, slot).value)
  }

  lemma FoundAreDeletable(schema: Schema, columns: seq<I32>, heap: HeapFile, pageSize: int, n: nat, col: nat,
                          cell: Cell, rows: seq<Found>)
    requires GoodPages(heap, pageSize, schema) && forall i :: i in heap <==> 1 <= i <= n
    requires col < |schema| && FoundInColumn(schema, columns, heap, col, cell, Ok(rows))
    ensures (forall i :: 0 <= i < |rows| ==> IntColumns(schema, columns, rows[i].row))
            <==> Deletable(schema, columns, heap, col, cell)
  {
    var hits := Filter(AllFound(heap, schema, n), col, cell);
    WhatWasFound(schema, columns, heap, pageSize, n, col, cell, rows);
    assert |rows| == |hits| && forall i :: 0 <= i < |rows| ==> rows[i].row == hits[i].row;
    hide AllFound, Filter, RowAt, GoodPages, InSlotZero, IntColumns, HasCell;
    ScannedRowsAreLive(heap, pageSize, schema, n, col, cell);
    if forall i :: 0 <= i < |rows| ==> IntColumns(schema, columns, rows[i].row) {
      forall id, slot: nat | HasCell(heap, schema, col, id, slot, cell)
        ensures IntColumns(schema, columns, RowAt(heap, schema, id, slot).value)
      {
        HitsAreWhereTheCellIs(heap, pageSize, schema, n, col, cell, id, slot);
        var i :| 0 <= i < |hits| && hits[i].pageId == id && hits[i].slot == slot;
        assert IntColumns(schema, columns, rows[i].row);
      }
    }
    if Deletable(schema, columns, heap, col, cell) {
      forall i | 0 <= i < |rows| ensures IntColumns(schema, columns, rows[i].row) {
        HitsAreWhereTheCellIs(heap, pageSize, schema, n, col, cell, hits[i].pageId, hits[i].slot);
      }
    }
  }

  lemma NotFoundNotDeleted(schema: Schema, columns: seq<I32>, heap: HeapFile, col: nat, cell: Cell,
                           r: Result<seq<Found>, AccessError>)
    requires col < |schema| && FoundInColumn(schema, columns, heap, col, cell, r)
    ensures r.Err? ==> !Deletable(schema, columns, heap, col, cell) && !Searchable(schema, columns, col, cell)
                       && r.error == SearchError(schema, columns, col, cell)
    ensures r.Ok? ==> AllColumnsKnown(schema, columns) && Searchable(schema, columns, col, cell)
  {
  }

  /** What a search gives can be deleted. */
  lemma FoundCanBeDeleted(schema: Schema, columns: seq<I32>, heap: HeapFile, pageSize: int, n: nat, col: nat,
                          cell: Cell, rows: seq<Found>)
    requires GoodPages(heap, pageSize, schema) && forall i :: i in heap <==> 1 <= i <= n
    requires col < |schema| && FoundInColumn(schema, columns, heap, col, cell, Ok(rows))
    ensures forall i :: 0 <= i < |rows| ==> rows[i].pageId in heap && |rows[i].row.cells| == |schema|
  {
    var hits := Filter(AllFound(heap, schema, n), col, cell);
    ScannedRowsAreLive(heap, pageSize, schema, n, col, cell);
    WhatWasFound(schema, columns, heap, pageSize, n, col, cell, rows);
    assert |rows| == |hits| && forall i :: 0 <= i < |rows| ==>
             rows[i].pageId == hits[i].pageId && rows[i].row == hits[i].row;
    hide AllFound, Filter, RowAt, GoodPages, InSlotZero;
    forall i | 0 <= i < |rows| ensures rows[i].pageId in heap && |rows[i].row.cells| == |schema| {
      LiveRowIsThere(heap, schema, hits[i].pageId, hits[i].slot);
      LiveRowIsFull(heap, schema, hits[i].pageId, hits[i].slot);
    }
  }

  /** Deleting hits where they lie removes what is to go, keys and rows. */
  lemma HitsDeleted(schema: Schema, columns: seq<I32>, was: seq<Index.State>, before: HeapFile, after: HeapFile,
                    pageSize: int, n: nat, col: nat, cell: Cell, rows: seq<Found>)
    requires GoodPages(before, pageSize, schema) && (forall i :: i in before <==> 1 <= i <= n)
    requires AllAgree(schema, columns, was, before) && Removed(before, after, schema, rows)
    requires rows == Filter(AllFound(before, schema, n), col, cell)
    requires forall i :: 0 <= i < |rows| ==> IntColumns(schema, columns, rows[i].row)
    ensures KeysMatchPlaces(schema, columns, was, rows) && OnlyWithout(before, after, schema, col, cell)
  {
    hide *;
    AgreeingIsHealthy(schema, columns, was, before);
    ScannedRowsAreLive(before, pageSize, schema, n, col, cell);
    LiveKeysMatchPlaces(schema, columns, was, before, rows);
    RemovedIsOnlyWithout(before, after, pageSize, schema, n, col, cell);
  }

  /** A row that lies elsewhere than in slot 0 stays, and its key goes. */
  lemma MisplacedStays(schema: Schema, columns: seq<I32>, was: seq<Index.State>, before: HeapFile, after: HeapFile,
                       p: nat, col: nat, v: I32, id: int, slot: nat, row: Row)
    requires AllAgree(schema, columns, was, before) && p < |columns| && Position(schema, columns[p]) == Some(col)
    requires RowAt(before, schema, id, slot) == Some(row) && HasCell(before, schema, col, id, slot, IntCell(v))
    requires slot != 0
    requires Removed(before, after, schema, [Found(id, 0, row)])
    ensures !KeysMatchPlaces(schema, columns, was, [Found(id, 0, row)])
    ensures !OnlyWithout(before, after, schema, col, IntCell(v))
  {
    hide RowAt, Index.Inv, Index.Abs;
    var rows := [Found(id, 0, row)];
    var index := Index.Abs(was[p]);
    assert IndexAgrees(schema, columns[p], was[p], before);
    assert HasKey(before, schema, col, id, slot, v);
    assert PointsTo(index, v, id, slot);
    assert KeyOf(schema, columns[p], rows[0].row) == Some(v);
    assert v in KeySet(schema, columns[p], rows) && !At(rows, id, slot);
    assert !KeysOfPlaces(index, KeySet(schema, columns[p], rows), rows);
    assert RowAt(after, schema, id, slot) == RowAt(before, schema, id, slot);
  }

  /** What deleting the result of a search does. */
  lemma DeletedFound(schema: Schema, columns: seq<I32>, was: seq<Index.State>, before: HeapFile, after: HeapFile,
                     pageSize: int, n: nat, col: nat, cell: Cell, rows: seq<Found>)
    requires GoodPages(before, pageSize, schema) && forall i :: i in before <==> 1 <= i <= n
    requires AllAgree(schema, columns, was, before) && Removed(before, after, schema, rows)
    requires col < |schema| && FoundInColumn(schema, columns, before, col, cell, Ok(rows))
    requires forall i :: 0 <= i < |rows| ==> IntColumns(schema, columns, rows[i].row)
    ensures |columns| == |was|
    ensures KeysMatchPlaces(schema, columns, was, rows) <==> HitsAreReported(schema, columns, before, col, cell)
    ensures OnlyWithout(before, after, schema, col, cell) <==> HitsAreReported(schema, columns, before, col, cell)
  {
    hide AllFound, Filter, RowAt, HasCell, GoodPages, Removed, OnlyWithout, KeysMatchPlaces, AllAgree, At, InSlotZero,
      IntColumns, FoundInColumn;
    var hits := Filter(AllFound(before, schema, n), col, cell);
    NoneOrOne(hits);
    WhatWasFound(schema, columns, before, pageSize, n, col, cell, rows);
    AgreeingIsHealthy(schema, columns, was, before);
    forall id, slot: nat ensures At(hits, id, slot) <==> HasCell(before, schema, col, id, slot, cell) {
      HitsAreWhereTheCellIs(before, pageSize, schema, n, col, cell, id, slot);
    }
    AtMeans(hits);
    if IsIndexed(schema, columns, col) {
      var p: nat :| p < |columns| && Position(schema, columns[p]) == Some(col);
      OneHit(schema, columns, was, before, pageSize, n, p, col, cell.i);
      if |hits| == 1 && hits[0].slot != 0 {
        MisplacedStays(schema, columns, was, before, after, p, col, cell.i, hits[0].pageId, hits[0].slot, hits[0].row);
        return;
      }
    }
    assert rows == hits;
    HitsDeleted(schema, columns, was, before, after, pageSize, n, col, cell, rows);
  }

  lemma AtMeans(found: seq<Found>)
    ensures |found| == 0 ==> forall id, slot: nat :: !At(found, id, slot)
    ensures |found| == 1 ==>
              forall id, slot: nat :: At(found, id, slot) <==> found[0].pageId == id && found[0].slot == slot
  {
    if |found| == 1 {
      forall id, slot: nat | found[0].pageId == id && found[0].slot == slot ensures At(found, id, slot) {
        assert found[0].pageId == id;
      }
    }
  }

  lemma OneHit(schema: Schema, columns: seq<I32>, indexes: seq<Index.State>, heap: HeapFile, pageSize: int, n: nat,
               p: nat, col: nat, v: I32)
    requires GoodPages(heap, pageSize, schema) && forall i :: i in heap <==> 1 <= i <= n
    requires AllAgree(schema, columns, indexes, heap) && p < |columns| && Position(schema, columns[p]) == Some(col)
    ensures var hits := Filter(AllFound(heap, schema, n), col, IntCell(v));
            |hits| <= 1 && (|hits| == 1 ==> RowAt(heap, schema, hits[0].pageId, hits[0].slot) == Some(hits[0].row))
  {
    hide Agrees, Index.Inv, Index.Abs, AllFound, Filter, RowAt;
    assert IndexAgrees(schema, columns[p], indexes[p], heap);
    ScanIsIndexLookup(Index.Abs(indexes[p]), heap, pageSize, schema, n, col, v);
  }

  lemma NoneOrOne(found: seq<Found>)
    ensures found == [] ==> InSlotZero(found) == []
    ensures |found| == 1 ==> InSlotZero(found) == [Found(found[0].pageId, 0, found[0].row)]
  {
  }

  lemma OneRecordLeft(records: RecordIterator, heap: HeapFile, schema: Schema, id: int, slot: nat, row: Row)
    requires RowAt(heap, schema, id, slot) == Some(row) && PageFrom(heap[id]).pageId == id
    requires records.Valid() && records.nextSlot == 0 && records.pageId == id && records.data == PageFrom(heap[id]).data
    requires |records.slots| == 1 && records.slots[0] == PageFrom(heap[id]).slots[slot]
    ensures FoundIn(records.Rest(), schema) == [Found(id, 0, row)]
    ensures forall x :: x in records.Rest() ==> RowOf(Some(x.data), schema).Some?
  {
    var f := PageFrom(heap[id]);
    var record := Record(records.pageId, 0, ReadData(f.data, f.slots[slot]));
    assert Read(f.slots, f.data, slot) == Some(record.data);
    assert Scan(records.pageId, records.slots, records.data, 1) == [];
    assert records.Rest() == [record];
    SingleRowFound(record, schema, row);
  }

  lemma NothingFound(schema: Schema)
    ensures FoundIn([], schema) == []
  {
  }

  lemma OneMoreFound(done: seq<Record>, r: Record, schema: Schema)
    ensures FoundIn(done + [r], schema)
         == FoundIn(done, schema) + var row := RowOf(Some(r.data), schema);
                                    if row.Some? then [Found(r.pageId, r.recordIndex, row.value)] else []
  {
    assert (done + [r])[..|done|] == done;
  }

  lemma SingleRowFound(record: Record, schema: Schema, row: Row)
    requires RowOf(Some(record.data), schema) == Some(row)
    ensures FoundIn([record], schema) == [Found(record.pageId, record.recordIndex, row)]
  {
    assert [record][..0] == [];
  }

  /** What reading a record's bytes says about its row. */
  lemma RowOfRead(data: seq<Byte>, schema: Schema, r: Result<Row, DeserializationError>)
    requires r == match CellsFrom(data, schema) case Err(e) => Err(e) case Ok(cells) => Ok(Row(cells))
    ensures RowOf(Some(data), schema) == match r case Ok(row) => Some(row) case Err(_) => None
  {
  }

  lemma RecordsAreRows(heap: HeapFile, pageSize: int, schema: Schema, id: int)
    requires GoodPages(heap, pageSize, schema) && id in heap
    ensures forall x :: x in PageRecords(heap, id) ==> RowOf(Some(x.data), schema).Some?
  {
    assert GoodPage(heap, pageSize, schema, id);
    var p := PageFrom(heap[id]);
    forall x | x in PageRecords(heap, id) ensures RowOf(Some(x.data), schema).Some? {
      ScanIsExact(p.pageId, p.slots, p.data, 0, x);
      assert RowAt(heap, schema, id, x.recordIndex).Some?;
    }
  }

  lemma CellsForColumns(row: Row, schema: Schema)
    requires Validates(row, schema)
    ensures |row.cells| == |schema|
  {
  }

  lemma RowOfItsBytes(row: Row, schema: Schema)
    requires Validates(row, schema) && |schema| > 0
    ensures RowOf(Some(RowBytes(row.cells)), schema) == Some(row) && |RowBytes(row.cells)| > 0
  {
    RowFromIsInverse(RowBytes(row.cells), schema, row.cells);
    assert |CellBytes(row.cells[0])| > 0;
  }

  /** A live row has a cell for every column. */
  lemma LiveRowIsFull(heap: HeapFile, schema: Schema, id: int, slot: nat)
    requires RowAt(heap, schema, id, slot).Some?
    ensures |RowAt(heap, schema, id, slot).value.cells| == |schema|
  {
    ReadRowIsValid(RecordAt(heap, id, slot).value, schema);
  }
}
