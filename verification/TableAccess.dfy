/** Inserting, deleting and finding rows: the heap file, the free space map and the indexes together. */
module TableAccesses {
  import opened Bytes
  import opened Entries
  import opened HashJoins
  import opened PageCodec
  import opened PageLayout
  import opened PageSlots
  import opened RecordScan
  import opened Rows
  import opened SlottedPages
  import opened TableIndexes
  import opened TablePages
  import opened TableRows
  import opened TableSearches
  import opened Wrappers
  import Addresses = FsmAddresses
  import FreeSpaceMap
  import Index = BTreeStates

  class TableAccess {
    const pageSize: int
    const schema: Schema
    const columns: seq<I32>
    const fsm: FreeSpaceMap.Fsm
    var heap: HeapFile
    var indexes: seq<Index.State>

    /** The heap file is in order and the free space map knows it. */
    ghost predicate Stored()
      reads this, fsm
    {
      && Addresses.FsmPageSize(pageSize) && |schema| > 0 && |indexes| == |columns|
      && fsm.Valid() && fsm.pageSize == pageSize && SpaceKnown(heap, fsm.heap)
      && GoodPages(heap, pageSize, schema)
    }

    ghost predicate Valid()
      reads this, fsm
    {
      Stored() && AllAgree(schema, columns, indexes, heap)
    }

    /** An empty table. */
    constructor (pageSize: int, schema: Schema, columns: seq<I32>)
      requires Addresses.FsmPageSize(pageSize) && |schema| > 0
      requires forall p, q :: 0 <= p < q < |columns| ==> columns[p] != columns[q]
      ensures Valid() && fresh(fsm) && this.pageSize == pageSize && this.schema == schema && this.columns == columns
      ensures heap == map[] && fsm.pages == map[] && indexes == seq(|columns|, _ => Index.EMPTY)
    {
      this.pageSize, this.schema, this.columns := pageSize, schema, columns;
      fsm := new FreeSpaceMap.Fsm(pageSize);
      heap := map[];
      indexes := seq(|columns|, _ => Index.EMPTY);
      new;
      Index.EmptyInv(BTREE_MAX_DEGREE);
    }

    /** Command by command, until an index refuses its key. */
    method UpdateIndex(pageId: int, slot: nat, commands: seq<IndexCommand>) returns (r: Result<(), AccessError>)
      requires Healthy(indexes) && OnePerIndex(indexes, commands)
      modifies `indexes
      ensures r.Ok? <==> NoneRefuses(old(indexes), commands)
      ensures r.Ok? ==> Taken(old(indexes), indexes, commands, (pageId, slot), |commands|)
      ensures r.Err? ==>
                && r.error == UpdateRowsError
                && exists p: nat :: FirstRefusal(old(indexes), commands, p)
                                    && Taken(old(indexes), indexes, commands, (pageId, slot), p + 1)
    {
      hide Index.Inv, Commanded, Refuses;
      ghost var was, at := indexes, (pageId, slot);
      assert forall q :: 0 <= q < |commands| ==> commands[q].pointer == q;
      assert forall q :: 0 <= q < |was| ==> Index.Inv(BTREE_MAX_DEGREE, was[q]);
      var p := 0;
      while p < |commands|
        invariant p <= |commands| && Taken(was, indexes, commands, at, p)
        invariant forall q :: 0 <= q < p ==> !Refuses(was[q], commands[q])
      {
        RefusesOrTakes(was[p], commands[p], at);
        var x := ApplyCommand(indexes[commands[p].pointer], commands[p], (pageId, slot));
        indexes := indexes[commands[p].pointer := x.state];
        if !x.ok {
          assert FirstRefusal(was, commands, p);
          return Err(UpdateRowsError);
        }
        p := p + 1;
      }
      r := Ok(());
    }

    /** Delete the old value, then insert the new one. */
    static method ApplyCommand(s: Index.State, c: IndexCommand, at: Val) returns (x: Index.InsertResult)
      requires Index.Inv(BTREE_MAX_DEGREE, s)
      ensures x == Commanded(s, c, at)
    {
      var t := s;
      if c.oldValue.Some? {
        t := Dropped(t, c.oldValue);
      }
      x := Index.InsertResult(t, true);
      if c.newValue.Some? {
        x := Index.InsertInto(BTREE_MAX_DEGREE, t, c.newValue.value, at);
      }
    }

    // ---- storing rows ----

    /** What was recorded in the free space map: the space a page has now. */
    ghost predicate Recorded(was: FreeSpaceMap.Pages, id: int)
      reads this, fsm
    {
      && fsm.Shape() && id >= 1 && id in fsm.heap && fsm.heap[id] == SpaceOn(heap, fsm.pageSize, id)
      && FreeSpaceMap.Recorded(fsm.L(), was, fsm.pages, id - 1,
                               FreeSpaceMap.PageSpaceToCategory(fsm.pageSize, fsm.heap[id]))
    }

    /** A page with space for a row, from the free space map; a new page is written empty. */
    method ProvidePage(length: nat) returns (r: Result<int, AccessError>)
      requires Stored()
      modifies this`heap, fsm
      ensures r == if old(fsm.OutOfPages(length)) then Err(Panic) else Ok(old(fsm.ChosenPage(length)))
      ensures r.Ok? ==> Stored() && r.value in heap && SameRows(old(heap), heap, schema)
      ensures r.Ok? ==> heap == old(heap)[r.value := heap[r.value]]
      ensures r.Ok? && r.value in old(heap) ==> heap == old(heap)
      ensures r.Ok? ==> FreeSpaceMap.SameValues(fsm.L(), old(fsm.pages), fsm.pages)
      ensures r.Ok? ==>
                var id := r.value;
                && SlotsOn(heap, id) == SlotsOn(old(heap), id)
                   && StartOn(heap, pageSize, id) == StartOn(old(heap), pageSize, id)
                && SpaceOn(heap, pageSize, id) >= FreeSpaceMap.Min(length, MaxTuple(pageSize))
    {
      hide *;
      StoredParts();
      fsm.ChoiceMeans(length);
      FreeSpaceMap.SpaceOfNewPage(pageSize, length);
      SpaceHasHeapIds(heap, fsm.heap);
      SameRowsReflexive(heap, schema);
      var found := fsm.FindAvailablePage(length);
      if found.Err? {
        return Err(Panic);
      }
      var id := found.value;
      if id !in heap {
        var bytes := EmptyPage(id);
        NewPageIsKnown(heap, old(fsm.heap), id, bytes, pageSize);
        heap := heap[id := bytes];
      }
      SpaceHasHeapIds(heap, fsm.heap);
      SpaceIsKnown(heap, fsm.heap, pageSize, id);
      StoredWhole();
      r := Ok(id);
    }

    /** The bytes of a new page. */
    method EmptyPage(id: int) returns (bytes: seq<Byte>)
      requires Addresses.FsmPageSize(pageSize) && GoodPages(heap, pageSize, schema) && id !in heap
      requires 0 < id <= Addresses.I32_MAX
      ensures var now := heap[id := bytes];
              && GoodPages(now, pageSize, schema) && SameRows(heap, now, schema)
              && Readable(bytes) && Space(bytes) == DataSize(pageSize)
              && SlotsOn(now, id) == SlotsOn(heap, id) && StartOn(now, pageSize, id) == StartOn(heap, pageSize, id)
    {
      var page := new Page(pageSize);
      page.pageId := id;
      bytes := page.Serialize();
      NewPageIsGood(heap, pageSize, schema, id, page.Fields());
    }

    /** Write a page back after one of its records changed, and record its space. */
    method StorePage(page: Page, id: int, ghost slot: nat, ghost record: Option<seq<Byte>>)
      requires Stored() && id in heap && page.Valid() && page.pageId == id && page.data.Length == DataSize(pageSize)
      requires Readable(heap[id]) && RecordPut(PageFrom(heap[id]), page.Fields(), slot, record)
      requires record.Some? ==> RowOf(record, schema).Some?
      modifies `heap, fsm
      ensures Stored() && fsm.nextHeapId == old(fsm.nextHeapId)
      ensures RecordAt(heap, id, slot) == record && SameRowsBut(old(heap), heap, schema, id, slot)
      ensures id in heap && heap == old(heap)[id := heap[id]]
      ensures SlotsOn(heap, id) == page.slots && StartOn(heap, pageSize, id) == page.dataOffset
      ensures Recorded(old(fsm.pages), id)
    {
      hide *;
      ghost var f := page.Fields();
      FieldsInOrder(page);
      StoredParts();
      SpaceHasHeapIds(heap, fsm.heap);
      var bytes := page.Serialize();
      var space := page.MaxAvailableSpace();
      RecordStored(heap, pageSize, schema, id, f, slot, record);
      SlotsStored(heap, pageSize, id, f);
      WrittenSpaceIsKnown(heap, fsm.heap, id, f);
      heap := heap[id := bytes];
      fsm.WritePage(id, space);
      ghost var was := fsm.pages;
      var done := fsm.Update(id, space);
      StoredWhole();
      SpaceIsKnown(heap, fsm.heap, pageSize, id);
      NowRecorded(was, id);
    }

    lemma NowRecorded(was: FreeSpaceMap.Pages, id: int)
      requires fsm.Shape() && id >= 1 && id in fsm.heap && fsm.heap[id] == SpaceOn(heap, fsm.pageSize, id)
      requires FreeSpaceMap.Recorded(fsm.L(), was, fsm.pages, id - 1,
                                     FreeSpaceMap.PageSpaceToCategory(fsm.pageSize, fsm.heap[id]))
      ensures Recorded(was, id)
    {
    }

    lemma RecordedSince(was: FreeSpaceMap.Pages, ready: FreeSpaceMap.Pages, id: int)
      requires fsm.Shape() && FreeSpaceMap.SameValues(fsm.L(), was, ready) && Recorded(ready, id)
      ensures Recorded(was, id)
    {
      hide FreeSpaceMap.Recorded, FreeSpaceMap.SameValues;
      FreeSpaceMap.RecordedAfterSame(fsm.L(), was, ready, fsm.pages, id - 1,
                                     FreeSpaceMap.PageSpaceToCategory(fsm.pageSize, fsm.heap[id]));
    }

    /** Read a page of the heap. */
    method ReadPage(id: int) returns (page: Page)
      requires Stored() && id in heap
      ensures fresh(page) && fresh(page.data) && page.Valid() && page.pageId == id
              && page.data.Length == DataSize(pageSize)
      ensures Readable(heap[id]) && page.Fields() == PageFrom(heap[id])
      ensures page.slots == PageFrom(heap[id]).slots && page.data[..] == PageFrom(heap[id]).data
      ensures page.dataOffset == PageFrom(heap[id]).dataOffset
      ensures PageFrom(heap[id]).pageId == id
    {
      assert GoodPage(heap, pageSize, schema, id);
      page := new Page.Deserialize(heap[id]);
    }

    /** Why a record of some length is not stored: the ids are used up, the chosen page falls short, an
        index refuses its key, or the directory has no room for what remains of a slot. */
    ghost function StorageError(length: nat, refused: bool): Option<AccessError>
      requires Stored()
      reads this, fsm
    {
      var id := fsm.ChosenPage(length);
      if fsm.OutOfPages(length) then Some(Panic)
      else if FallsShort(heap, pageSize, id, length) then Some(InsertRowError)
      else if refused then Some(UpdateRowsError)
      else if RestHasNoRoom(heap, pageSize, id, length) then Some(Panic)
      else None
    }

    /** Put a row's bytes on the chosen page, let the indexes know, and write the page. */
    method RawInsert(bytes: seq<Byte>, commands: seq<IndexCommand>) returns (r: Result<(int, nat), AccessError>)
      requires Stored() && Healthy(indexes) && OnePerIndex(indexes, commands)
      requires |bytes| > 0 && RowOf(Some(bytes), schema).Some?
      modifies this, fsm
      ensures match r
              case Ok(_) => old(StorageError(|bytes|, !NoneRefuses(indexes, commands))) == None
              case Err(e) => old(StorageError(|bytes|, !NoneRefuses(indexes, commands))) == Some(e)
      ensures r.Ok? ==>
                var (id, slot) := r.value;
                && Stored() && RecordAt(heap, id, slot) == Some(bytes) && RecordAt(old(heap), id, slot) == None
                && SameRowsBut(old(heap), heap, schema, id, slot)
                && Taken(old(indexes), indexes, commands, (id, slot), |commands|)
                && id == old(fsm.ChosenPage(|bytes|)) && Placed(old(heap), heap, pageSize, id, slot, |bytes|)
                && Recorded(old(fsm.pages), id)
      ensures r.Err? && r.error != Panic ==> Stored() && SameRows(old(heap), heap, schema)
      ensures r.Err? && r.error != Panic ==> PageAdded(old(heap), heap, old(fsm.ChosenPage(|bytes|)))
      ensures r == Err(InsertRowError) ==> indexes == old(indexes)
      ensures r == Err(UpdateRowsError) ==>
                exists p: nat, slot: nat ::
                  && FirstRefusal(old(indexes), commands, p)
                  && GoesTo(SlotsOn(old(heap), old(fsm.ChosenPage(|bytes|))), |bytes|, slot)
                  && Taken(old(indexes), indexes, commands, (old(fsm.ChosenPage(|bytes|)), slot), p + 1)
    {
      hide *;
      StorageErrorMeans(|bytes|, !NoneRefuses(indexes, commands));
      ghost var first, pagesWas := heap, fsm.pages;
      var provided := ProvidePage(|bytes|);
      if provided.Err? {
        return Err(provided.error);
      }
      var id := provided.value;
      ghost var ready, pagesReady := heap, fsm.pages;
      var page, slot, fits := PutOnPage(id, bytes);
      RefusedPageFallsShort(heap, pageSize, id, |bytes|);
      SameShortage(first, heap, pageSize, id, |bytes|);
      NowAdded(first, heap, id);
      if !fits {
        return Err(InsertRowError);
      }
      PutMeans(SlotsOn(heap, id), StartOn(heap, pageSize, id), page.slots, page.dataOffset, |bytes|, slot);
      StoredParts();
      var hook := UpdateIndex(id, slot, commands);
      TakenAsMany(old(indexes), indexes, commands, (id, slot));
      StoredWhole();
      if hook.Err? {
        return Err(hook.error);
      }
      if SLOT_SIZE * |page.slots| > page.dataOffset {
        r := WriteOverrun(page, id);
        return;
      }
      PageInOrder(page);
      StorePage(page, id, slot, Some(bytes));
      SameRowsThenBut(first, ready, heap, schema, id, slot);
      PlaceIsFree(first, id, slot, |bytes|);
      NowPlaced(first, ready, heap, pageSize, id, slot, |bytes|);
      StoredParts();
      RecordedSince(pagesWas, pagesReady, id);
      r := Ok((id, slot));
    }

    lemma StorageErrorMeans(length: nat, refused: bool)
      requires Stored()
      ensures var id := fsm.ChosenPage(length);
              StorageError(length, refused)
              == (if fsm.OutOfPages(length) then Some(Panic)
                  else if FallsShort(heap, pageSize, id, length) then Some(InsertRowError)
                  else if refused then Some(UpdateRowsError)
                  else if RestHasNoRoom(heap, pageSize, id, length) then Some(Panic)
                  else None)
    {
    }

    lemma FieldsInOrder(page: Page)
      requires page.Valid()
      ensures var f := page.Fields();
              && f.Storable() && Tiled(f.slots, f.dataOffset, |f.data|) && SLOT_SIZE * |f.slots| <= f.dataOffset
              && |f.data| == page.data.Length && f.pageId == page.pageId && SLOT_SIZE * |f.slots| <= |f.data|
              && f.slots == page.slots && f.dataOffset == page.dataOffset
              && MaxAvailable(f.slots, f.dataOffset) >= 0 && page.Tiles()
    {
      StorableWhenTiled(page.Fields());
    }

    lemma PageInOrder(page: Page)
      requires page.Tiles() && SLOT_SIZE * |page.slots| <= page.dataOffset
      ensures page.Valid()
    {
    }

    /** Put the bytes on a page, in memory. */
    method PutOnPage(id: int, bytes: seq<Byte>) returns (page: Page, slot: nat, fits: bool)
      requires Stored() && id in heap && |bytes| > 0
      ensures fresh(page) && fresh(page.data)
      ensures fits <==> Accepts(SlotsOn(heap, id), StartOn(heap, pageSize, id), |bytes|)
      ensures fits ==>
                && Readable(heap[id]) && page.Tiles() && page.pageId == id && page.data.Length == DataSize(pageSize)
                && RecordPut(PageFrom(heap[id]), page.Fields(), slot, Some(bytes))
                && PutAt(SlotsOn(heap, id), StartOn(heap, pageSize, id), page.slots, page.dataOffset, |bytes|, slot)
    {
      hide *;
      page := ReadPage(id);
      PageThere(heap, pageSize, id);
      slot, fits := TryPut(page, bytes);
    }

    /** The directory has reached the records: if it still ends within the page it is written over them,
        and then, or already before, the computation of the free space underflows. */
    method WriteOverrun(page: Page, id: int) returns (r: Result<(int, nat), AccessError>)
      requires page.Tiles()
      modifies `heap
      ensures r == Err(Panic)
    {
      if SLOT_SIZE * |page.slots| <= page.data.Length {
        var bytes := page.Serialize();
        heap := heap[id := bytes];
      }
      r := Err(Panic);
    }

    /** Put a record on a page that was read. */
    static method TryPut(page: Page, bytes: seq<Byte>) returns (slot: nat, fits: bool)
      requires page.Valid() && |bytes| > 0
      modifies page, page.data
      ensures page.data == old(page.data) && page.pageId == old(page.pageId)
      ensures fits <==> Accepts(old(page.slots), old(page.dataOffset), |bytes|)
      ensures fits ==> page.Tiles() && RecordPut(old(page.Fields()), page.Fields(), slot, Some(bytes))
      ensures fits ==> PutAt(old(page.slots), old(page.dataOffset), page.slots, page.dataOffset, |bytes|, slot)
    {
      slot := 0;
      fits := page.CanInsert(bytes);
      if !fits {
        return;
      }
      LengthFits(page.slots, page.dataOffset, page.data.Length, |bytes|);
      var put := page.InsertRecord(bytes);
      slot := put.value;
      RecordsPut(old(page.Fields()), page.Fields(), slot, bytes);
      PutWhere(old(page.slots), old(page.dataOffset), page.slots, page.dataOffset, |bytes|, slot);
    }

    /** Where the indexed columns stand in the schema. */
    method ColumnPositions() returns (r: Result<seq<nat>, AccessError>)
      ensures r.Ok? <==> AllColumnsKnown(schema, columns)
      ensures r.Ok? ==> PositionsOf(schema, columns, r.value)
      ensures r.Err? ==> r.error == UpdateRowsError
    {
      var positions: seq<nat> := [];
      var p := 0;
      while p < |columns|
        invariant p <= |columns| && PositionsOf(schema, columns[..p], positions)
      {
        var position := Position(schema, columns[p]);
        if position.None? {
          return Err(UpdateRowsError);
        }
        positions := positions + [position.value];
        p := p + 1;
      }
      assert columns[..p] == columns;
      r := Ok(positions);
    }

    /** Why a row is not inserted: it is no row of the schema, an indexed column is unknown or holds no
        integer, or its bytes or keys are not taken. */
    ghost function RowError(row: Row): Option<AccessError>
      requires Valid()
      reads this, fsm
    {
      AgreeingIsHealthy(schema, columns, indexes, heap);
      if !Validates(row, schema) then Some(InsertRowError)
      else if !AllColumnsKnown(schema, columns) then Some(UpdateRowsError)
      else if !IntColumns(schema, columns, row) then Some(InsertRowError)
      else StorageError(|RowBytes(row.cells)|, SomeKeyRefused(schema, columns, indexes, row))
    }

    /** Insert a row and its keys. It goes to the chosen page, or fails for the reason given; the table
        stays in order if and only if the keys were fresh and safe. */
    method Insert(row: Row) returns (r: Result<(int, nat), AccessError>)
      requires Valid()
      modifies this, fsm
      ensures match r
              case Ok(_) => old(RowError(row)) == None
              case Err(e) => old(RowError(row)) == Some(e)
      ensures r.Ok? ==>
                var (id, slot) := r.value;
                && Stored() && RowAt(heap, schema, id, slot) == Some(row) && RowAt(old(heap), schema, id, slot) == None
                && SameRowsBut(old(heap), heap, schema, id, slot)
                && id == old(fsm.ChosenPage(|RowBytes(row.cells)|))
                && Placed(old(heap), heap, pageSize, id, slot, |RowBytes(row.cells)|) && Recorded(old(fsm.pages), id)
                && Healthy(old(indexes))
                   && KeysTaken(schema, columns, old(indexes), indexes, row, (id, slot), |columns|)
      ensures r.Ok? ==> Healthy(old(indexes)) && |columns| == |old(indexes)|
      ensures r.Ok? ==>
                (Valid()
                 <==> FreshKeys(schema, columns, old(indexes), row) && SafeKeys(schema, columns, old(indexes), row))
      ensures r.Err? && r.error != Panic ==> PageAdded(old(heap), heap, old(fsm.ChosenPage(|RowBytes(row.cells)|)))
      ensures r == Err(InsertRowError) || (r == Err(UpdateRowsError) && !AllColumnsKnown(schema, columns)) ==>
                Valid() && SameRows(old(heap), heap, schema) && indexes == old(indexes)
      ensures r == Err(UpdateRowsError) && AllColumnsKnown(schema, columns) ==>
                && Stored() && SameRows(old(heap), heap, schema) && Healthy(old(indexes)) && |columns| == |old(indexes)|
                && exists p: nat, slot: nat ::
                  var id := old(fsm.ChosenPage(|RowBytes(row.cells)|));
                  && FirstKeyRefused(schema, columns, old(indexes), row, p)
                  && GoesTo(SlotsOn(old(heap), id), |RowBytes(row.cells)|, slot)
                  && KeysTaken(schema, columns, old(indexes), indexes, row, (id, slot), p)
                  && (Valid() <==> KeysWereThere(schema, columns, old(indexes), row, p))
    {
      hide *;
      RowErrors(row);
      SameRowsReflexive(heap, schema);
      NothingAdded(heap, old(fsm.ChosenPage(|RowBytes(row.cells)|)));
      var valid := Validate(row, schema);
      if valid.Err? {
        return Err(InsertRowError);
      }
      CellsForColumns(row, schema);
      var positions := ColumnPositions();
      if positions.Err? {
        return Err(positions.error);
      }
      KeysByPosition(schema, columns, row, positions.value);
      var keys := KeysOf(row, positions.value, InsertRowError);
      if keys.Err? {
        return Err(keys.error);
      }
      r := InsertKeyed(row, keys.value);
    }

    /** Why a row is refused before its page is looked for. */
    lemma RowErrors(row: Row)
      requires Valid()
      ensures Healthy(indexes) && |columns| == |indexes| && fsm.Shape()
      ensures !Validates(row, schema) ==> RowError(row) == Some(InsertRowError)
      ensures Validates(row, schema) && !AllColumnsKnown(schema, columns) ==> RowError(row) == Some(UpdateRowsError)
      ensures Validates(row, schema) && AllColumnsKnown(schema, columns) && !IntColumns(schema, columns, row) ==>
                RowError(row) == Some(InsertRowError)
    {
      AgreeingIsHealthy(schema, columns, indexes, heap);
    }

    /** Store a valid row and give the indexes its keys. */
    method InsertKeyed(row: Row, keys: seq<I32>) returns (r: Result<(int, nat), AccessError>)
      requires Valid() && Validates(row, schema) && KeysAre(schema, columns, row, keys)
      requires AllColumnsKnown(schema, columns) && IntColumns(schema, columns, row)
      modifies this, fsm
      ensures match r
              case Ok(_) => old(RowError(row)) == None
              case Err(e) => old(RowError(row)) == Some(e)
      ensures r.Ok? ==>
                var (id, slot) := r.value;
                && Stored() && RowAt(heap, schema, id, slot) == Some(row) && RowAt(old(heap), schema, id, slot) == None
                && SameRowsBut(old(heap), heap, schema, id, slot)
                && id == old(fsm.ChosenPage(|RowBytes(row.cells)|))
                && Placed(old(heap), heap, pageSize, id, slot, |RowBytes(row.cells)|) && Recorded(old(fsm.pages), id)
                && Healthy(old(indexes))
                   && KeysTaken(schema, columns, old(indexes), indexes, row, (id, slot), |columns|)
      ensures r.Ok? ==> Healthy(old(indexes)) && |columns| == |old(indexes)|
      ensures r.Ok? ==>
                (Valid()
                 <==> FreshKeys(schema, columns, old(indexes), row) && SafeKeys(schema, columns, old(indexes), row))
      ensures r.Err? && r.error != Panic ==> PageAdded(old(heap), heap, old(fsm.ChosenPage(|RowBytes(row.cells)|)))
      ensures r == Err(InsertRowError) ==>
                Valid() && SameRows(old(heap), heap, schema) && indexes == old(indexes)
      ensures r == Err(UpdateRowsError) ==>
                && Stored() && SameRows(old(heap), heap, schema) && Healthy(old(indexes)) && |columns| == |old(indexes)|
                && exists p: nat, slot: nat ::
                  var id := old(fsm.ChosenPage(|RowBytes(row.cells)|));
                  && FirstKeyRefused(schema, columns, old(indexes), row, p)
                  && GoesTo(SlotsOn(old(heap), id), |RowBytes(row.cells)|, slot)
                  && KeysTaken(schema, columns, old(indexes), indexes, row, (id, slot), p)
                  && (Valid() <==> KeysWereThere(schema, columns, old(indexes), row, p))
    {
      hide *;
      ValidParts();
      AgreeingIsHealthy(schema, columns, indexes, heap);
      RowErrorMeans(row);
      RefusalIsOfKeys(schema, columns, indexes, row, keys);
      StoredParts();
      var commands := NewKeys(keys);
      var bytes := Rows.Serialize(row);
      RowOfItsBytes(row, schema);
      ghost var was, before := indexes, heap;
      r := RawInsert(bytes, commands);
      match r {
        case Ok(place) =>
          RowOfRecord(heap, schema, place.0, place.1, bytes);
          NoRowOfNothing(schema);
          AgreeAfterInsert(schema, columns, was, indexes, before, heap, keys, row, place.0, place.1);
          AllKeysTaken(schema, columns, was, indexes, row, keys, place, |columns|);
          ValidWhenAgreeing();
        case Err(InsertRowError) =>
          AgreeWithSameRows(schema, columns, indexes, before, heap);
          ValidWhenAgreeing();
        case Err(UpdateRowsError) =>
          ghost var p: nat, slot: nat :| FirstRefusal(was, commands, p)
            && GoesTo(SlotsOn(before, old(fsm.ChosenPage(|bytes|))), |bytes|, slot)
            && Taken(was, indexes, commands, (old(fsm.ChosenPage(|bytes|)), slot), p + 1);
          ghost var at := (old(fsm.ChosenPage(|bytes|)), slot);
          RefusedTakesNothing(was, indexes, keys, at, p);
          AgreeAfterRefusal(schema, columns, was, indexes, before, heap, keys, row, at, p);
          AllKeysTaken(schema, columns, was, indexes, row, keys, at, p);
          ValidWhenAgreeing();
        case Err(_) =>
      }
    }

    lemma RowErrorMeans(row: Row)
      requires Valid() && Validates(row, schema) && AllColumnsKnown(schema, columns) && IntColumns(schema, columns, row)
      ensures Healthy(indexes) && |columns| == |indexes|
      ensures RowError(row) == StorageError(|RowBytes(row.cells)|, SomeKeyRefused(schema, columns, indexes, row))
      ensures Stored() && AllAgree(schema, columns, indexes, heap)
    {
      AgreeingIsHealthy(schema, columns, indexes, heap);
    }

    lemma ValidWhenAgreeing()
      ensures Valid() <==> Stored() && AllAgree(schema, columns, indexes, heap)
    {
    }

    // ---- deleting rows ----

    /** Delete rows by the places a query gave, and their keys. All the same rows and keys go; the table
        stays in order if and only if they belong together in every index. */
    method Delete(found: seq<Found>) returns (r: Result<(), AccessError>)
      requires Valid() && forall i :: 0 <= i < |found| ==> found[i].pageId in heap && |found[i].row.cells| == |schema|
      modifies this, fsm
      ensures Stored()
      ensures r.Ok? <==> AllColumnsKnown(schema, columns)
                         && forall i :: 0 <= i < |found| ==> IntColumns(schema, columns, found[i].row)
      ensures r.Ok? ==> Removed(old(heap), heap, schema, found)
      ensures r.Ok? ==> KeysGone(schema, columns, old(indexes), indexes, found)
      ensures r.Ok? && |found| == 1 ==> Marked(old(heap), heap, pageSize, found[0].pageId, found[0].slot)
      ensures r.Ok? && |found| == 1 ==> Recorded(old(fsm.pages), found[0].pageId)
      ensures r.Ok? ==> (Valid() <==> KeysMatchPlaces(schema, columns, old(indexes), found))
      ensures r.Err? ==> Valid() && heap == old(heap) && indexes == old(indexes)
      ensures r.Err? ==> r.error == if AllColumnsKnown(schema, columns) then DeleteRowsError else UpdateRowsError
      ensures forall id :: id in heap <==> id in old(heap)
      ensures fsm.nextHeapId == old(fsm.nextHeapId)
    {
      var positions := ColumnPositions();
      if positions.Err? {
        return Err(positions.error);
      }
      var keys := KeysOfAll(found, positions.value);
      if keys.Err? {
        return Err(keys.error);
      }
      hide *;
      ValidParts();
      ghost var was, before := indexes, heap;
      DeleteAll(found, keys.value);
      AgreeAfterDelete(schema, columns, was, indexes, before, heap, found);
      ValidWhenAgreeing();
      r := Ok(());
    }

    /** The keys of all rows, before anything is deleted. */
    method KeysOfAll(found: seq<Found>, positions: seq<nat>) returns (r: Result<seq<seq<I32>>, AccessError>)
      requires PositionsOf(schema, columns, positions)
      requires forall i :: 0 <= i < |found| ==> |found[i].row.cells| == |schema|
      ensures r.Ok? <==> forall i :: 0 <= i < |found| ==> IntColumns(schema, columns, found[i].row)
      ensures r.Err? ==> r.error == DeleteRowsError
      ensures r.Ok? ==> |r.value| == |found|
      ensures r.Ok? ==> forall i :: 0 <= i < |found| ==> KeysAre(schema, columns, found[i].row, r.value[i])
    {
      var keys: seq<seq<I32>> := [];
      var i := 0;
      while i < |found|
        invariant i <= |found| && |keys| == i
        invariant forall h :: 0 <= h < i ==> KeysAre(schema, columns, found[h].row, keys[h])
      {
        var ks := KeysOf(found[i].row, positions, DeleteRowsError);
        if ks.Err? {
          return Err(ks.error);
        }
        keys := keys + [ks.value];
        i := i + 1;
      }
      r := Ok(keys);
    }

    method DeleteAll(found: seq<Found>, keys: seq<seq<I32>>)
      requires Stored() && Healthy(indexes) && |keys| == |found|
      requires forall i :: 0 <= i < |found| ==> found[i].pageId in heap
      requires forall i :: 0 <= i < |found| ==> KeysAre(schema, columns, found[i].row, keys[i])
      modifies this, fsm
      ensures Stored() && Removed(old(heap), heap, schema, found)
      ensures KeysGone(schema, columns, old(indexes), indexes, found)
      ensures |found| == 1 ==> Marked(old(heap), heap, pageSize, found[0].pageId, found[0].slot)
      ensures |found| == 1 ==> Recorded(old(fsm.pages), found[0].pageId)
      ensures forall id :: id in heap <==> id in old(heap)
      ensures fsm.nextHeapId == old(fsm.nextHeapId)
    {
      hide *;
      StoredParts();
      NothingRemoved(heap, schema);
      NothingGone(schema, columns, indexes);
      assert found[..0] == [];
      var i := 0;
      while i < |found|
        invariant i <= |found| && Stored() && Healthy(indexes) && Removed(old(heap), heap, schema, found[..i])
        invariant KeysGone(schema, columns, old(indexes), indexes, found[..i])
        invariant forall id :: id in heap <==> id in old(heap)
        invariant fsm.nextHeapId == old(fsm.nextHeapId)
        invariant i == 0 ==> heap == old(heap) && fsm.pages == old(fsm.pages)
        invariant i == 1 ==> Marked(old(heap), heap, pageSize, found[0].pageId, found[0].slot)
        invariant i == 1 ==> Recorded(old(fsm.pages), found[0].pageId)
      {
        ghost var before, was := heap, indexes;
        KeyForEachColumn(schema, columns, found[i].row, keys[i]);
        DeleteOne(found[i].pageId, found[i].slot, keys[i]);
        OneMoreRemoved(old(heap), before, heap, schema, found, i);
        OneMoreKeyGone(schema, columns, old(indexes), was, indexes, found, keys[i], i);
        i := i + 1;
      }
      assert found[..i] == found;
    }

    /** Delete one row and its keys. */
    method DeleteOne(id: int, slot: nat, keys: seq<I32>)
      requires Stored() && Healthy(indexes) && id in heap && |keys| == |columns|
      modifies this, fsm
      ensures Stored() && Healthy(indexes) && fsm.nextHeapId == old(fsm.nextHeapId)
      ensures RowAt(heap, schema, id, slot) == None && SameRowsBut(old(heap), heap, schema, id, slot)
      ensures forall i :: i in heap <==> i in old(heap)
      ensures Healthy(old(indexes)) && |keys| == |indexes| == |old(indexes)|
      ensures forall p :: 0 <= p < |indexes| ==> Index.Abs(indexes[p]) == Index.Abs(old(indexes)[p]) - {keys[p]}
      ensures Marked(old(heap), heap, pageSize, id, slot) && Recorded(old(fsm.pages), id)
    {
      hide *;
      ghost var was, before := indexes, heap;
      StoredParts();
      OldKeysFit(was, keys);
      var page := ReadPage(id);
      PageThere(heap, pageSize, id);
      DropRecord(page, slot);
      var hook := UpdateIndex(id, slot, OldKeys(keys));
      KeysAreGone(was, indexes, keys, (id, slot));
      StoredWhole();
      StorePage(page, id, slot, None);
      NoRowOfNothing(schema);
      NowMarked(before, heap, pageSize, id, slot);
    }

    static method DropRecord(page: Page, slot: nat)
      requires page.Valid()
      modifies page
      ensures page.Valid() && page.data == old(page.data) && page.pageId == old(page.pageId)
      ensures RecordPut(old(page.Fields()), page.Fields(), slot, None)
      ensures page.dataOffset == old(page.dataOffset)
      ensures page.slots == if slot < |old(page.slots)|
              then old(page.slots)[slot := old(page.slots)[slot].(deleted := true)]
                            else old(page.slots)
    {
      var found := page.DeleteRecord(slot);
    }

    lemma ValidAgain()
      requires Stored() && AllAgree(schema, columns, indexes, heap)
      ensures Valid()
    {
    }

    // ---- finding rows ----

    /** All rows, page by page and slot by slot. */
    method FindAll() returns (r: Result<seq<Found>, AccessError>)
      requires Stored()
      ensures r == Ok(AllFound(heap, schema, fsm.nextHeapId - 1)) && LiveRowsInOrder(heap, schema, r.value)
    {
      hide *;
      HeapIdsRunUp();
      StoredParts();
      ScanIsInOrder(heap, pageSize, schema, fsm.nextHeapId - 1);
      var all: seq<Found> := [];
      var id, last := 1, fsm.nextHeapId;
      AllFoundStep(heap, schema, 0);
      while id < last
        invariant 1 <= id <= last && Stored() && all == AllFound(heap, schema, id - 1)
      {
        var rows := ScanPage(id);
        AllFoundStep(heap, schema, id);
        match rows {
          case Err(e) => return Err(e);
          case Ok(found) => all := all + found;
        }
        id := id + 1;
      }
      r := Ok(all);
    }

    lemma HeapIdsRunUp()
      requires Stored()
      ensures forall id :: id in heap <==> 1 <= id < fsm.nextHeapId
      ensures fsm.nextHeapId >= 1
    {
    }

    /** The rows of one page. */
    method ScanPage(id: int) returns (r: Result<seq<Found>, AccessError>)
      requires Stored() && id in heap
      ensures r == Ok(FoundIn(PageRecords(heap, id), schema))
    {
      var page := ReadPage(id);
      RecordsAreRows(heap, pageSize, schema, id);
      var records := new RecordIterator(page);
      assert records.Rest() == PageRecords(heap, id);
      r := RowsOfRecords(records);
    }

    /** Everything an iterator still yields, as rows. */
    method RowsOfRecords(records: RecordIterator) returns (r: Result<seq<Found>, AccessError>)
      requires records.Valid() && forall x :: x in records.Rest() ==> RowOf(Some(x.data), schema).Some?
      modifies records
      ensures r == Ok(FoundIn(old(records.Rest()), schema))
    {
      hide RowOf, Scan, FoundIn;
      ghost var all := records.Rest();
      ghost var done: seq<Record> := [];
      var rows: seq<Found> := [];
      NothingFound(schema);
      var next := records.Next();
      while next.Some?
        invariant next.Some? ==> all == done + [next.value] + records.Rest()
        invariant next.None? ==> all == done
        invariant rows == FoundIn(done, schema)
        decreases |all| - |done|
      {
        var record := next.value;
        assert record == all[|done|];
        var row := Rows.Deserialize(record.data, schema);
        RowOfRead(record.data, schema, row);
        OneMoreFound(done, record, schema);
        match row {
          case Err(e) => return Err(StoreError);
          case Ok(found) => rows := rows + [Found(record.pageId, record.recordIndex, found)];
        }
        done := done + [record];
        next := records.Next();
      }
      r := Ok(rows);
    }

    /** Find rows by a cell: through an index if the column has one, else by a filtered scan. Both give
        the same rows; only the scan also gives their places. */
    method Find(colName: string, cell: Cell) returns (r: Result<seq<Found>, AccessError>)
      requires Valid()
      modifies `indexes
      ensures Valid() && RootsGiven(old(indexes), indexes)
      ensures !Named(schema, colName) ==> r == Err(LoadRowsError)
      ensures forall col :: FirstNamed(schema, colName, col) ==>
                FoundInColumn(schema, columns, heap, col, cell, r)
    {
      hide AllFound, Filter, RowsOf, FoundInColumn, AllAgree, GoodPages, SpaceKnown;
      RootsAsTheyAre(indexes);
      var column := FindColumnForQuery(schema, colName);
      if column.Err? {
        return Err(column.error);
      }
      r := FindInColumn(column.value, cell);
      forall col | FirstNamed(schema, colName, col)
        ensures FoundInColumn(schema, columns, heap, col, cell, r)
      {
        FirstNamedIsUnique(schema, colName, col, column.value);
      }
    }

    method FindInColumn(col: nat, cell: Cell) returns (r: Result<seq<Found>, AccessError>)
      requires Valid() && col < |schema|
      modifies `indexes
      ensures Valid() && RootsGiven(old(indexes), indexes)
      ensures FoundInColumn(schema, columns, heap, col, cell, r)
    {
      hide *;
      ValidParts();
      HeapIdsRunUp();
      RootsAsTheyAre(indexes);
      StoredParts();
      WhatIsFound(schema, columns, heap, pageSize, fsm.nextHeapId - 1, col, cell);
      if !CellFits(cell, schema[col].colType) {
        return Err(LoadRowsError);
      }
      var positions := ColumnPositions();
      if positions.Err? {
        return Err(positions.error);
      }
      var pointer := PointerTo(positions.value, col);
      PointerSaysIndexed(schema, columns, positions.value, col, pointer);
      if pointer.Some? {
        if !cell.IntCell? {
          return Err(LoadRowsError);
        }
        r := FindByIndex(pointer.value, col, cell.i);
      } else {
        var rows := FindAll();
        match rows {
          case Ok(found) => r := Ok(Filter(found, col, cell));
          case Err(e) => r := Err(e);
        }
      }
    }

    lemma ValidParts()
      requires Valid()
      ensures Stored() && AllAgree(schema, columns, indexes, heap)
    {
    }

    /** Look a key up; the first access to an index gives it a root. */
    method FindByIndex(pointer: nat, col: nat, key: I32) returns (r: Result<seq<Found>, AccessError>)
      requires Valid() && pointer < |columns| && Position(schema, columns[pointer]) == Some(col)
      modifies `indexes
      ensures Valid() && r.Ok? && RootsGiven(old(indexes), indexes)
      ensures r.value == InSlotZero(Filter(AllFound(heap, schema, fsm.nextHeapId - 1), col, IntCell(key)))
    {
      hide *;
      ValidParts();
      HeapIdsRunUp();
      StoredParts();
      ghost var s := indexes[pointer];
      ghost var hits := Filter(AllFound(heap, schema, fsm.nextHeapId - 1), col, IntCell(key));
      LookupOpens(schema, columns, indexes, heap, pointer, col, key);
      ScanIsIndexLookup(Index.Abs(s), heap, pageSize, schema, fsm.nextHeapId - 1, col, key);
      NoneOrOne(hits);
      var found := Index.Lookup(indexes[pointer], key);
      var o := Index.Open(indexes[pointer]);
      indexes := indexes[pointer := Index.State(Some(o.tree), o.alloc)];
      RootGiven(old(indexes), indexes, pointer);
      StoredWhole();
      ValidAgain();
      match found {
        case None =>
          r := Ok([]);
        case Some(place) =>
          r := IndexedRow(place.0, place.1, hits[0].row);
      }
    }

    /** The row an index points to. Its record has lost its number and is reported in slot 0. */
    method IndexedRow(id: int, slot: int, ghost row: Row) returns (r: Result<seq<Found>, AccessError>)
      requires Stored() && slot >= 0 && RowAt(heap, schema, id, slot) == Some(row)
      ensures r == Ok([Found(id, 0, row)])
    {
      hide *;
      LiveRowIsThere(heap, schema, id, slot);
      if id !in heap {
        return Err(StoreError);
      }
      var page := ReadPage(id);
      SingleSlotIsNumberedZero(|page.slots|, slot);
      var records := new RecordIterator.FromSlots(page, [slot]);
      OneRecordLeft(records, heap, schema, id, slot, row);
      r := RowsOfRecords(records);
    }

    /** Delete the rows a search finds. A row found through an index is reported in slot 0: exactly the rows
        with the cell go, and the table stays in order, if and only if that is where it lies. */
    method DeleteWhere(colName: string, cell: Cell) returns (r: Result<(), AccessError>)
      requires Valid()
      modifies this, fsm
      ensures Stored()
      ensures !Named(schema, colName) ==> r == Err(LoadRowsError)
      ensures forall col :: FirstNamed(schema, colName, col) && r.Err? ==>
                r.error == if Searchable(schema, columns, col, cell) then DeleteRowsError
                           else SearchError(schema, columns, col, cell)
      ensures forall col :: FirstNamed(schema, colName, col) ==>
                (r.Ok? <==> Deletable(schema, columns, old(heap), col, cell))
      ensures r.Ok? ==>
                forall col :: FirstNamed(schema, colName, col) ==>
                  && (Valid() <==> HitsAreReported(schema, columns, old(heap), col, cell))
                  && (OnlyWithout(old(heap), heap, schema, col, cell)
                      <==> HitsAreReported(schema, columns, old(heap), col, cell))
      ensures r.Err? ==> Valid() && heap == old(heap)
    {
      var column := FindColumnForQuery(schema, colName);
      if column.Err? {
        return Err(column.error);
      }
      hide *;
      ghost var before := heap;
      r := DeleteInColumn(column.value, cell);
      forall col | FirstNamed(schema, colName, col)
        ensures r.Ok? <==> Deletable(schema, columns, before, col, cell)
        ensures r.Err? ==> r.error == if Searchable(schema, columns, col, cell) then DeleteRowsError
                                      else SearchError(schema, columns, col, cell)
        ensures r.Ok? ==>
                  && (Valid() <==> HitsAreReported(schema, columns, before, col, cell))
                  && (OnlyWithout(before, heap, schema, col, cell)
                      <==> HitsAreReported(schema, columns, before, col, cell))
      {
        FirstNamedIsUnique(schema, colName, col, column.value);
      }
    }

    method DeleteInColumn(col: nat, cell: Cell) returns (r: Result<(), AccessError>)
      requires Valid() && col < |schema|
      modifies this, fsm
      ensures Stored() && (r.Ok? <==> Deletable(schema, columns, old(heap), col, cell))
      ensures r.Err? ==> r.error == if Searchable(schema, columns, col, cell) then DeleteRowsError
                                    else SearchError(schema, columns, col, cell)
      ensures r.Ok? ==>
                && (Valid() <==> HitsAreReported(schema, columns, old(heap), col, cell))
                && (OnlyWithout(old(heap), heap, schema, col, cell)
                    <==> HitsAreReported(schema, columns, old(heap), col, cell))
      ensures r.Err? ==> Valid() && heap == old(heap)
    {
      hide *;
      var found := FindInColumn(col, cell);
      ValidParts();
      StoredParts();
      HeapIdsRunUp();
      ghost var was, before, last := indexes, heap, fsm.nextHeapId - 1;
      match found {
        case Err(e) =>
          NotFoundNotDeleted(schema, columns, before, col, cell, found);
          r := Err(e);
        case Ok(rows) =>
          FoundAreDeletable(schema, columns, before, pageSize, last, col, cell, rows);
          NotFoundNotDeleted(schema, columns, before, col, cell, found);
          FoundCanBeDeleted(schema, columns, before, pageSize, last, col, cell, rows);
          r := Delete(rows);
          if r.Ok? {
            DeletedFound(schema, columns, was, before, heap, pageSize, last, col, cell, rows);
          }
      }
    }

    lemma StoredParts()
      requires Stored()
      ensures Addresses.FsmPageSize(pageSize) && |schema| > 0 && |indexes| == |columns| && fsm.Valid()
              && fsm.pageSize == pageSize
      ensures fsm.Shape()
      ensures SpaceKnown(heap, fsm.heap) && GoodPages(heap, pageSize, schema)
      ensures forall id :: id in heap ==> 0 < id <= Addresses.I32_MAX
      ensures 0 < fsm.nextHeapId <= Addresses.I32_MAX
    {
    }

    lemma StoredWhole()
      requires Addresses.FsmPageSize(pageSize) && |schema| > 0 && |indexes| == |columns| && fsm.Valid()
      requires fsm.pageSize == pageSize
      requires SpaceKnown(heap, fsm.heap) && GoodPages(heap, pageSize, schema)
      ensures Stored()
    {
    }
  }
}
