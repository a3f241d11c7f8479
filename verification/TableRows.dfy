/** What the pages of a table hold, and when an index agrees with it. */
module TableRows {
  import opened Bytes
  import opened Entries
  import opened PageCodec
  import opened PageLayout
  import opened PageSlots
  import opened RecordScan
  import opened Rows
  import opened Wrappers

  /** The heap file: the bytes of each page by its id. */
  type HeapFile = map<int, seq<Byte>>

  // -------- rows by place --------

  ghost predicate Sane(b: seq<Byte>) { Readable(b) && InArea(PageFrom(b).slots, 0, |PageFrom(b).data|) }

  ghost function RecordAt(heap: HeapFile, id: int, slot: nat): Option<seq<Byte>> {
    if id in heap && Sane(heap[id]) then Read(PageFrom(heap[id]).slots, PageFrom(heap[id]).data, slot) else None
  }

  ghost function RowOf(record: Option<seq<Byte>>, schema: Schema): Option<Row> {
    if record.Some? && CellsFrom(record.value, schema).Ok? then Some(Row(CellsFrom(record.value, schema).value))
      else None
  }

  /** The live row in a slot of a page. */
  ghost function RowAt(heap: HeapFile, schema: Schema, id: int, slot: nat): Option<Row> {
    RowOf(RecordAt(heap, id, slot), schema)
  }

  /** A stored page: its slots tile the record area, the directory ends before it, and every live
      record is a row. */
  ghost predicate GoodPage(heap: HeapFile, pageSize: int, schema: Schema, id: int)
    requires id in heap
  {
    var b := heap[id];
    && |b| == pageSize && Readable(b)
    && var f := PageFrom(b);
       && f.Storable() && Tiled(f.slots, f.dataOffset, |f.data|) && SLOT_SIZE * |f.slots| <= f.dataOffset
          && f.pageId == id
       && forall i :: 0 <= i < |f.slots| && Read(f.slots, f.data, i).Some? ==> RowAt(heap, schema, id, i).Some?
  }

  ghost predicate GoodPages(heap: HeapFile, pageSize: int, schema: Schema) {
    forall id :: id in heap ==> GoodPage(heap, pageSize, schema, id)
  }

  /** The rows are the same, but for one place. */
  ghost predicate SameRowsBut(was: HeapFile, now: HeapFile, schema: Schema, id: int, slot: nat) {
    forall i, s: nat :: (i, s) != (id, slot) ==> RowAt(now, schema, i, s) == RowAt(was, schema, i, s)
  }

  ghost predicate SameRows(was: HeapFile, now: HeapFile, schema: Schema) {
    forall i, s: nat :: RowAt(now, schema, i, s) == RowAt(was, schema, i, s)
  }

  /** A page that was written is read back with its own records. */
  lemma WrittenPage(heap: HeapFile, id: int, f: PageFields, slot: nat)
    requires f.Storable() && Tiled(f.slots, f.dataOffset, |f.data|) && SLOT_SIZE * |f.slots| <= f.dataOffset
    ensures RecordAt(heap[id := PageBytes(f)], id, slot)
         == if slot < |f.slots| then ReadAll(f.slots, f.data)[slot] else None
  {
    PageRoundTrip(f);
    RecordsSurvive(f);
    hide Tiled, PageBytes;
    var g := PageFrom(PageBytes(f));
    if slot < |f.slots| {
      assert ReadAll(g.slots, g.data)[slot] == ReadAll(f.slots, f.data)[slot];
    }
  }

  lemma WrittenPageIsGood(heap: HeapFile, pageSize: int, schema: Schema, id: int, f: PageFields)
    requires f.Storable() && Tiled(f.slots, f.dataOffset, |f.data|) && SLOT_SIZE * |f.slots| <= f.dataOffset
    requires f.pageId == id && |f.data| == DataSize(pageSize)
    requires forall i :: 0 <= i < |f.slots| && ReadAll(f.slots, f.data)[i].Some? ==>
               RowOf(ReadAll(f.slots, f.data)[i], schema).Some?
    ensures GoodPage(heap[id := PageBytes(f)], pageSize, schema, id)
  {
    PageRoundTrip(f);
    RecordsSurvive(f);
    hide Tiled, PageBytes;
    var b := PageBytes(f);
    var g := PageFrom(b);
    forall i | 0 <= i < |g.slots| && Read(g.slots, g.data, i).Some? ensures RowAt(heap[id := b], schema, id, i).Some? {
      WrittenPage(heap, id, f, i);
      assert ReadAll(g.slots, g.data)[i] == ReadAll(f.slots, f.data)[i];
    }
  }

  /** Other pages do not notice. */
  lemma OtherPages(heap: HeapFile, pageSize: int, schema: Schema, id: int, b: seq<Byte>, other: int)
    requires other != id && other in heap && GoodPage(heap, pageSize, schema, other)
    ensures GoodPage(heap[id := b], pageSize, schema, other)
  {
    forall i: nat ensures RowAt(heap[id := b], schema, other, i) == RowAt(heap, schema, other, i) {}
  }

  // -------- index and heap --------

  /** The row in a place has an integer v in a column. */
  ghost predicate HasKey(heap: HeapFile, schema: Schema, col: nat, id: int, slot: nat, v: int) {
    var row := RowAt(heap, schema, id, slot);
    row.Some? && col < |row.value.cells| && row.value.cells[col].IntCell? && row.value.cells[col].i == v
  }

  ghost predicate PointsTo(index: map<int, Val>, v: int, id: int, slot: int) {
    v in index && index[v] == (id, slot)
  }

  /** The index holds the place of every live row under its cell value, and nothing else. */
  ghost predicate Agrees(index: map<int, Val>, heap: HeapFile, schema: Schema, col: nat) {
    && (forall v, id, slot: nat :: PointsTo(index, v, id, slot) <==> HasKey(heap, schema, col, id, slot, v))
    && (forall v :: v in index ==> index[v].1 >= 0)
  }

  lemma AgreeingIsWithin(index: map<int, Val>, other: map<int, Val>, heap: HeapFile, schema: Schema, col: nat)
    requires Agrees(index, heap, schema, col) && Agrees(other, heap, schema, col)
    ensures forall v :: v in index ==> v in other && other[v] == index[v]
  {
    hide HasKey;
    forall v | v in index ensures v in other && other[v] == index[v] {
      assert PointsTo(index, v, index[v].0, index[v].1);
      assert HasKey(heap, schema, col, index[v].0, index[v].1, v);
      assert PointsTo(other, v, index[v].0, index[v].1);
    }
  }

  /** There is one such index only. */
  lemma OneIndexAgrees(index: map<int, Val>, other: map<int, Val>, heap: HeapFile, schema: Schema, col: nat)
    requires Agrees(index, heap, schema, col) && Agrees(other, heap, schema, col)
    ensures index == other
  {
    AgreeingIsWithin(index, other, heap, schema, col);
    AgreeingIsWithin(other, index, heap, schema, col);
    MapsEqual(index, other);
  }

  lemma MapsEqual(m: map<int, Val>, n: map<int, Val>)
    requires forall v: int :: v in m ==> v in n && n[v] == m[v]
    requires forall v: int :: v in n ==> v in m
    ensures m == n
  {
    assert forall v: int :: v in m.Keys <==> v in n.Keys;
    assert m.Keys == n.Keys;
    assert forall v: int :: v in m ==> m[v] == n[v];
  }

  /** While the rows stay, exactly the same index agrees. */
  lemma AgreesWithSameRows(index: map<int, Val>, other: map<int, Val>, was: HeapFile, now: HeapFile, schema: Schema,
                           col: nat)
    requires Agrees(index, was, schema, col) && SameRows(was, now, schema)
    ensures Agrees(other, now, schema, col) <==> other == index
  {
    forall v, id, slot: nat ensures HasKey(now, schema, col, id, slot, v) <==> HasKey(was, schema, col, id, slot, v) {}
    hide HasKey;
    assert Agrees(index, now, schema, col);
    if Agrees(other, now, schema, col) { OneIndexAgrees(index, other, now, schema, col); }
  }

  /** A row found through an index is reported in slot 0; that is its place exactly when its slot is 0. */
  lemma ReportedPlaceIsRightExactlyWhen(index: map<int, Val>, heap: HeapFile, schema: Schema, col: nat, v: int,
                                        id: int, slot: nat)
    requires Agrees(index, heap, schema, col) && PointsTo(index, v, id, slot)
    ensures RowAt(heap, schema, id, 0) == RowAt(heap, schema, id, slot) <==> slot == 0
  {
    assert HasKey(heap, schema, col, id, slot, v);
    if RowAt(heap, schema, id, 0) == RowAt(heap, schema, id, slot) {
      assert HasKey(heap, schema, col, id, 0, v);
      assert PointsTo(index, v, id, 0);
    }
  }

  /** After a new row, an index agrees if and only if the key was fresh and this is the only change. */
  lemma AgreesAfterInsert(index: map<int, Val>, after: map<int, Val>, was: HeapFile, now: HeapFile, schema: Schema,
                          col: nat, id: int, slot: nat, v: I32)
    requires Agrees(index, was, schema, col)
    requires RowAt(was, schema, id, slot) == None && SameRowsBut(was, now, schema, id, slot)
    requires HasKey(now, schema, col, id, slot, v)
    ensures Agrees(after, now, schema, col) <==> v !in index && after == index[v := (id, slot)]
  {
    if v !in index {
      var more := index[v := (id, slot)];
      forall w, i, s: nat ensures PointsTo(more, w, i, s) <==> HasKey(now, schema, col, i, s, w) {
        assert PointsTo(index, w, i, s) <==> HasKey(was, schema, col, i, s, w);
        assert !HasKey(was, schema, col, id, slot, w);
        if (i, s) != (id, slot) { assert RowAt(now, schema, i, s) == RowAt(was, schema, i, s); }
      }
      assert Agrees(more, now, schema, col);
      if Agrees(after, now, schema, col) { OneIndexAgrees(more, after, now, schema, col); }
    } else if Agrees(after, now, schema, col) {
      var i, s: nat := index[v].0, index[v].1;
      assert PointsTo(index, v, i, s);
      assert HasKey(was, schema, col, i, s, v) && (i, s) != (id, slot);
      assert RowAt(now, schema, i, s) == RowAt(was, schema, i, s);
      assert HasKey(now, schema, col, i, s, v);
    }
  }

  /** Exactly the rows in the given places are gone. */
  ghost predicate Removed(was: HeapFile, now: HeapFile, schema: Schema, found: seq<Found>) {
    forall id, slot: nat :: RowAt(now, schema, id, slot) == if At(found, id, slot) then None
      else RowAt(was, schema, id, slot)
  }

  ghost predicate At(found: seq<Found>, id: int, slot: nat) {
    exists i :: 0 <= i < |found| && found[i].pageId == id && found[i].slot == slot
  }

  /** The keys are those the index has for these places. */
  ghost predicate KeysOfPlaces(index: map<int, Val>, keys: set<int>, found: seq<Found>) {
    forall v :: v in index && index[v].1 >= 0 ==> (v in keys <==> At(found, index[v].0, index[v].1))
  }

  /** After rows and keys were removed, the index agrees if and only if they belonged together. */
  lemma AgreesAfterRemoval(index: map<int, Val>, was: HeapFile, now: HeapFile, schema: Schema, col: nat,
                           keys: set<int>, found: seq<Found>)
    requires Agrees(index, was, schema, col) && Removed(was, now, schema, found)
    ensures Agrees(index - keys, now, schema, col) <==> KeysOfPlaces(index, keys, found)
  {
    var rest := index - keys;
    hide RowAt, At;
    forall v, i, s: nat ensures HasKey(now, schema, col, i, s, v) <==> PointsTo(index, v, i, s) && !At(found, i, s) {
      assert PointsTo(index, v, i, s) <==> HasKey(was, schema, col, i, s, v);
      assert RowAt(now, schema, i, s) == if At(found, i, s) then None else RowAt(was, schema, i, s);
    }
    hide HasKey;
    if KeysOfPlaces(index, keys, found) {
      forall v, i, s: nat ensures PointsTo(rest, v, i, s) <==> HasKey(now, schema, col, i, s, v) {}
    }
    if Agrees(rest, now, schema, col) {
      forall v | v in index && index[v].1 >= 0 ensures v in keys <==> At(found, index[v].0, index[v].1) {
        var i, s: nat := index[v].0, index[v].1;
        assert PointsTo(rest, v, i, s) <==> HasKey(now, schema, col, i, s, v);
        assert HasKey(now, schema, col, i, s, v) <==> PointsTo(index, v, i, s) && !At(found, i, s);
      }
    }
  }

  // -------- scans --------

  /** A row and where a query says it lies. */
  datatype Found = Found(pageId: int, slot: nat, row: Row)

  /** The records of a page, in slot order. */
  ghost function PageRecords(heap: HeapFile, id: int): seq<Record> {
    if id in heap && Sane(heap[id]) then
      Scan(PageFrom(heap[id]).pageId, PageFrom(heap[id]).slots, PageFrom(heap[id]).data, 0)
    else []
  }

  /** The rows of some records; records that are no rows are passed over. */
  ghost function FoundIn(records: seq<Record>, schema: Schema): seq<Found> {
    if |records| == 0 then []
    else
      FoundIn(records[..|records| - 1], schema) +
      var r := records[|records| - 1];
      var row := RowOf(Some(r.data), schema);
      if row.Some? then [Found(r.pageId, r.recordIndex, row.value)] else []
  }

  /** The rows of pages 1 to n, in page and slot order. */
  ghost function AllFound(heap: HeapFile, schema: Schema, n: nat): seq<Found> {
    if n == 0 then [] else AllFound(heap, schema, n - 1) + FoundIn(PageRecords(heap, n), schema)
  }

  function Filter(found: seq<Found>, col: nat, cell: Cell): seq<Found> {
    if |found| == 0 then []
    else
      var f := found[|found| - 1];
      Filter(found[..|found| - 1], col, cell) +
      if col < |f.row.cells| && f.row.cells[col] == cell then [f] else []
  }

  function RowsOf(found: seq<Found>): (rows: seq<Row>)
    ensures |rows| == |found| && forall i :: 0 <= i < |rows| ==> rows[i] == found[i].row
  {
    seq(|found|, i requires 0 <= i < |found| => found[i].row)
  }

  lemma {:induction false} FoundInIsExact(records: seq<Record>, schema: Schema, f: Found)
    ensures f in FoundIn(records, schema) <==>
            exists r: Record :: r in records && f.pageId == r.pageId && f.slot == r.recordIndex
                                && RowOf(Some(r.data), schema) == Some(f.row)
  {
    if |records| > 0 {
      var n := |records| - 1;
      FoundInIsExact(records[..n], schema, f);
      assert records == records[..n] + [records[n]];
    }
  }

  /** A page is scanned into exactly its live rows. */
  lemma PageFoundIsExact(heap: HeapFile, schema: Schema, id: int, f: Found)
    requires id in heap && Sane(heap[id]) && PageFrom(heap[id]).pageId == id
    ensures f in FoundIn(PageRecords(heap, id), schema)
            <==> f.pageId == id && RowAt(heap, schema, id, f.slot) == Some(f.row)
  {
    var p := PageFrom(heap[id]);
    var records := PageRecords(heap, id);
    FoundInIsExact(records, schema, f);
    if f in FoundIn(records, schema) {
      var r: Record :| r in records && f.pageId == r.pageId && f.slot == r.recordIndex
                       && RowOf(Some(r.data), schema) == Some(f.row);
      ScanIsExact(p.pageId, p.slots, p.data, 0, r);
    }
    if f.pageId == id && RowAt(heap, schema, id, f.slot) == Some(f.row) {
      var r := Record(p.pageId, f.slot, Read(p.slots, p.data, f.slot).value);
      ScanIsExact(p.pageId, p.slots, p.data, 0, r);
    }
  }

  lemma GoodPageIsSane(heap: HeapFile, pageSize: int, schema: Schema, id: int)
    requires GoodPages(heap, pageSize, schema) && id in heap
    ensures Sane(heap[id]) && PageFrom(heap[id]).pageId == id
  {
    assert GoodPage(heap, pageSize, schema, id);
  }

  /** The sequential scan gives exactly the live rows, each with its place. */
  lemma {:induction false} ScanFindsLiveRows(heap: HeapFile, pageSize: int, schema: Schema, n: nat, f: Found)
    requires GoodPages(heap, pageSize, schema) && forall id :: 1 <= id <= n ==> id in heap
    ensures f in AllFound(heap, schema, n)
            <==> 1 <= f.pageId <= n && RowAt(heap, schema, f.pageId, f.slot) == Some(f.row)
  {
    AllFoundStep(heap, schema, n);
    hide *;
    if n > 0 {
      ScanFindsLiveRows(heap, pageSize, schema, n - 1, f);
      GoodPageIsSane(heap, pageSize, schema, n);
      PageFoundIsExact(heap, schema, n, f);
    }
  }

  lemma AllFoundStep(heap: HeapFile, schema: Schema, n: nat)
    ensures AllFound(heap, schema, n)
         == if n == 0 then [] else AllFound(heap, schema, n - 1) + FoundIn(PageRecords(heap, n), schema)
    ensures n == 0 ==> Ascends(AllFound(heap, schema, n))
  {
  }

  /** Page by page, and on a page slot by slot. */
  predicate PlaceBefore(f: Found, g: Found) { f.pageId < g.pageId || (f.pageId == g.pageId && f.slot < g.slot) }

  /** The places ascend; so none is found twice. */
  ghost predicate Ascends(found: seq<Found>) {
    forall i, j :: 0 <= i < j < |found| ==> PlaceBefore(found[i], found[j])
  }

  lemma EarlierPage(f: Found, g: Found)
    ensures f.pageId < g.pageId ==> PlaceBefore(f, g)
  {
  }

  lemma AscendsAppend(found: seq<Found>, more: seq<Found>)
    requires Ascends(found) && Ascends(more)
    requires forall f, g :: f in found && g in more ==> PlaceBefore(f, g)
    ensures Ascends(found + more)
  {
    forall i, j | 0 <= i < j < |found + more| ensures PlaceBefore((found + more)[i], (found + more)[j]) {
      if i < |found| <= j { assert found[i] in found && more[j - |found|] in more; }
    }
  }

  /** There is one such order only. */
  lemma {:induction false} OneOrder(a: seq<Found>, b: seq<Found>)
    requires Ascends(a) && Ascends(b) && forall f :: f in a <==> f in b
    ensures a == b
    decreases |a|
  {
    hide Ascends, PlaceBefore;
    BothEmpty(a, b);
    if |a| > 0 {
      var m, n := |a| - 1, |b| - 1;
      SameLast(a, b);
      LastIsOnce(a);
      LastIsOnce(b);
      forall f: Found ensures f in a[..m] <==> f in b[..n] {
        assert f in a <==> f in b;
        assert f in a[..m] <==> f in a && f != a[m];
        assert f in b[..n] <==> f in b && f != b[n];
      }
      OneOrder(a[..m], b[..n]);
      assert a == a[..m] + [a[m]] && b == b[..n] + [b[n]];
    }
  }

  lemma BothEmpty(a: seq<Found>, b: seq<Found>)
    requires forall f :: f in a <==> f in b
    ensures |a| == 0 <==> |b| == 0
  {
    assert |a| > 0 ==> a[0] in a;
    assert |b| > 0 ==> b[0] in b;
  }

  lemma SameLast(a: seq<Found>, b: seq<Found>)
    requires Ascends(a) && Ascends(b) && |a| > 0 && |b| > 0 && forall f :: f in a <==> f in b
    ensures a[|a| - 1] == b[|b| - 1]
  {
    var m, n := |a| - 1, |b| - 1;
    assert a[m] in b && b[n] in a;
    var i :| 0 <= i <= n && b[i] == a[m];
    var j :| 0 <= j <= m && a[j] == b[n];
    BeforeLast(b, i);
    BeforeLast(a, j);
  }

  lemma BeforeLast(a: seq<Found>, i: nat)
    requires Ascends(a) && i < |a|
    ensures a[i] == a[|a| - 1] || PlaceBefore(a[i], a[|a| - 1])
  {
  }

  lemma LastIsOnce(a: seq<Found>)
    requires Ascends(a) && |a| > 0
    ensures Ascends(a[..|a| - 1]) && forall f :: f in a[..|a| - 1] <==> f in a && f != a[|a| - 1]
  {
    var m := |a| - 1;
    forall f | f in a && f != a[m] ensures f in a[..m] {
      var i :| 0 <= i <= m && a[i] == f;
      assert a[..m][i] == f;
    }
    forall f | f in a[..m] ensures f in a && f != a[m] {
      var i :| 0 <= i < m && a[i] == f;
      assert PlaceBefore(a[i], a[m]);
    }
  }

  /** The live rows of a heap, in the order of their places. */
  ghost predicate LiveRowsInOrder(heap: HeapFile, schema: Schema, found: seq<Found>) {
    Ascends(found) && forall f: Found :: f in found <==> RowAt(heap, schema, f.pageId, f.slot) == Some(f.row)
  }

  /** The live rows with a cell, in the order of their places. */
  ghost predicate HitsInOrder(heap: HeapFile, schema: Schema, col: nat, cell: Cell, hits: seq<Found>) {
    && Ascends(hits)
    && forall f: Found :: f in hits <==>
         RowAt(heap, schema, f.pageId, f.slot) == Some(f.row) && col < |f.row.cells| && f.row.cells[col] == cell
  }

  lemma {:induction false} RecordsFoundInOrder(records: seq<Record>, schema: Schema)
    requires forall i, j :: 0 <= i < j < |records| ==>
               records[i].pageId == records[j].pageId && records[i].recordIndex < records[j].recordIndex
    ensures Ascends(FoundIn(records, schema))
  {
    if |records| > 0 {
      var n := |records| - 1;
      RecordsFoundInOrder(records[..n], schema);
      var before, last := FoundIn(records[..n], schema), FoundIn(records, schema)[|FoundIn(records[..n], schema)|..];
      forall f, g | f in before && g in last ensures PlaceBefore(f, g) {
        FoundInIsExact(records[..n], schema, f);
        var r: Record :| r in records[..n] && f.pageId == r.pageId && f.slot == r.recordIndex;
        assert g.pageId == records[n].pageId && g.slot == records[n].recordIndex;
      }
      AscendsAppend(before, last);
    }
  }

  lemma {:induction false} ScanAscendsByPlace(heap: HeapFile, pageSize: int, schema: Schema, n: nat)
    requires GoodPages(heap, pageSize, schema) && forall id :: 1 <= id <= n ==> id in heap
    ensures Ascends(AllFound(heap, schema, n))
  {
    AllFoundStep(heap, schema, n);
    hide *;
    if n > 0 {
      ScanAscendsByPlace(heap, pageSize, schema, n - 1);
      PageAscends(heap, pageSize, schema, n);
      var here := FoundIn(PageRecords(heap, n), schema);
      forall f, g | f in AllFound(heap, schema, n - 1) && g in here ensures PlaceBefore(f, g) {
        ScanFindsLiveRows(heap, pageSize, schema, n - 1, f);
        GoodPageIsSane(heap, pageSize, schema, n);
        PageFoundIsExact(heap, schema, n, g);
        EarlierPage(f, g);
      }
      AscendsAppend(AllFound(heap, schema, n - 1), here);
    }
  }

  lemma PageAscends(heap: HeapFile, pageSize: int, schema: Schema, id: int)
    requires GoodPages(heap, pageSize, schema) && id in heap
    ensures Ascends(FoundIn(PageRecords(heap, id), schema))
  {
    GoodPageIsSane(heap, pageSize, schema, id);
    var p, records := PageFrom(heap[id]), PageRecords(heap, id);
    hide PageFrom, GoodPages, FoundIn;
    forall i, j | 0 <= i < j < |records|
      ensures records[i].pageId == records[j].pageId && records[i].recordIndex < records[j].recordIndex
    {
      ScanAscends(p.pageId, p.slots, p.data, 0, i, j);
      ScanIsExact(p.pageId, p.slots, p.data, 0, records[i]);
      ScanIsExact(p.pageId, p.slots, p.data, 0, records[j]);
    }
    RecordsFoundInOrder(records, schema);
  }

  lemma {:induction false} FilterIsExact(found: seq<Found>, col: nat, cell: Cell, f: Found)
    ensures f in Filter(found, col, cell) <==> f in found && col < |f.row.cells| && f.row.cells[col] == cell
  {
    if |found| > 0 {
      var n := |found| - 1;
      FilterIsExact(found[..n], col, cell, f);
      assert found == found[..n] + [found[n]];
    }
  }

  lemma {:induction false} FilterAscends(found: seq<Found>, col: nat, cell: Cell)
    requires Ascends(found)
    ensures Ascends(Filter(found, col, cell))
  {
    if |found| > 0 {
      var n := |found| - 1;
      FilterAscends(found[..n], col, cell);
      var before := Filter(found[..n], col, cell);
      var last := if col < |found[n].row.cells| && found[n].row.cells[col] == cell then [found[n]] else [];
      forall f, g | f in before && g in last ensures PlaceBefore(f, g) {
        FilterIsExact(found[..n], col, cell, f);
        var i :| 0 <= i < n && found[i] == f;
      }
      AscendsAppend(before, last);
    }
  }

  /** The filtered scan for an indexed cell is what the index points to: the one row there, or nothing. */
  lemma ScanIsIndexLookup(index: map<int, Val>, heap: HeapFile, pageSize: int, schema: Schema, n: nat, col: nat, v: I32)
    requires GoodPages(heap, pageSize, schema) && forall id :: id in heap <==> 1 <= id <= n
    requires Agrees(index, heap, schema, col)
    ensures var hits := Filter(AllFound(heap, schema, n), col, IntCell(v));
            if v in index then
              |hits| == 1 && (hits[0].pageId, hits[0].slot as int) == index[v]
              && RowAt(heap, schema, hits[0].pageId, hits[0].slot) == Some(hits[0].row)
            else hits == []
  {
    var all := AllFound(heap, schema, n);
    var hits := Filter(all, col, IntCell(v));
    ScanAscendsByPlace(heap, pageSize, schema, n);
    FilterAscends(all, col, IntCell(v));
    forall f | f in hits
      ensures PointsTo(index, v, f.pageId, f.slot) && RowAt(heap, schema, f.pageId, f.slot) == Some(f.row) {
      FilterIsExact(all, col, IntCell(v), f);
      ScanFindsLiveRows(heap, pageSize, schema, n, f);
      assert HasKey(heap, schema, col, f.pageId, f.slot, v);
    }
    if v in index {
      var id, slot: nat := index[v].0, index[v].1;
      assert PointsTo(index, v, id, slot);
      var f := Found(id, slot, RowAt(heap, schema, id, slot).value);
      ScanFindsLiveRows(heap, pageSize, schema, n, f);
      FilterIsExact(all, col, IntCell(v), f);
      assert f in hits;
    }
    MoreThanOneDiffer(hits);
  }

  lemma MoreThanOneDiffer(found: seq<Found>)
    requires Ascends(found)
    ensures |found| == 0 || exists f :: f in found
    ensures |found| <= 1 || exists f, g :: f in found && g in found && (f.pageId, f.slot) != (g.pageId, g.slot)
  {
    if |found| > 0 { assert found[0] in found; }
    if |found| > 1 { assert found[0] in found && found[1] in found; }
  }

  /** The sequential scan gives the live rows in the order of their places. */
  lemma ScanIsInOrder(heap: HeapFile, pageSize: int, schema: Schema, n: nat)
    requires GoodPages(heap, pageSize, schema) && forall id :: id in heap <==> 1 <= id <= n
    ensures LiveRowsInOrder(heap, schema, AllFound(heap, schema, n))
  {
    hide AllFound, GoodPages;
    ScanAscendsByPlace(heap, pageSize, schema, n);
    forall f: Found
      ensures f in AllFound(heap, schema, n) <==> RowAt(heap, schema, f.pageId, f.slot) == Some(f.row)
    {
      ScanFindsLiveRows(heap, pageSize, schema, n, f);
      assert RowAt(heap, schema, f.pageId, f.slot).Some? ==> f.pageId in heap;
    }
  }

  /** So does the filtered scan with the rows that have the cell. */
  lemma FilterIsInOrder(heap: HeapFile, pageSize: int, schema: Schema, n: nat, col: nat, cell: Cell)
    requires GoodPages(heap, pageSize, schema) && forall id :: id in heap <==> 1 <= id <= n
    ensures HitsInOrder(heap, schema, col, cell, Filter(AllFound(heap, schema, n), col, cell))
  {
    hide AllFound, GoodPages, Filter, RowAt;
    var all := AllFound(heap, schema, n);
    ScanIsInOrder(heap, pageSize, schema, n);
    FilterAscends(all, col, cell);
    forall f: Found
      ensures f in Filter(all, col, cell) <==>
              RowAt(heap, schema, f.pageId, f.slot) == Some(f.row) && col < |f.row.cells| && f.row.cells[col] == cell
    {
      FilterIsExact(all, col, cell, f);
    }
  }

  lemma HitsAreTheFilter(heap: HeapFile, pageSize: int, schema: Schema, n: nat, col: nat, cell: Cell, hits: seq<Found>)
    requires GoodPages(heap, pageSize, schema) && forall id :: id in heap <==> 1 <= id <= n
    requires HitsInOrder(heap, schema, col, cell, hits)
    ensures hits == Filter(AllFound(heap, schema, n), col, cell)
  {
    hide AllFound, GoodPages, Filter, RowAt;
    FilterIsInOrder(heap, pageSize, schema, n, col, cell);
    OneOrder(hits, Filter(AllFound(heap, schema, n), col, cell));
  }
}
