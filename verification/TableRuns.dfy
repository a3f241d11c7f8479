/** Runs of insertions, deletions and searches: a table against a map from places to rows. */
module TableRuns {
  import opened Bytes
  import opened Entries
  import opened HashJoins
  import opened PageSlots
  import opened Rows
  import opened TableAccesses
  import opened TableIndexes
  import opened TablePages
  import opened TableRows
  import opened TableSearches
  import opened Wrappers
  import Addresses = FsmAddresses
  import Index = BTreeStates
  import Trees = BTreeFacts

  datatype TableOp =
    | InsertRow(row: Row)
    | DeleteRows(colName: string, cell: Cell)
    | FindRows(colName: string, cell: Cell)

  datatype TableAnswer =
    | Inserted(place: Result<(int, nat), AccessError>)
    | Deleted(done: Result<(), AccessError>)
    | Searched(found: Result<seq<Found>, AccessError>)

  /** What stays the same in all states of a table. */
  datatype Design = Design(pageSize: int, schema: Schema, columns: seq<I32>)

  datatype Snapshot = Snapshot(heap: HeapFile, indexes: seq<Index.State>, pages: int)

  // -------- a map of rows --------

  /** The rows by their places. */
  type Stock = imap<(int, nat), Row>

  ghost predicate HasIn(d: Design, row: Row, colName: string, cell: Cell) {
    exists col: nat :: FirstNamed(d.schema, colName, col) && col < |row.cells| && row.cells[col] == cell
  }

  /** The rows after an operation and its answer. */
  ghost function After(d: Design, m: Stock, op: TableOp, answer: TableAnswer): Stock {
    match (op, answer)
    case (InsertRow(row), Inserted(Ok(place))) => m[place := row]
    case (DeleteRows(name, cell), Deleted(Ok(_))) => imap p | p in m && !HasIn(d, m[p], name, cell) :: m[p]
    case _ => m
  }

  /** The rows with a cell, each once, in the order of their places. */
  ghost predicate Lists(d: Design, m: Stock, colName: string, cell: Cell, rows: seq<Row>) {
    exists places: seq<(int, nat)> :: ListsAt(d, m, colName, cell, rows, places)
  }

  ghost predicate ListsAt(d: Design, m: Stock, colName: string, cell: Cell, rows: seq<Row>, places: seq<(int, nat)>) {
    && |places| == |rows|
    && (forall i, j :: 0 <= i < j < |places| ==>
          places[i].0 < places[j].0 || (places[i].0 == places[j].0 && places[i].1 < places[j].1))
    && (forall i :: 0 <= i < |places| ==> places[i] in m && m[places[i]] == rows[i] && HasIn(d, rows[i], colName, cell))
    && forall p :: p in m && HasIn(d, m[p], colName, cell) ==> p in places
  }

  ghost predicate CanSearch(d: Design, colName: string, cell: Cell) {
    exists col: nat :: FirstNamed(d.schema, colName, col) && col < |d.schema|
      && Searchable(d.schema, d.columns, col, cell)
  }

  /** The answers that the rows allow. A row that is one of the schema, with a key for every index, is
      refused only where a page falls short. */
  ghost predicate Allowed(d: Design, m: Stock, op: TableOp, answer: TableAnswer) {
    match (op, answer)
    case (InsertRow(row), Inserted(Ok(place))) =>
      Validates(row, d.schema) && IntColumns(d.schema, d.columns, row) && place !in m
    case (InsertRow(row), Inserted(Err(e))) =>
      e == InsertRowError || (e == UpdateRowsError && !AllColumnsKnown(d.schema, d.columns))
    case (DeleteRows(name, cell), Deleted(r)) =>
      r.Ok? <==> CanSearch(d, name, cell)
                 && forall p :: p in m && HasIn(d, m[p], name, cell) ==> IntColumns(d.schema, d.columns, m[p])
    case (FindRows(name, cell), Searched(r)) =>
      (r.Ok? <==> CanSearch(d, name, cell)) && (r.Ok? ==> Lists(d, m, name, cell, RowsOf(r.value)))
    case _ => false
  }

  ghost function StockRun(d: Design, m: Stock, ops: seq<TableOp>, answers: seq<TableAnswer>): Stock
    requires |ops| == |answers|
  {
    if |ops| == 0 then m
    else
      var n := |ops| - 1;
      After(d, StockRun(d, m, ops[..n], answers[..n]), ops[n], answers[n])
  }

  ghost predicate AllAllowed(d: Design, m: Stock, ops: seq<TableOp>, answers: seq<TableAnswer>)
    requires |ops| == |answers|
  {
    forall i :: 0 <= i < |ops| ==> Allowed(d, StockRun(d, m, ops[..i], answers[..i]), ops[i], answers[i])
  }

  // -------- steps --------

  ghost predicate Sound(d: Design, s: Snapshot) {
    && |s.indexes| == |d.columns| && GoodPages(s.heap, d.pageSize, d.schema)
    && s.pages >= 0 && forall id :: id in s.heap <==> 1 <= id <= s.pages
  }

  /** The pages are in order and every index agrees with them. */
  ghost predicate InOrder(d: Design, s: Snapshot) {
    Sound(d, s) && AllAgree(d.schema, d.columns, s.indexes, s.heap)
  }

  ghost function StockOf(d: Design, s: Snapshot): Stock {
    imap p: (int, nat) | RowAt(s.heap, d.schema, p.0, p.1).Some? :: RowAt(s.heap, d.schema, p.0, p.1).value
  }

  ghost predicate KeysAreGood(d: Design, s: Snapshot, row: Row)
    requires InOrder(d, s)
  {
    AgreeingIsHealthy(d.schema, d.columns, s.indexes, s.heap);
    FreshKeys(d.schema, d.columns, s.indexes, row) && SafeKeys(d.schema, d.columns, s.indexes, row)
  }

  /** What inserting a row does. */
  ghost predicate InsertStep(d: Design, s: Snapshot, row: Row, r: Result<(int, nat), AccessError>, t: Snapshot)
    requires InOrder(d, s)
  {
    AgreeingIsHealthy(d.schema, d.columns, s.indexes, s.heap);
    match r
    case Ok(place) =>
      && Validates(row, d.schema) && IntColumns(d.schema, d.columns, row) && Sound(d, t)
      && RowAt(t.heap, d.schema, place.0, place.1) == Some(row) && RowAt(s.heap, d.schema, place.0, place.1) == None
      && SameRowsBut(s.heap, t.heap, d.schema, place.0, place.1)
      && KeysTaken(d.schema, d.columns, s.indexes, t.indexes, row, place, |d.columns|)
      && Placed(s.heap, t.heap, d.pageSize, place.0, place.1, |RowBytes(row.cells)|)
      && (AllAgree(d.schema, d.columns, t.indexes, t.heap) <==> KeysAreGood(d, s, row))
    case Err(e) =>
      if e == Panic then
        s.pages + 1 >= Addresses.I32_MAX || exists id :: RestHasNoRoom(s.heap, d.pageSize, id, |RowBytes(row.cells)|)
      else
        (e == InsertRowError || e == UpdateRowsError) && RefusedStep(d, s, row, e, t) && Explained(d, s, row, e)
  }

  /** A row of the schema with a key for every index is refused as a row only by a page that falls short. */
  ghost predicate Explained(d: Design, s: Snapshot, row: Row, e: AccessError) {
    e == InsertRowError && Validates(row, d.schema) && IntColumns(d.schema, d.columns, row) ==>
      exists id :: FallsShort(s.heap, d.pageSize, id, |RowBytes(row.cells)|)
  }

  /** A refused row is nowhere; where an index refused its key, the indexes before it may be ahead. */
  ghost predicate RefusedStep(d: Design, s: Snapshot, row: Row, e: AccessError, t: Snapshot)
    requires InOrder(d, s)
  {
    AgreeingIsHealthy(d.schema, d.columns, s.indexes, s.heap);
    && Sound(d, t) && SameRows(s.heap, t.heap, d.schema) && (exists id :: PageAdded(s.heap, t.heap, id))
    && (if e == UpdateRowsError && AllColumnsKnown(d.schema, d.columns) then
          exists p: nat :: FirstKeyRefused(d.schema, d.columns, s.indexes, row, p)
                           && (AllAgree(d.schema, d.columns, t.indexes, t.heap)
                               <==> KeysWereThere(d.schema, d.columns, s.indexes, row, p))
        else t.indexes == s.indexes && AllAgree(d.schema, d.columns, t.indexes, t.heap))
  }

  /** What deleting the rows with a cell does. */
  ghost predicate DeleteStep(d: Design, s: Snapshot, colName: string, cell: Cell, r: Result<(), AccessError>,
                             t: Snapshot) {
    && Sound(d, t) && (!Named(d.schema, colName) ==> r.Err?)
    && (forall col: nat :: FirstNamed(d.schema, colName, col) && col < |d.schema| ==>
          (r.Ok? <==> Deletable(d.schema, d.columns, s.heap, col, cell)))
    && (r.Err? ==> t.heap == s.heap && AllAgree(d.schema, d.columns, t.indexes, t.heap))
    && (r.Ok? ==>
          forall col: nat :: FirstNamed(d.schema, colName, col) ==>
            var reported := HitsAreReported(d.schema, d.columns, s.heap, col, cell);
            && (AllAgree(d.schema, d.columns, t.indexes, t.heap) <==> reported)
            && (OnlyWithout(s.heap, t.heap, d.schema, col, cell) <==> reported))
  }

  /** What a search does. */
  ghost predicate FindStep(d: Design, s: Snapshot, colName: string, cell: Cell, r: Result<seq<Found>, AccessError>,
                           t: Snapshot)
  {
    && InOrder(d, t) && t.heap == s.heap && t.pages == s.pages && RootsGiven(s.indexes, t.indexes)
    && (!Named(d.schema, colName) ==> r.Err?)
    && forall col: nat :: FirstNamed(d.schema, colName, col) && col < |d.schema| ==>
         FoundInColumn(d.schema, d.columns, s.heap, col, cell, r)
  }

  /** What an operation does on a table that is in order. */
  ghost predicate Step(d: Design, s: Snapshot, op: TableOp, answer: TableAnswer, t: Snapshot) {
    InOrder(d, s) ==>
      match (op, answer)
      case (InsertRow(row), Inserted(r)) => InsertStep(d, s, row, r, t)
      case (DeleteRows(name, cell), Deleted(r)) => DeleteStep(d, s, name, cell, r, t)
      case (FindRows(name, cell), Searched(r)) => FindStep(d, s, name, cell, r, t)
      case _ => false
  }

  /** What is to be asked of a step: fresh and safe keys and no panic, and deletions of rows that lie where
      the search reports them. */
  ghost predicate Guarded(d: Design, s: Snapshot, op: TableOp, answer: TableAnswer) {
    InOrder(d, s) ==>
      match op
      case InsertRow(row) => answer != Inserted(Err(Panic)) && KeysAreGood(d, s, row)
      case DeleteRows(name, cell) =>
        forall col: nat :: FirstNamed(d.schema, name, col) ==> HitsAreReported(d.schema, d.columns, s.heap, col, cell)
      case FindRows(_, _) => true
  }

  // -------- every step as a step on the map --------

  lemma StockGains(d: Design, s: Snapshot, t: Snapshot, place: (int, nat), row: Row)
    requires RowAt(t.heap, d.schema, place.0, place.1) == Some(row) && RowAt(s.heap, d.schema, place.0, place.1) == None
    requires SameRowsBut(s.heap, t.heap, d.schema, place.0, place.1)
    ensures place !in StockOf(d, s) && StockOf(d, t) == StockOf(d, s)[place := row]
  {
    hide RowAt;
    forall p: (int, nat) | p != place ensures RowAt(t.heap, d.schema, p.0, p.1) == RowAt(s.heap, d.schema, p.0, p.1) {
      assert (p.0, p.1) != (place.0, place.1);
    }
  }

  lemma StockStays(d: Design, s: Snapshot, t: Snapshot)
    requires SameRows(s.heap, t.heap, d.schema)
    ensures StockOf(d, t) == StockOf(d, s)
  {
    hide RowAt;
    forall p: (int, nat) ensures RowAt(t.heap, d.schema, p.0, p.1) == RowAt(s.heap, d.schema, p.0, p.1) {}
  }

  lemma InsertionAnswers(d: Design, s: Snapshot, row: Row, r: Result<(int, nat), AccessError>, t: Snapshot)
    requires InOrder(d, s) && InsertStep(d, s, row, r, t) && r != Err(Panic) && KeysAreGood(d, s, row)
    ensures InOrder(d, t) && Allowed(d, StockOf(d, s), InsertRow(row), Inserted(r))
    ensures StockOf(d, t) == After(d, StockOf(d, s), InsertRow(row), Inserted(r))
  {
    AgreeingIsHealthy(d.schema, d.columns, s.indexes, s.heap);
    hide RowAt, GoodPages, AllAgree, Placed, KeysTaken, PageAdded, Validates, IntColumns, KeysWereThere, KeysAreGood,
      SameRows, SameRowsBut, StockOf, FirstKeyRefused, AllColumnsKnown;
    match r {
      case Ok(place) =>
        StockGains(d, s, t, place, row);
      case Err(e) =>
        assert RefusedStep(d, s, row, e, t);
        StockStays(d, s, t);
        if e == UpdateRowsError && AllColumnsKnown(d.schema, d.columns) {
          var p: nat :| FirstKeyRefused(d.schema, d.columns, s.indexes, row, p);
          RefusedIsNotFresh(d, s, row, p);
        }
    }
  }

  lemma RefusedIsNotFresh(d: Design, s: Snapshot, row: Row, p: nat)
    requires InOrder(d, s) && Healthy(s.indexes) && FirstKeyRefused(d.schema, d.columns, s.indexes, row, p)
    ensures !KeysAreGood(d, s, row)
  {
    hide Index.Abs, Index.Refuses, Index.SafeInsert, KeyOf;
    Index.RefusedExactlyWhen(BTREE_MAX_DEGREE, s.indexes[p], KeyOf(d.schema, d.columns[p], row).value, (0, 0));
  }

  lemma {:induction false} LeastNamed(schema: Schema, name: string, i: nat)
    requires i < |schema| && schema[i].name == Trim(name)
    ensures exists col: nat :: FirstNamed(schema, name, col)
    decreases i
  {
    hide Trim;
    if h: nat :| h < i && schema[h].name == Trim(name) {
      LeastNamed(schema, name, h);
    } else {
      assert FirstNamed(schema, name, i);
    }
  }

  lemma FirstColumn(schema: Schema, name: string) returns (col: nat)
    requires Named(schema, name)
    ensures col < |schema| && FirstNamed(schema, name, col)
  {
    var i: nat :| i < |schema| && schema[i].name == Trim(name);
    LeastNamed(schema, name, i);
    col :| FirstNamed(schema, name, col);
  }

  /** The map's view of a named column is that of the first column of this name. */
  lemma CellsByName(d: Design, s: Snapshot, name: string, col: nat, cell: Cell)
    requires FirstNamed(d.schema, name, col)
    ensures forall row: Row :: HasIn(d, row, name, cell) <==> col < |row.cells| && row.cells[col] == cell
    ensures CanSearch(d, name, cell) <==> Searchable(d.schema, d.columns, col, cell)
    ensures forall p :: p in StockOf(d, s) && HasIn(d, StockOf(d, s)[p], name, cell)
                        <==> HasCell(s.heap, d.schema, col, p.0, p.1, cell)
  {
    hide RowAt, Searchable, Trim;
    forall other: nat | FirstNamed(d.schema, name, other) ensures other == col {
      FirstNamedIsUnique(d.schema, name, other, col);
    }
  }

  lemma NothingByName(d: Design, name: string, cell: Cell)
    requires !Named(d.schema, name)
    ensures !CanSearch(d, name, cell) && forall col: nat :: !FirstNamed(d.schema, name, col)
  {
    hide Trim, Searchable;
    forall col: nat ensures !FirstNamed(d.schema, name, col) {}
  }

  lemma DeletableOnMap(d: Design, s: Snapshot, name: string, col: nat, cell: Cell)
    requires FirstNamed(d.schema, name, col)
    ensures Deletable(d.schema, d.columns, s.heap, col, cell)
            <==> CanSearch(d, name, cell)
                 && forall p :: p in StockOf(d, s) && HasIn(d, StockOf(d, s)[p], name, cell) ==>
                      IntColumns(d.schema, d.columns, StockOf(d, s)[p])
  {
    CellsByName(d, s, name, col, cell);
    var m := StockOf(d, s);
    hide RowAt, Searchable, Trim, IntColumns, HasIn, HasCell, FirstNamed, CanSearch;
    forall id, slot: nat ensures HasCell(s.heap, d.schema, col, id, slot, cell)
                                 <==> (id, slot) in m && HasIn(d, m[(id, slot)], name, cell) {}
    if forall p :: p in m && HasIn(d, m[p], name, cell) ==> IntColumns(d.schema, d.columns, m[p]) {
      forall id, slot: nat | HasCell(s.heap, d.schema, col, id, slot, cell)
        ensures IntColumns(d.schema, d.columns, RowAt(s.heap, d.schema, id, slot).value)
      {
        assert m[(id, slot)] == RowAt(s.heap, d.schema, id, slot).value;
      }
    }
  }

  lemma StockLoses(d: Design, s: Snapshot, t: Snapshot, name: string, col: nat, cell: Cell)
    requires FirstNamed(d.schema, name, col) && OnlyWithout(s.heap, t.heap, d.schema, col, cell)
    ensures StockOf(d, t) == After(d, StockOf(d, s), DeleteRows(name, cell), Deleted(Ok(())))
  {
    CellsByName(d, s, name, col, cell);
    hide RowAt, HasIn, HasCell, FirstNamed;
    forall p: (int, nat) ensures RowAt(t.heap, d.schema, p.0, p.1)
      == if HasCell(s.heap, d.schema, col, p.0, p.1, cell) then None else RowAt(s.heap, d.schema, p.0, p.1) {}
  }

  lemma DeletionAnswers(d: Design, s: Snapshot, name: string, cell: Cell, r: Result<(), AccessError>, t: Snapshot)
    requires InOrder(d, s) && DeleteStep(d, s, name, cell, r, t)
    requires forall col: nat :: FirstNamed(d.schema, name, col) ==>
               HitsAreReported(d.schema, d.columns, s.heap, col, cell)
    ensures InOrder(d, t) && Allowed(d, StockOf(d, s), DeleteRows(name, cell), Deleted(r))
    ensures StockOf(d, t) == After(d, StockOf(d, s), DeleteRows(name, cell), Deleted(r))
  {
    hide RowAt, GoodPages, AllAgree, HasIn, HasCell, HitsAreReported, OnlyWithout, Deletable, CanSearch, StockOf,
      FirstNamed, Named, IntColumns;
    if Named(d.schema, name) {
      var col := FirstColumn(d.schema, name);
      DeletableOnMap(d, s, name, col, cell);
      if r.Ok? { StockLoses(d, s, t, name, col, cell); }
    } else {
      NothingByName(d, name, cell);
    }
    if r.Err? { SameStock(d, s, t); }
  }

  lemma SameStock(d: Design, s: Snapshot, t: Snapshot)
    requires t.heap == s.heap
    ensures StockOf(d, t) == StockOf(d, s)
  {
  }

  lemma InStock(d: Design, s: Snapshot, name: string, col: nat, cell: Cell, p: (int, nat), row: Row)
    requires FirstNamed(d.schema, name, col)
    ensures RowAt(s.heap, d.schema, p.0, p.1) == Some(row) && col < |row.cells| && row.cells[col] == cell
            <==> p in StockOf(d, s) && StockOf(d, s)[p] == row && HasIn(d, row, name, cell)
  {
    CellsByName(d, s, name, col, cell);
    hide RowAt;
  }

  /** The hits of a search are the rows with the cell, each once, in order. */
  lemma HitsAreListed(d: Design, s: Snapshot, name: string, col: nat, cell: Cell, hits: seq<Found>)
    requires FirstNamed(d.schema, name, col) && HitsInOrder(s.heap, d.schema, col, cell, hits)
    ensures Lists(d, StockOf(d, s), name, cell, RowsOf(hits))
  {
    hide HasIn, FirstNamed, RowAt, StockOf, Ascends;
    var m := StockOf(d, s);
    var places := seq(|hits|, i requires 0 <= i < |hits| => (hits[i].pageId, hits[i].slot));
    forall i | 0 <= i < |hits|
      ensures places[i] in m && m[places[i]] == hits[i].row && HasIn(d, hits[i].row, name, cell)
    {
      assert hits[i] in hits;
      InStock(d, s, name, col, cell, places[i], hits[i].row);
    }
    forall p | p in m && HasIn(d, m[p], name, cell) ensures p in places {
      var f := Found(p.0, p.1, m[p]);
      InStock(d, s, name, col, cell, p, m[p]);
      assert f in hits;
      var i :| 0 <= i < |hits| && hits[i] == f;
      assert places[i] == p;
    }
    forall i, j | 0 <= i < j < |hits|
      ensures places[i].0 < places[j].0 || (places[i].0 == places[j].0 && places[i].1 < places[j].1)
    {
      PlacesAscend(hits, i, j);
    }
    assert ListsAt(d, m, name, cell, RowsOf(hits), places);
  }

  lemma PlacesAscend(hits: seq<Found>, i: nat, j: nat)
    requires Ascends(hits) && i < j < |hits|
    ensures hits[i].pageId < hits[j].pageId || (hits[i].pageId == hits[j].pageId && hits[i].slot < hits[j].slot)
  {
    assert PlaceBefore(hits[i], hits[j]);
  }

  lemma SearchAnswers(d: Design, s: Snapshot, name: string, cell: Cell, r: Result<seq<Found>, AccessError>, t: Snapshot)
    requires InOrder(d, s) && FindStep(d, s, name, cell, r, t)
    ensures InOrder(d, t) && Allowed(d, StockOf(d, s), FindRows(name, cell), Searched(r))
    ensures StockOf(d, t) == After(d, StockOf(d, s), FindRows(name, cell), Searched(r))
  {
    hide RowAt, GoodPages, AllAgree, HasIn, HasCell, CanSearch, StockOf, FirstNamed, Named, Searchable, Lists,
      HitsInOrder, IsIndexed;
    SameStock(d, s, t);
    if Named(d.schema, name) {
      var col := FirstColumn(d.schema, name);
      CellsByName(d, s, name, col, cell);
      if r.Ok? {
        var hits :| HitsInOrder(s.heap, d.schema, col, cell, hits) && Reported(d.schema, d.columns, col, hits, r.value);
        HitsAreListed(d, s, name, col, cell, hits);
        assert RowsOf(hits) == RowsOf(r.value);
      }
    } else {
      NothingByName(d, name, cell);
    }
  }

  /** A guarded step of a table is a step of the map, and leaves the table in order. */
  lemma StepAnswers(d: Design, s: Snapshot, op: TableOp, answer: TableAnswer, t: Snapshot)
    requires InOrder(d, s) && Step(d, s, op, answer, t) && Guarded(d, s, op, answer)
    ensures InOrder(d, t) && Allowed(d, StockOf(d, s), op, answer)
    ensures StockOf(d, t) == After(d, StockOf(d, s), op, answer)
    ensures op.InsertRow? && answer.Inserted? && answer.place.Err? ==> Explained(d, s, op.row, answer.place.error)
  {
    hide InOrder, StockOf, Allowed, After, DeleteStep, FindStep, KeysAreGood, HitsAreReported, Sound, SameRowsBut,
      KeysTaken, Placed, RefusedStep, Explained;
    match (op, answer) {
      case (InsertRow(row), Inserted(r)) => InsertionAnswers(d, s, row, r, t);
      case (DeleteRows(name, cell), Deleted(r)) => DeletionAnswers(d, s, name, cell, r, t);
      case (FindRows(name, cell), Searched(r)) => SearchAnswers(d, s, name, cell, r, t);
      case _ =>
    }
  }

  // -------- runs --------

  /** The states a table goes through. */
  ghost predicate IsRun(d: Design, states: seq<Snapshot>, ops: seq<TableOp>, answers: seq<TableAnswer>) {
    && |states| == |ops| + 1 == |answers| + 1
    && forall i :: 0 <= i < |ops| ==> Step(d, states[i], ops[i], answers[i], states[i + 1])
  }

  ghost predicate GuardedRun(d: Design, states: seq<Snapshot>, ops: seq<TableOp>, answers: seq<TableAnswer>)
    requires |states| == |ops| + 1 == |answers| + 1
  {
    forall i :: 0 <= i < |ops| ==> Guarded(d, states[i], ops[i], answers[i])
  }

  /** Over every guarded run a table answers as the map of its rows does, and stays in order. */
  lemma {:induction false} RunsAsRows(d: Design, states: seq<Snapshot>, ops: seq<TableOp>, answers: seq<TableAnswer>)
    requires IsRun(d, states, ops, answers) && InOrder(d, states[0]) && GuardedRun(d, states, ops, answers)
    ensures forall i :: 0 <= i < |states| ==> InOrder(d, states[i])
    ensures AllAllowed(d, StockOf(d, states[0]), ops, answers)
    ensures StockOf(d, states[|ops|]) == StockRun(d, StockOf(d, states[0]), ops, answers)
    ensures forall i :: 0 <= i < |ops| && ops[i].InsertRow? && answers[i].Inserted? && answers[i].place.Err? ==>
              Explained(d, states[i], ops[i].row, answers[i].place.error)
    decreases |ops|
  {
    hide InOrder, StockOf, Allowed, After, Step, Guarded, Explained;
    if |ops| > 0 {
      var n := |ops| - 1;
      RunsAsRows(d, states[..|ops|], ops[..n], answers[..n]);
      StepAnswers(d, states[n], ops[n], answers[n], states[n + 1]);
      OneMoreAllowed(d, StockOf(d, states[0]), ops, answers);
    }
  }

  lemma OneMoreAllowed(d: Design, m: Stock, ops: seq<TableOp>, answers: seq<TableAnswer>)
    requires |ops| == |answers| > 0 && AllAllowed(d, m, ops[..|ops| - 1], answers[..|ops| - 1])
    requires Allowed(d, StockRun(d, m, ops[..|ops| - 1], answers[..|ops| - 1]), ops[|ops| - 1], answers[|ops| - 1])
    ensures AllAllowed(d, m, ops, answers)
  {
    hide Allowed, After;
    var n := |ops| - 1;
    forall i | 0 <= i < |ops| ensures Allowed(d, StockRun(d, m, ops[..i], answers[..i]), ops[i], answers[i]) {
      if i < n { assert ops[..n][..i] == ops[..i] && answers[..n][..i] == answers[..i]; }
    }
  }

  // -------- runs that need no guard --------

  predicate NoInserts(ops: seq<TableOp>) { forall i :: 0 <= i < |ops| ==> !ops[i].InsertRow? }

  /** Rows are deleted by what a scan finds. */
  ghost predicate ByScan(d: Design, ops: seq<TableOp>) {
    forall i :: 0 <= i < |ops| && ops[i].DeleteRows? ==>
      forall col: nat :: FirstNamed(d.schema, ops[i].colName, col) ==> !IsIndexed(d.schema, d.columns, col)
  }

  ghost predicate FreshRow(d: Design, used: seq<set<int>>, row: Row)
    requires |used| == |d.columns|
  {
    forall p :: 0 <= p < |used| && KeyOf(d.schema, d.columns[p], row).Some? ==>
      KeyOf(d.schema, d.columns[p], row).value !in used[p]
  }

  ghost function Used(d: Design, used: seq<set<int>>, row: Row): seq<set<int>>
    requires |used| == |d.columns|
  {
    seq(|used|, p requires 0 <= p < |used| =>
                  var key := KeyOf(d.schema, d.columns[p], row);
                  used[p] + if key.Some? then {key.value as int} else {})
  }

  /** Insertions of rows with keys never used before and searches first, then anything but insertions. */
  ghost predicate FreshRows(d: Design, used: seq<set<int>>, ops: seq<TableOp>)
    requires |used| == |d.columns|
    decreases |ops|
  {
    NoInserts(ops) ||
    match ops[0]
    case InsertRow(row) => FreshRow(d, used, row) && FreshRows(d, Used(d, used, row), ops[1..])
    case DeleteRows(_, _) => false
    case FindRows(_, _) => FreshRows(d, used, ops[1..])
  }

  ghost predicate AllLive(heap: HeapFile) {
    forall id, j :: 0 <= j < |SlotsOn(heap, id)| ==> !SlotsOn(heap, id)[j].deleted
  }

  /** While nothing has been deleted. */
  ghost predicate Loading(d: Design, s: Snapshot, used: seq<set<int>>) {
    && |used| == |s.indexes| == |d.columns| && AllLive(s.heap)
    && forall p :: 0 <= p < |used| ==> Trees.Over(s.indexes[p], used[p])
  }

  lemma FreshRowIsGood(d: Design, s: Snapshot, used: seq<set<int>>, row: Row)
    requires InOrder(d, s) && Loading(d, s, used) && FreshRow(d, used, row)
    ensures KeysAreGood(d, s, row)
  {
    AgreeingIsHealthy(d.schema, d.columns, s.indexes, s.heap);
    hide KeyOf, Index.SafeInsert, AllAgree, GoodPages, AllLive, Index.InsertInto;
    forall p | 0 <= p < |d.columns| && KeyOf(d.schema, d.columns[p], row).Some?
      ensures KeyOf(d.schema, d.columns[p], row).value !in Index.Abs(s.indexes[p])
      ensures Index.SafeInsert(BTREE_MAX_DEGREE, s.indexes[p], KeyOf(d.schema, d.columns[p], row).value)
    {
      Trees.FreshStep(BTREE_MAX_DEGREE, s.indexes[p], KeyOf(d.schema, d.columns[p], row).value, (0, 0), used[p]);
    }
  }

  lemma NothingToCut(heap: HeapFile, pageSize: int, id: int, length: nat)
    requires AllLive(heap)
    ensures !RestHasNoRoom(heap, pageSize, id, length)
  {
  }

  lemma TakenStaysOver(d: Design, s: Snapshot, used: seq<set<int>>, row: Row, t: Snapshot, at: Val)
    requires InOrder(d, s) && Loading(d, s, used) && FreshRow(d, used, row) && Healthy(s.indexes)
    requires KeysTaken(d.schema, d.columns, s.indexes, t.indexes, row, at, |d.columns|)
    ensures forall p :: 0 <= p < |used| ==> Trees.Over(t.indexes[p], Used(d, used, row)[p])
  {
    hide KeyOf, Index.SafeInsert, AllAgree, GoodPages, AllLive, Index.InsertInto;
    forall p | 0 <= p < |used| ensures Trees.Over(t.indexes[p], Used(d, used, row)[p]) {
      var key := KeyOf(d.schema, d.columns[p], row);
      if key.Some? {
        Trees.FreshStep(BTREE_MAX_DEGREE, s.indexes[p], key.value, at, used[p]);
      } else {
        assert Used(d, used, row)[p] == used[p];
      }
    }
  }

  lemma PlacedStaysLive(was: HeapFile, now: HeapFile, pageSize: int, id: int, slot: nat, length: nat)
    requires AllLive(was) && Placed(was, now, pageSize, id, slot, length)
    ensures AllLive(now)
  {
    assert forall other :: other != id ==> SlotsOn(now, other) == SlotsOn(was, other);
  }

  lemma AddedStaysLive(was: HeapFile, now: HeapFile, id: int)
    requires AllLive(was) && PageAdded(was, now, id)
    ensures AllLive(now)
  {
    assert forall other :: other != id ==> SlotsOn(now, other) == SlotsOn(was, other);
  }

  lemma OnePageMore(was: HeapFile, now: HeapFile, a: int, b: int, id: int)
    requires (forall i :: i in was <==> 1 <= i <= a) && (forall i :: i in now <==> 1 <= i <= b) && a >= 0
    requires forall i :: i in now ==> i in was || i == id
    ensures b <= a + 1
  {
    assert b > a + 1 ==> a + 1 in now && a + 2 in now;
  }

  lemma UsedGrows(d: Design, used: seq<set<int>>, row: Row)
    requires |used| == |d.columns|
    ensures |Used(d, used, row)| == |used| && forall p :: 0 <= p < |used| ==> used[p] <= Used(d, used, row)[p]
  {
  }

  /** A fresh row is inserted, or refused without a trace, and loading goes on. */
  lemma LoadGoesOn(d: Design, s: Snapshot, used: seq<set<int>>, row: Row, r: Result<(int, nat), AccessError>,
                   t: Snapshot)
    requires InOrder(d, s) && Loading(d, s, used) && FreshRow(d, used, row) && InsertStep(d, s, row, r, t)
    requires s.pages + 1 < Addresses.I32_MAX
    ensures r != Err(Panic) && KeysAreGood(d, s, row)
    ensures Loading(d, t, Used(d, used, row)) && t.pages <= s.pages + 1
  {
    hide RowAt, GoodPages, AllAgree, KeysAreGood, AllLive, RestHasNoRoom, SameRows, SameRowsBut, FirstKeyRefused,
      KeysWereThere, AllColumnsKnown, FreshRow, Validates, IntColumns, KeysTaken, Used, KeyOf, SlotsOn, PutAt, Healthy;
    FreshRowIsGood(d, s, used, row);
    AgreeingIsHealthy(d.schema, d.columns, s.indexes, s.heap);
    UsedGrows(d, used, row);
    forall id ensures !RestHasNoRoom(s.heap, d.pageSize, id, |RowBytes(row.cells)|) {
      NothingToCut(s.heap, d.pageSize, id, |RowBytes(row.cells)|);
    }
    match r {
      case Ok(place) =>
        TakenStaysOver(d, s, used, row, t, place);
        PlacedStaysLive(s.heap, t.heap, d.pageSize, place.0, place.1, |RowBytes(row.cells)|);
        OnePageMore(s.heap, t.heap, s.pages, t.pages, place.0);
      case Err(e) =>
        assert RefusedStep(d, s, row, e, t);
        if e == UpdateRowsError && AllColumnsKnown(d.schema, d.columns) {
          var p: nat :| FirstKeyRefused(d.schema, d.columns, s.indexes, row, p);
          RefusedIsNotFresh(d, s, row, p);
        }
        var id :| PageAdded(s.heap, t.heap, id);
        AddedStaysLive(s.heap, t.heap, id);
        OnePageMore(s.heap, t.heap, s.pages, t.pages, id);
        forall p | 0 <= p < |used| ensures Trees.Over(t.indexes[p], Used(d, used, row)[p]) {
          Trees.OverMore(s.indexes[p], used[p], Used(d, used, row)[p]);
        }
    }
  }

  lemma SearchStaysLoading(d: Design, s: Snapshot, used: seq<set<int>>, name: string, cell: Cell,
                           r: Result<seq<Found>, AccessError>, t: Snapshot)
    requires InOrder(d, s) && Loading(d, s, used) && FindStep(d, s, name, cell, r, t)
    ensures Loading(d, t, used) && t.pages == s.pages
  {
    AgreeingIsHealthy(d.schema, d.columns, s.indexes, s.heap);
    hide AllAgree, GoodPages, AllLive, Trees.Over, Index.Open;
    forall p | 0 <= p < |used| ensures Trees.Over(t.indexes[p], used[p]) {
      Trees.FindStaysOver(BTREE_MAX_DEGREE, s.indexes[p], used[p]);
    }
  }

  // -------- the table itself --------

  function DesignOf(t: TableAccess): Design { Design(t.pageSize, t.schema, t.columns) }

  ghost function SnapshotOf(t: TableAccess): Snapshot
    reads t, t.fsm
  {
    Snapshot(t.heap, t.indexes, t.fsm.nextHeapId - 1)
  }

  lemma StoredIsSound(t: TableAccess)
    ensures t.Stored() ==> Sound(DesignOf(t), SnapshotOf(t))
    ensures t.Valid() <==> t.Stored() && InOrder(DesignOf(t), SnapshotOf(t))
  {
    if t.Stored() { t.HeapIdsRunUp(); }
  }

  lemma RowErrorKinds(t: TableAccess, row: Row)
    requires t.Valid()
    ensures t.RowError(row) == None ==> Validates(row, t.schema) && IntColumns(t.schema, t.columns, row)
    ensures t.RowError(row).Some? ==> t.RowError(row).value in {InsertRowError, UpdateRowsError, Panic}
    ensures t.RowError(row) == Some(InsertRowError) ==> Explained(DesignOf(t), SnapshotOf(t), row, InsertRowError)
    ensures t.RowError(row) == Some(Panic) ==>
              || SnapshotOf(t).pages + 1 >= Addresses.I32_MAX
              || exists id :: RestHasNoRoom(t.heap, t.pageSize, id, |RowBytes(row.cells)|)
  {
    hide *;
    t.RowErrors(row);
    t.ValidParts();
    SnapshotParts(t);
    var n := |RowBytes(row.cells)|;
    t.fsm.ChoiceMeans(n);
    if Validates(row, t.schema) && AllColumnsKnown(t.schema, t.columns) && IntColumns(t.schema, t.columns, row) {
      t.RowErrorMeans(row);
      t.StorageErrorMeans(n, SomeKeyRefused(t.schema, t.columns, t.indexes, row));
    }
    Explanation(DesignOf(t), SnapshotOf(t), row, t.fsm.ChosenPage(n));
  }

  lemma Explanation(d: Design, s: Snapshot, row: Row, id: int)
    ensures Explained(d, s, row, UpdateRowsError)
    ensures FallsShort(s.heap, d.pageSize, id, |RowBytes(row.cells)|) ==> Explained(d, s, row, InsertRowError)
    ensures !Validates(row, d.schema) || !IntColumns(d.schema, d.columns, row) ==> Explained(d, s, row, InsertRowError)
  {
    hide FallsShort, Validates;
  }

  lemma StoredRowIsStep(t: TableAccess, d: Design, s: Snapshot, row: Row, place: (int, nat))
    requires d == DesignOf(t) && InOrder(d, s) && t.Stored() && Healthy(s.indexes) && |d.columns| == |s.indexes|
    requires Validates(row, d.schema) && IntColumns(d.schema, d.columns, row)
    requires RowAt(t.heap, d.schema, place.0, place.1) == Some(row) && RowAt(s.heap, d.schema, place.0, place.1) == None
    requires SameRowsBut(s.heap, t.heap, d.schema, place.0, place.1)
    requires KeysTaken(d.schema, d.columns, s.indexes, t.indexes, row, place, |d.columns|)
    requires Placed(s.heap, t.heap, d.pageSize, place.0, place.1, |RowBytes(row.cells)|)
    requires t.Valid()
             <==> FreshKeys(d.schema, d.columns, s.indexes, row) && SafeKeys(d.schema, d.columns, s.indexes, row)
    ensures InsertStep(d, s, row, Ok(place), SnapshotOf(t))
  {
    StoredIsSound(t);
    hide Sound, AllAgree, RowAt, Placed, KeysTaken, SameRowsBut, FreshKeys, SafeKeys, IntColumns, Validates;
    t.ValidWhenAgreeing();
  }

  lemma RefusedRowIsStep(t: TableAccess, d: Design, s: Snapshot, row: Row, e: AccessError, id: int)
    requires d == DesignOf(t) && InOrder(d, s) && t.Stored() && Healthy(s.indexes) && |d.columns| == |s.indexes|
    requires (e == InsertRowError || e == UpdateRowsError) && Explained(d, s, row, e)
    requires SameRows(s.heap, t.heap, d.schema) && PageAdded(s.heap, t.heap, id)
    requires e == InsertRowError || !AllColumnsKnown(d.schema, d.columns) ==> t.Valid() && t.indexes == s.indexes
    requires e == UpdateRowsError && AllColumnsKnown(d.schema, d.columns) ==>
               exists p: nat :: FirstKeyRefused(d.schema, d.columns, s.indexes, row, p)
                                && (t.Valid() <==> KeysWereThere(d.schema, d.columns, s.indexes, row, p))
    ensures InsertStep(d, s, row, Err(e), SnapshotOf(t))
  {
    StoredIsSound(t);
    hide Sound, AllAgree, SameRows, PageAdded, AllColumnsKnown, FirstKeyRefused, KeysWereThere;
    t.ValidWhenAgreeing();
  }

  lemma PanicIsStep(d: Design, s: Snapshot, row: Row, t: Snapshot)
    requires InOrder(d, s)
    requires s.pages + 1 >= Addresses.I32_MAX
             || exists id :: RestHasNoRoom(s.heap, d.pageSize, id, |RowBytes(row.cells)|)
    ensures InsertStep(d, s, row, Err(Panic), t)
  {
    hide RestHasNoRoom, AllAgree;
  }

  method ApplyInsert(t: TableAccess, row: Row) returns (r: Result<(int, nat), AccessError>)
    requires t.Valid()
    modifies t, t.fsm
    ensures InOrder(DesignOf(t), old(SnapshotOf(t)))
    ensures InsertStep(DesignOf(t), old(SnapshotOf(t)), row, r, SnapshotOf(t))
    ensures r != Err(Panic) ==> t.Stored()
  {
    hide *;
    StoredIsSound(t);
    t.RowErrors(row);
    RowErrorKinds(t, row);
    ghost var d, s, id := DesignOf(t), SnapshotOf(t), t.fsm.ChosenPage(|RowBytes(row.cells)|);
    SnapshotParts(t);
    r := t.Insert(row);
    match r {
      case Ok(place) => StoredRowIsStep(t, d, s, row, place);
      case Err(e) =>
        if e == Panic {
          PanicIsStep(d, s, row, SnapshotOf(t));
        } else {
          t.ValidWhenAgreeing();
          Explanation(d, s, row, id);
          RefusedRowIsStep(t, d, s, row, e, id);
        }
    }
  }

  lemma SnapshotParts(t: TableAccess)
    ensures SnapshotOf(t).heap == t.heap && SnapshotOf(t).indexes == t.indexes
            && SnapshotOf(t).pages == t.fsm.nextHeapId - 1
    ensures DesignOf(t) == Design(t.pageSize, t.schema, t.columns)
  {
  }

  method ApplyDelete(t: TableAccess, colName: string, cell: Cell) returns (r: Result<(), AccessError>)
    requires t.Valid()
    modifies t, t.fsm
    ensures DeleteStep(DesignOf(t), old(SnapshotOf(t)), colName, cell, r, SnapshotOf(t)) && t.Stored()
  {
    hide *;
    SnapshotParts(t);
    ghost var s := SnapshotOf(t);
    r := t.DeleteWhere(colName, cell);
    SnapshotParts(t);
    StoredIsSound(t);
    t.ValidWhenAgreeing();
    DeletionIsStep(DesignOf(t), s, colName, cell, r, SnapshotOf(t));
  }

  lemma DeletionIsStep(d: Design, s: Snapshot, colName: string, cell: Cell, r: Result<(), AccessError>, t: Snapshot)
    requires Sound(d, t) && (!Named(d.schema, colName) ==> r.Err?)
    requires forall col: nat :: FirstNamed(d.schema, colName, col) ==>
               (r.Ok? <==> Deletable(d.schema, d.columns, s.heap, col, cell))
    requires r.Ok? ==>
               forall col: nat :: FirstNamed(d.schema, colName, col) ==>
                 && (AllAgree(d.schema, d.columns, t.indexes, t.heap)
                     <==> HitsAreReported(d.schema, d.columns, s.heap, col, cell))
                 && (OnlyWithout(s.heap, t.heap, d.schema, col, cell)
                     <==> HitsAreReported(d.schema, d.columns, s.heap, col, cell))
    requires r.Err? ==> AllAgree(d.schema, d.columns, t.indexes, t.heap) && t.heap == s.heap
    ensures DeleteStep(d, s, colName, cell, r, t)
  {
    hide Sound, AllAgree, HitsAreReported, OnlyWithout, Deletable;
  }

  method ApplyFind(t: TableAccess, colName: string, cell: Cell) returns (r: Result<seq<Found>, AccessError>)
    requires t.Valid()
    modifies t, t.fsm
    ensures old(SnapshotOf(t)).pages >= 0 && t.Stored()
    ensures FindStep(DesignOf(t), old(SnapshotOf(t)), colName, cell, r, SnapshotOf(t))
  {
    hide *;
    SnapshotParts(t);
    t.ValidParts();
    t.HeapIdsRunUp();
    ghost var s := SnapshotOf(t);
    r := t.Find(colName, cell);
    t.ValidParts();
    SnapshotParts(t);
    StoredIsSound(t);
    SearchIsStep(DesignOf(t), s, colName, cell, r, SnapshotOf(t));
  }

  lemma SearchIsStep(d: Design, s: Snapshot, colName: string, cell: Cell, r: Result<seq<Found>, AccessError>,
                     t: Snapshot)
    requires s.pages >= 0 && InOrder(d, t) && t.heap == s.heap && t.pages == s.pages && RootsGiven(s.indexes, t.indexes)
    requires !Named(d.schema, colName) ==> r == Err(LoadRowsError)
    requires forall col: nat :: FirstNamed(d.schema, colName, col) ==>
               FoundInColumn(d.schema, d.columns, s.heap, col, cell, r)
    ensures FindStep(d, s, colName, cell, r, t)
  {
    hide InOrder, RootsGiven, FoundInColumn;
  }

  /** Carry out one operation. */
  method Apply(t: TableAccess, op: TableOp) returns (answer: TableAnswer)
    requires t.Valid()
    modifies t, t.fsm
    ensures Step(DesignOf(t), old(SnapshotOf(t)), op, answer, SnapshotOf(t))
    ensures answer != Inserted(Err(Panic)) ==> t.Stored()
  {
    hide InOrder, InsertStep, DeleteStep, FindStep, SnapshotOf;
    StoredIsSound(t);
    match op {
      case InsertRow(row) =>
        var r := ApplyInsert(t, row);
        answer := Inserted(r);
      case DeleteRows(name, cell) =>
        var r := ApplyDelete(t, name, cell);
        answer := Deleted(r);
      case FindRows(name, cell) =>
        var r := ApplyFind(t, name, cell);
        answer := Searched(r);
    }
  }

  /** Nothing has been used yet. */
  function NoKeys(columns: seq<I32>): seq<set<int>> { seq(|columns|, _ => {}) }

  lemma EmptyIsLoading(t: TableAccess)
    requires t.Valid() && t.heap == map[] && t.indexes == seq(|t.columns|, _ => Index.EMPTY)
    ensures Loading(DesignOf(t), SnapshotOf(t), NoKeys(t.columns)) && StockOf(DesignOf(t), SnapshotOf(t)) == imap[]
    ensures SnapshotOf(t).pages == 0 && InOrder(DesignOf(t), SnapshotOf(t)) && t.Stored()
  {
    StoredIsSound(t);
    Index.EmptyInv(BTREE_MAX_DEGREE);
    assert 1 !in t.heap;
  }

  /** What is still to come needs no guard. */
  ghost predicate NeedsNoGuard(d: Design, s: Snapshot, used: seq<set<int>>, ops: seq<TableOp>)
    requires |used| == |d.columns|
  {
    ByScan(d, ops) && FreshRows(d, used, ops)
      && (NoInserts(ops) || (Loading(d, s, used) && s.pages + |ops| < Addresses.I32_MAX))
  }

  ghost function UsedAfter(d: Design, used: seq<set<int>>, op: TableOp): seq<set<int>>
    requires |used| == |d.columns|
  {
    if op.InsertRow? then Used(d, used, op.row) else used
  }

  /** A step meets the guard by itself, and so will the rest. */
  lemma GuardedByItself(d: Design, s: Snapshot, used: seq<set<int>>, ops: seq<TableOp>, answer: TableAnswer,
                        t: Snapshot)
    requires |used| == |d.columns| && |ops| > 0 && InOrder(d, s) && Step(d, s, ops[0], answer, t)
    requires NeedsNoGuard(d, s, used, ops)
    ensures Guarded(d, s, ops[0], answer) && answer != Inserted(Err(Panic))
    ensures NeedsNoGuard(d, t, UsedAfter(d, used, ops[0]), ops[1..])
  {
    hide InOrder, InsertStep, DeleteStep, FindStep, KeysAreGood, Loading, FreshRow, Used, IsIndexed, FirstNamed,
      HasCell;
    match (ops[0], answer) {
      case (InsertRow(row), Inserted(r)) =>
        LoadGoesOn(d, s, used, row, r, t);
      case (FindRows(name, cell), Searched(r)) =>
        if !NoInserts(ops) { SearchStaysLoading(d, s, used, name, cell, r, t); }
      case (DeleteRows(name, cell), Deleted(r)) =>
      case _ =>
    }
    assert forall i :: 0 <= i < |ops[1..]| ==> ops[1..][i] == ops[i + 1];
  }

  /** Any run from an empty table that first inserts rows with fresh keys, and searches, and then deletes by
      scans, and searches, answers as the map of its rows does. Nothing panics, and nothing is asked of the
      indexes on the way. */
  method Run(t: TableAccess, ops: seq<TableOp>) returns (answers: seq<TableAnswer>)
    requires t.Valid() && t.heap == map[] && t.indexes == seq(|t.columns|, _ => Index.EMPTY)
    requires |ops| < Addresses.I32_MAX
    requires FreshRows(DesignOf(t), NoKeys(t.columns), ops) && ByScan(DesignOf(t), ops)
    modifies t, t.fsm
    ensures t.Valid() && |answers| == |ops|
    ensures AllAllowed(DesignOf(t), imap[], ops, answers)
    ensures StockOf(DesignOf(t), SnapshotOf(t)) == StockRun(DesignOf(t), imap[], ops, answers)
  {
    EmptyIsLoading(t);
    ghost var d := DesignOf(t);
    ghost var used := NoKeys(t.columns);
    answers := [];
    assert ops[0..] == ops && NeedsNoGuard(d, SnapshotOf(t), used, ops);
    assert AllAllowed(d, imap[], ops[..0], []) && StockRun(d, imap[], ops[..0], []) == imap[];
    hide *;
    var i := 0;
    while i < |ops|
      invariant i <= |ops| && |answers| == i && t.Valid() && |used| == |d.columns| && d == DesignOf(t)
      invariant NeedsNoGuard(d, SnapshotOf(t), used, ops[i..])
      invariant AllAllowed(d, imap[], ops[..i], answers)
      invariant StockOf(d, SnapshotOf(t)) == StockRun(d, imap[], ops[..i], answers)
    {
      StoredIsSound(t);
      ghost var s := SnapshotOf(t);
      var answer := Apply(t, ops[i]);
      assert ops[i..][0] == ops[i] && ops[i..][1..] == ops[i + 1..];
      GuardedByItself(d, s, used, ops[i..], answer, SnapshotOf(t));
      StepAnswers(d, s, ops[i], answer, SnapshotOf(t));
      OneMoreStep(d, imap[], ops, answers, answer, i);
      used := UsedAfter(d, used, ops[i]);
      StoredIsSound(t);
      answers := answers + [answer];
      i := i + 1;
    }
    assert ops[..i] == ops;
  }

  lemma OneMoreStep(d: Design, m: Stock, ops: seq<TableOp>, answers: seq<TableAnswer>, answer: TableAnswer, i: nat)
    requires i < |ops| && |answers| == i && AllAllowed(d, m, ops[..i], answers)
    requires Allowed(d, StockRun(d, m, ops[..i], answers), ops[i], answer)
    ensures AllAllowed(d, m, ops[..i + 1], answers + [answer])
    ensures StockRun(d, m, ops[..i + 1], answers + [answer])
            == After(d, StockRun(d, m, ops[..i], answers), ops[i], answer)
  {
    hide Allowed, After;
    var some, more := ops[..i + 1], answers + [answer];
    assert some[..i] == ops[..i] && more[..i] == answers;
    OneMoreAllowed(d, m, some, more);
  }
}
