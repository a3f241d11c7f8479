/** The indexes of a table: the commands they get, and when they agree with the heap. */
module TableIndexes {
  import opened Bytes
  import opened Entries
  import opened HashJoins
  import opened Rows
  import opened TableRows
  import opened Wrappers
  import Index = BTreeStates

  const BTREE_MAX_DEGREE := 500

  /** The place of a column in a schema. */
  function Position(schema: Schema, id: I32): (r: Option<nat>)
    ensures r.Some? ==> r.value < |schema| && schema[r.value].id == id && forall h :: 0 <= h < r.value ==>
              schema[h].id != id
    ensures r.None? ==> forall h :: 0 <= h < |schema| ==> schema[h].id != id
  {
    if |schema| == 0 then None
    else
      match Position(schema[..|schema| - 1], id)
      case Some(i) => Some(i)
      case None => if schema[|schema| - 1].id == id then Some(|schema| - 1) else None
  }

  // -------- commands --------

  /** What an index is to do about a row: drop an old key, take a new one. */
  datatype IndexCommand = IndexCommand(pointer: nat, oldValue: Option<I32>, newValue: Option<I32>)

  function Dropped(s: Index.State, key: Option<I32>): (t: Index.State)
    requires Index.Inv(BTREE_MAX_DEGREE, s)
    ensures Index.Inv(BTREE_MAX_DEGREE, t)
    ensures Index.Abs(t) == if key.Some? then Index.Abs(s) - {key.value} else Index.Abs(s)
  {
    match key
    case None => s
    case Some(k) =>
      Index.DeleteRefinesMap(BTREE_MAX_DEGREE, s, k);
      Index.DeleteFrom(BTREE_MAX_DEGREE, s, k).state
  }

  function Commanded(s: Index.State, c: IndexCommand, at: Val): Index.InsertResult
    requires Index.Inv(BTREE_MAX_DEGREE, s)
  {
    var t := Dropped(s, c.oldValue);
    match c.newValue
    case None => Index.InsertResult(t, true)
    case Some(k) => Index.InsertInto(BTREE_MAX_DEGREE, t, k, at)
  }

  ghost predicate Refuses(s: Index.State, c: IndexCommand)
    requires Index.Inv(BTREE_MAX_DEGREE, s)
  {
    c.newValue.Some? && Index.Refuses(BTREE_MAX_DEGREE, Dropped(s, c.oldValue), c.newValue.value)
  }

  lemma RefusesOrTakes(s: Index.State, c: IndexCommand, at: Val)
    requires Index.Inv(BTREE_MAX_DEGREE, s)
    ensures Commanded(s, c, at).ok <==> !Refuses(s, c)
  {
    hide Index.InsertInto, Index.Refuses, Dropped;
    if c.newValue.Some? { Index.RefusedExactlyWhen(BTREE_MAX_DEGREE, Dropped(s, c.oldValue), c.newValue.value, at); }
  }

  ghost predicate Healthy(indexes: seq<Index.State>) {
    forall p :: 0 <= p < |indexes| ==> Index.Inv(BTREE_MAX_DEGREE, indexes[p])
  }

  /** One command for each index. */
  predicate OnePerIndex(indexes: seq<Index.State>, commands: seq<IndexCommand>) {
    |commands| == |indexes| && forall p :: 0 <= p < |commands| ==> commands[p].pointer == p
  }

  /** The first n commands were carried out, and no other. */
  ghost predicate Taken(was: seq<Index.State>, now: seq<Index.State>, commands: seq<IndexCommand>, at: Val, n: int)
    requires Healthy(was) && OnePerIndex(was, commands)
  {
    && |now| == |was|
    && forall p :: 0 <= p < |was| ==> now[p] == if p < n then Commanded(was[p], commands[p], at).state else was[p]
  }

  /** Index p is the first to refuse its command. */
  ghost predicate FirstRefusal(was: seq<Index.State>, commands: seq<IndexCommand>, p: nat)
    requires Healthy(was) && OnePerIndex(was, commands)
  {
    p < |was| && Refuses(was[p], commands[p]) && forall q :: 0 <= q < p ==> !Refuses(was[q], commands[q])
  }

  ghost predicate NoneRefuses(was: seq<Index.State>, commands: seq<IndexCommand>)
    requires Healthy(was) && OnePerIndex(was, commands)
  {
    forall q :: 0 <= q < |was| ==> !Refuses(was[q], commands[q])
  }

  // -------- keys of a row --------

  ghost predicate AllColumnsKnown(schema: Schema, columns: seq<I32>) {
    forall p :: 0 <= p < |columns| ==> Position(schema, columns[p]).Some?
  }

  ghost predicate PositionsOf(schema: Schema, columns: seq<I32>, positions: seq<nat>) {
    |positions| == |columns| && forall p :: 0 <= p < |columns| ==> Position(schema, columns[p]) == Some(positions[p])
  }

  /** The key of a row for an index, if the column is known and holds an integer. */
  function KeyOf(schema: Schema, column: I32, row: Row): Option<I32> {
    match Position(schema, column)
    case None => None
    case Some(col) => if col < |row.cells| && row.cells[col].IntCell? then Some(row.cells[col].i) else None
  }

  ghost predicate IntColumns(schema: Schema, columns: seq<I32>, row: Row) {
    forall p :: 0 <= p < |columns| ==> KeyOf(schema, columns[p], row).Some?
  }

  /** No index loses pairs or its order over this row (see SafeInsert). */
  ghost predicate SafeKeys(schema: Schema, columns: seq<I32>, indexes: seq<Index.State>, row: Row)
    requires |columns| == |indexes| && Healthy(indexes)
  {
    forall p :: 0 <= p < |columns| && KeyOf(schema, columns[p], row).Some? ==>
      Index.SafeInsert(BTREE_MAX_DEGREE, indexes[p], KeyOf(schema, columns[p], row).value)
  }

  ghost predicate FreshKeys(schema: Schema, columns: seq<I32>, indexes: seq<Index.State>, row: Row)
    requires |columns| == |indexes|
  {
    forall p :: 0 <= p < |columns| && KeyOf(schema, columns[p], row).Some? ==>
      KeyOf(schema, columns[p], row).value !in Index.Abs(indexes[p])
  }

  /** Some index reports that it has the row's key. */
  ghost predicate SomeKeyRefused(schema: Schema, columns: seq<I32>, indexes: seq<Index.State>, row: Row)
    requires |columns| == |indexes| && Healthy(indexes)
  {
    exists p: nat :: FirstKeyRefused(schema, columns, indexes, row, p)
  }

  ghost predicate KeyRefused(schema: Schema, columns: seq<I32>, indexes: seq<Index.State>, row: Row, p: nat)
    requires |columns| == |indexes| && Healthy(indexes) && p < |columns|
  {
    var key := KeyOf(schema, columns[p], row);
    key.Some? && Index.Refuses(BTREE_MAX_DEGREE, indexes[p], key.value)
  }

  /** The first index that does. */
  ghost predicate FirstKeyRefused(schema: Schema, columns: seq<I32>, indexes: seq<Index.State>, row: Row, p: nat)
    requires |columns| == |indexes| && Healthy(indexes)
  {
    && p < |columns| && KeyRefused(schema, columns, indexes, row, p)
    && forall q :: 0 <= q < p ==> !KeyRefused(schema, columns, indexes, row, q)
  }

  method KeysOf(row: Row, positions: seq<nat>, error: AccessError) returns (r: Result<seq<I32>, AccessError>)
    requires forall p :: 0 <= p < |positions| ==> positions[p] < |row.cells|
    ensures r.Ok? <==> forall p :: 0 <= p < |positions| ==> row.cells[positions[p]].IntCell?
    ensures r.Ok? ==> |r.value| == |positions|
    ensures r.Ok? ==> forall p :: 0 <= p < |positions| ==> row.cells[positions[p]] == IntCell(r.value[p])
    ensures r.Err? ==> r.error == error
  {
    var keys: seq<I32> := [];
    var p := 0;
    while p < |positions|
      invariant p <= |positions| && |keys| == p
      invariant forall q :: 0 <= q < p ==> row.cells[positions[q]] == IntCell(keys[q])
    {
      var cell := row.cells[positions[p]];
      if !cell.IntCell? {
        return Err(error);
      }
      keys := keys + [cell.i];
      p := p + 1;
    }
    r := Ok(keys);
  }

  function NewKeys(keys: seq<I32>): (commands: seq<IndexCommand>)
    ensures |commands| == |keys|
    ensures forall p :: 0 <= p < |keys| ==> commands[p] == IndexCommand(p, None, Some(keys[p]))
  {
    seq(|keys|, p requires 0 <= p < |keys| => IndexCommand(p, None, Some(keys[p])))
  }

  function OldKeys(keys: seq<I32>): (commands: seq<IndexCommand>)
    ensures |commands| == |keys|
    ensures forall p :: 0 <= p < |keys| ==> commands[p] == IndexCommand(p, Some(keys[p]), None)
  {
    seq(|keys|, p requires 0 <= p < |keys| => IndexCommand(p, Some(keys[p]), None))
  }

  ghost predicate KeysAre(schema: Schema, columns: seq<I32>, row: Row, keys: seq<I32>) {
    |keys| == |columns| && forall p :: 0 <= p < |columns| ==> KeyOf(schema, columns[p], row) == Some(keys[p])
  }

  lemma KeysByPosition(schema: Schema, columns: seq<I32>, row: Row, positions: seq<nat>)
    requires PositionsOf(schema, columns, positions) && |row.cells| == |schema|
    ensures |positions| == |columns| && forall p :: 0 <= p < |positions| ==> positions[p] < |row.cells|
    ensures IntColumns(schema, columns, row) <==> forall p :: 0 <= p < |positions| ==> row.cells[positions[p]].IntCell?
    ensures forall keys: seq<I32> {:trigger KeysAre(schema, columns, row, keys)} ::
              |keys| == |positions|
                && (forall p :: 0 <= p < |positions| ==> row.cells[positions[p]] == IntCell(keys[p])) ==>
              KeysAre(schema, columns, row, keys)
  {
    if forall p :: 0 <= p < |positions| ==> row.cells[positions[p]].IntCell? {
      forall p | 0 <= p < |columns| ensures KeyOf(schema, columns[p], row).Some? {
        assert row.cells[positions[p]].IntCell?;
      }
    }
    if IntColumns(schema, columns, row) {
      forall p | 0 <= p < |positions| ensures row.cells[positions[p]].IntCell? {
        assert KeyOf(schema, columns[p], row).Some?;
      }
    }
  }

  lemma KeyForEachColumn(schema: Schema, columns: seq<I32>, row: Row, keys: seq<I32>)
    requires KeysAre(schema, columns, row, keys)
    ensures |keys| == |columns|
  {
  }

  /** The first n indexes took the row's keys with its place, and no other index changed. */
  ghost predicate KeysTaken(schema: Schema, columns: seq<I32>, was: seq<Index.State>, now: seq<Index.State>, row: Row,
                            at: Val, n: int)
    requires |columns| == |was| && Healthy(was)
  {
    && |now| == |was|
    && forall p :: 0 <= p < |columns| ==>
         var key := KeyOf(schema, columns[p], row);
         now[p] == if p < n && key.Some? then Index.InsertInto(BTREE_MAX_DEGREE, was[p], key.value, at).state
                   else was[p]
  }

  lemma AllKeysTaken(schema: Schema, columns: seq<I32>, was: seq<Index.State>, now: seq<Index.State>, row: Row,
                     keys: seq<I32>, at: Val, n: int)
    requires |was| == |columns| && Healthy(was) && KeysAre(schema, columns, row, keys)
    requires OnePerIndex(was, NewKeys(keys))
    requires Taken(was, now, NewKeys(keys), at, n)
    ensures KeysTaken(schema, columns, was, now, row, at, n)
  {
    hide KeyOf, Index.InsertInto;
    forall p | 0 <= p < |columns|
      ensures now[p] == if p < n then Index.InsertInto(BTREE_MAX_DEGREE, was[p], keys[p], at).state else was[p]
    {
      assert Commanded(was[p], NewKeys(keys)[p], at) == Index.InsertInto(BTREE_MAX_DEGREE, was[p], keys[p], at);
    }
  }

  /** An index that refuses a key stays as it was. */
  lemma RefusedTakesNothing(was: seq<Index.State>, now: seq<Index.State>, keys: seq<I32>, at: Val, p: nat)
    requires Healthy(was) && OnePerIndex(was, NewKeys(keys)) && FirstRefusal(was, NewKeys(keys), p)
    requires Taken(was, now, NewKeys(keys), at, p + 1)
    ensures Taken(was, now, NewKeys(keys), at, p)
  {
    hide Index.InsertInto, Index.Refuses;
    Index.RefusedExactlyWhen(BTREE_MAX_DEGREE, was[p], keys[p], at);
  }

  lemma OldKeysFit(indexes: seq<Index.State>, keys: seq<I32>)
    requires |indexes| == |keys| && Healthy(indexes)
    ensures OnePerIndex(indexes, OldKeys(keys)) && NoneRefuses(indexes, OldKeys(keys))
  {
  }

  lemma KeysAreGone(was: seq<Index.State>, now: seq<Index.State>, keys: seq<I32>, at: Val)
    requires Healthy(was) && OnePerIndex(was, OldKeys(keys)) && Taken(was, now, OldKeys(keys), at, |keys|)
    ensures Healthy(now) && |now| == |was| == |keys|
    ensures forall p :: 0 <= p < |now| ==> Index.Abs(now[p]) == Index.Abs(was[p]) - {keys[p]}
  {
    hide Index.Inv, Index.Abs;
    forall p | 0 <= p < |now|
      ensures Index.Inv(BTREE_MAX_DEGREE, now[p]) && Index.Abs(now[p]) == Index.Abs(was[p]) - {keys[p]}
    {
      assert now[p] == Dropped(was[p], Some(keys[p]));
    }
  }

  lemma TakenAsMany(was: seq<Index.State>, now: seq<Index.State>, commands: seq<IndexCommand>, at: Val)
    requires Healthy(was) && OnePerIndex(was, commands)
    ensures forall n: int :: Taken(was, now, commands, at, n) ==> |now| == |was|
  {
  }

  lemma RefusalIsOfKeys(schema: Schema, columns: seq<I32>, was: seq<Index.State>, row: Row, keys: seq<I32>)
    requires |was| == |columns| && Healthy(was) && KeysAre(schema, columns, row, keys)
    ensures OnePerIndex(was, NewKeys(keys)) && |keys| == |columns|
    ensures forall p: nat :: FirstRefusal(was, NewKeys(keys), p) <==> FirstKeyRefused(schema, columns, was, row, p)
    ensures NoneRefuses(was, NewKeys(keys)) <==> !SomeKeyRefused(schema, columns, was, row)
  {
    hide KeyOf, Index.Refuses, Index.Inv;
    forall p: nat | p < |columns|
      ensures Index.Inv(BTREE_MAX_DEGREE, was[p])
      ensures Refuses(was[p], NewKeys(keys)[p]) <==> KeyRefused(schema, columns, was, row, p)
    {}
    if !NoneRefuses(was, NewKeys(keys)) {
      var q :| 0 <= q < |was| && Refuses(was[q], NewKeys(keys)[q]);
      LeastRefusal(was, NewKeys(keys), q);
    }
  }

  lemma {:induction false} LeastRefusal(was: seq<Index.State>, commands: seq<IndexCommand>, q: nat)
    requires Healthy(was) && OnePerIndex(was, commands) && q < |was| && Refuses(was[q], commands[q])
    ensures exists p: nat :: FirstRefusal(was, commands, p)
    decreases q
  {
    hide Refuses, Index.Inv;
    if p: nat :| p < q && Refuses(was[p], commands[p]) {
      LeastRefusal(was, commands, p);
    } else {
      assert FirstRefusal(was, commands, q);
    }
  }

  // -------- agreement with the heap --------

  /** An index is in order, and agrees with the heap about its column. */
  ghost predicate IndexAgrees(schema: Schema, column: I32, index: Index.State, heap: HeapFile) {
    && Index.Inv(BTREE_MAX_DEGREE, index)
    && match Position(schema, column)
       case None => true
       case Some(col) => Agrees(Index.Abs(index), heap, schema, col)
  }

  ghost predicate AllAgree(schema: Schema, columns: seq<I32>, indexes: seq<Index.State>, heap: HeapFile) {
    |indexes| == |columns| && forall p :: 0 <= p < |columns| ==> IndexAgrees(schema, columns[p], indexes[p], heap)
  }

  lemma AgreeingIsHealthy(schema: Schema, columns: seq<I32>, indexes: seq<Index.State>, heap: HeapFile)
    requires AllAgree(schema, columns, indexes, heap)
    ensures Healthy(indexes) && |indexes| == |columns|
  {
    hide Agrees, Index.Inv, Index.Abs;
    forall p | 0 <= p < |indexes| ensures Index.Inv(BTREE_MAX_DEGREE, indexes[p]) {
      assert IndexAgrees(schema, columns[p], indexes[p], heap);
    }
  }

  lemma AgreeWithSameRows(schema: Schema, columns: seq<I32>, indexes: seq<Index.State>, was: HeapFile, now: HeapFile)
    requires AllAgree(schema, columns, indexes, was) && SameRows(was, now, schema)
    ensures AllAgree(schema, columns, indexes, now)
  {
    hide Agrees, SameRows;
    forall p | 0 <= p < |columns| ensures IndexAgrees(schema, columns[p], indexes[p], now) {
      assert IndexAgrees(schema, columns[p], indexes[p], was);
      var position := Position(schema, columns[p]);
      if position.Some? {
        AgreesWithSameRows(Index.Abs(indexes[p]), Index.Abs(indexes[p]), was, now, schema, position.value);
      }
    }
  }

  /** An index that took a new row's key agrees exactly if the key was fresh and safe. */
  lemma AgreesAfterTaking(schema: Schema, column: I32, s: Index.State, was: HeapFile, now: HeapFile, key: I32, row: Row,
                          id: int, slot: nat)
    requires IndexAgrees(schema, column, s, was) && KeyOf(schema, column, row) == Some(key)
    requires RowAt(was, schema, id, slot) == None && RowAt(now, schema, id, slot) == Some(row)
    requires SameRowsBut(was, now, schema, id, slot)
    ensures IndexAgrees(schema, column, Index.InsertInto(BTREE_MAX_DEGREE, s, key, (id, slot)).state, now)
            <==> key !in Index.Abs(s) && Index.SafeInsert(BTREE_MAX_DEGREE, s, key)
  {
    var col := Position(schema, column).value;
    var x := Index.InsertInto(BTREE_MAX_DEGREE, s, key, (id, slot));
    assert HasKey(now, schema, col, id, slot, key);
    hide Agrees, SameRowsBut, Index.InsertInto, Index.Abs, Index.SafeInsert, Index.Inv, RowAt;
    Index.MapIsRightExactlyWhenSafe(BTREE_MAX_DEGREE, s, key, (id, slot));
    AgreesAfterInsert(Index.Abs(s), Index.Abs(x.state), was, now, schema, col, id, slot, key);
  }

  /** An index that took a key without its row agrees exactly if it had the key and lost nothing. */
  lemma AgreesAfterTakingInVain(schema: Schema, column: I32, s: Index.State, was: HeapFile, now: HeapFile, key: I32,
                                row: Row, at: Val)
    requires IndexAgrees(schema, column, s, was) && KeyOf(schema, column, row) == Some(key)
    requires SameRows(was, now, schema)
    ensures IndexAgrees(schema, column, Index.InsertInto(BTREE_MAX_DEGREE, s, key, at).state, now)
            <==> key in Index.Abs(s) && Index.SafeInsert(BTREE_MAX_DEGREE, s, key)
  {
    var col := Position(schema, column).value;
    var x := Index.InsertInto(BTREE_MAX_DEGREE, s, key, at);
    hide Agrees, SameRows, Index.InsertInto, Index.Abs, Index.SafeInsert, Index.Inv;
    Index.MapIsKeptExactlyWhenPresent(BTREE_MAX_DEGREE, s, key, at);
    AgreesWithSameRows(Index.Abs(s), Index.Abs(x.state), was, now, schema, col);
  }

  /** After a row was stored and all indexes took its keys, they agree exactly if the keys were fresh and safe. */
  lemma AgreeAfterInsert(schema: Schema, columns: seq<I32>, was: seq<Index.State>, now: seq<Index.State>,
                         before: HeapFile, after: HeapFile, keys: seq<I32>, row: Row, id: int, slot: nat)
    requires AllAgree(schema, columns, was, before) && Healthy(was) && KeysAre(schema, columns, row, keys)
    requires OnePerIndex(was, NewKeys(keys)) && Taken(was, now, NewKeys(keys), (id, slot), |columns|)
    requires RowAt(before, schema, id, slot) == None && RowAt(after, schema, id, slot) == Some(row)
    requires SameRowsBut(before, after, schema, id, slot)
    ensures AllAgree(schema, columns, now, after)
            <==> FreshKeys(schema, columns, was, row) && SafeKeys(schema, columns, was, row)
  {
    hide IndexAgrees, RowAt, SameRowsBut, Index.InsertInto, Index.SafeInsert, Index.Abs, KeyOf;
    forall p | 0 <= p < |columns|
      ensures IndexAgrees(schema, columns[p], now[p], after)
              <==> keys[p] !in Index.Abs(was[p]) && Index.SafeInsert(BTREE_MAX_DEGREE, was[p], keys[p])
    {
      assert now[p] == Commanded(was[p], NewKeys(keys)[p], (id, slot)).state;
      AgreesAfterTaking(schema, columns[p], was[p], before, after, keys[p], row, id, slot);
    }
  }

  /** The indexes before p had these keys already, and lost nothing over them. */
  ghost predicate KeysWereThere(schema: Schema, columns: seq<I32>, indexes: seq<Index.State>, row: Row, p: nat)
    requires |columns| == |indexes| && Healthy(indexes)
  {
    forall q :: 0 <= q < p && q < |columns| && KeyOf(schema, columns[q], row).Some? ==>
      && KeyOf(schema, columns[q], row).value in Index.Abs(indexes[q])
      && Index.SafeInsert(BTREE_MAX_DEGREE, indexes[q], KeyOf(schema, columns[q], row).value)
  }

  /** Where index p refused a key, the row is not stored; the indexes before p have taken theirs. They
      agree with the heap exactly if they had them before. */
  lemma AgreeAfterRefusal(schema: Schema, columns: seq<I32>, was: seq<Index.State>, now: seq<Index.State>,
                          before: HeapFile, after: HeapFile, keys: seq<I32>, row: Row, at: Val, p: nat)
    requires AllAgree(schema, columns, was, before) && Healthy(was) && KeysAre(schema, columns, row, keys)
    requires OnePerIndex(was, NewKeys(keys)) && FirstRefusal(was, NewKeys(keys), p)
    requires Taken(was, now, NewKeys(keys), at, p) && SameRows(before, after, schema)
    ensures AllAgree(schema, columns, now, after) <==> KeysWereThere(schema, columns, was, row, p)
  {
    hide IndexAgrees, SameRows, Index.InsertInto, Index.SafeInsert, Index.Abs, KeyOf;
    AgreeWithSameRows(schema, columns, was, before, after);
    forall q | 0 <= q < p
      ensures IndexAgrees(schema, columns[q], now[q], after)
              <==> keys[q] in Index.Abs(was[q]) && Index.SafeInsert(BTREE_MAX_DEGREE, was[q], keys[q])
    {
      assert now[q] == Commanded(was[q], NewKeys(keys)[q], at).state;
      AgreesAfterTakingInVain(schema, columns[q], was[q], before, after, keys[q], row, at);
    }
    forall q | p <= q < |columns| ensures IndexAgrees(schema, columns[q], now[q], after) {
      assert now[q] == was[q];
    }
  }

  // -------- agreement after deletions --------

  /** The keys of some rows in a column. */
  ghost function KeySet(schema: Schema, column: I32, found: seq<Found>): set<int> {
    set i | 0 <= i < |found| && KeyOf(schema, column, found[i].row).Some?
      :: KeyOf(schema, column, found[i].row).value as int
  }

  /** Every index lost the keys of these rows, and nothing else. */
  ghost predicate KeysGone(schema: Schema, columns: seq<I32>, was: seq<Index.State>, now: seq<Index.State>,
                           found: seq<Found>) {
    && |now| == |was| == |columns| && Healthy(now)
    && forall p :: 0 <= p < |columns| ==> Index.Abs(now[p]) == Index.Abs(was[p]) - KeySet(schema, columns[p], found)
  }

  lemma NothingGone(schema: Schema, columns: seq<I32>, indexes: seq<Index.State>)
    requires Healthy(indexes) && |indexes| == |columns|
    ensures KeysGone(schema, columns, indexes, indexes, [])
  {
    hide Index.Inv, Index.Abs;
    forall p | 0 <= p < |columns| ensures KeySet(schema, columns[p], []) == {} {}
  }

  lemma OneMoreKeyGone(schema: Schema, columns: seq<I32>, first: seq<Index.State>, was: seq<Index.State>,
                       now: seq<Index.State>, found: seq<Found>, keys: seq<I32>, i: nat)
    requires i < |found| && KeysGone(schema, columns, first, was, found[..i])
    requires KeysAre(schema, columns, found[i].row, keys)
    requires Healthy(now) && |now| == |was|
    requires forall p :: 0 <= p < |now| ==> Index.Abs(now[p]) == Index.Abs(was[p]) - {keys[p]}
    ensures KeysGone(schema, columns, first, now, found[..i + 1])
  {
    hide Index.Inv, Index.Abs, KeyOf, KeySet;
    forall p | 0 <= p < |columns|
      ensures Index.Abs(now[p]) == Index.Abs(first[p]) - KeySet(schema, columns[p], found[..i + 1])
    {
      KeySetGrows(schema, columns[p], found, i);
      assert KeyOf(schema, columns[p], found[i].row) == Some(keys[p]);
    }
  }

  lemma KeySetGrows(schema: Schema, column: I32, found: seq<Found>, i: nat)
    requires i < |found|
    ensures var key := KeyOf(schema, column, found[i].row);
            KeySet(schema, column, found[..i + 1])
            == KeySet(schema, column, found[..i]) + if key.Some? then {key.value as int} else {}
  {
    hide KeyOf;
    var some, more, key := found[..i], found[..i + 1], KeyOf(schema, column, found[i].row);
    assert more[i] == found[i];
    forall h | 0 <= h < i ensures more[h] == some[h] {}
  }

  /** In every index the keys of the rows are those of their places. */
  ghost predicate KeysMatchPlaces(schema: Schema, columns: seq<I32>, indexes: seq<Index.State>, found: seq<Found>)
    requires |columns| == |indexes|
  {
    forall p :: 0 <= p < |columns| && Position(schema, columns[p]).Some? ==>
      KeysOfPlaces(Index.Abs(indexes[p]), KeySet(schema, columns[p], found), found)
  }

  /** After rows and keys are gone, all indexes agree exactly if keys and places belonged together. */
  lemma AgreeAfterDelete(schema: Schema, columns: seq<I32>, was: seq<Index.State>, now: seq<Index.State>,
                         before: HeapFile, after: HeapFile, found: seq<Found>)
    requires AllAgree(schema, columns, was, before) && KeysGone(schema, columns, was, now, found)
    requires Removed(before, after, schema, found)
    ensures AllAgree(schema, columns, now, after) <==> KeysMatchPlaces(schema, columns, was, found)
  {
    hide Removed, Agrees, Index.Inv, Index.Abs, KeySet, KeysOfPlaces;
    forall p | 0 <= p < |columns|
      ensures IndexAgrees(schema, columns[p], now[p], after)
              <==> (Position(schema, columns[p]).Some? ==>
                      KeysOfPlaces(Index.Abs(was[p]), KeySet(schema, columns[p], found), found))
    {
      assert IndexAgrees(schema, columns[p], was[p], before);
      var position := Position(schema, columns[p]);
      if position.Some? {
        AgreesAfterRemoval(Index.Abs(was[p]), before, after, schema, position.value,
                           KeySet(schema, columns[p], found), found);
      }
    }
  }

  /** For rows that lie where they were found, they do. */
  lemma LiveKeysMatchPlaces(schema: Schema, columns: seq<I32>, indexes: seq<Index.State>, heap: HeapFile,
                            found: seq<Found>)
    requires AllAgree(schema, columns, indexes, heap)
    requires forall i :: 0 <= i < |found| ==> RowAt(heap, schema, found[i].pageId, found[i].slot) == Some(found[i].row)
    requires forall i :: 0 <= i < |found| ==> IntColumns(schema, columns, found[i].row)
    ensures KeysMatchPlaces(schema, columns, indexes, found)
  {
    hide RowAt, Index.Inv, Index.Abs;
    forall p | 0 <= p < |columns| && Position(schema, columns[p]).Some?
      ensures KeysOfPlaces(Index.Abs(indexes[p]), KeySet(schema, columns[p], found), found)
    {
      assert IndexAgrees(schema, columns[p], indexes[p], heap);
      forall i | 0 <= i < |found| ensures KeyOf(schema, columns[p], found[i].row).Some? {
        assert IntColumns(schema, columns, found[i].row);
      }
      LiveKeysOfPlaces(schema, columns[p], Index.Abs(indexes[p]), heap, Position(schema, columns[p]).value, found);
    }
  }

  lemma LiveKeysOfPlaces(schema: Schema, column: I32, index: map<int, Val>, heap: HeapFile, col: nat, found: seq<Found>)
    requires Agrees(index, heap, schema, col) && Position(schema, column) == Some(col)
    requires forall i :: 0 <= i < |found| ==> RowAt(heap, schema, found[i].pageId, found[i].slot) == Some(found[i].row)
    requires forall i :: 0 <= i < |found| ==> KeyOf(schema, column, found[i].row).Some?
    ensures KeysOfPlaces(index, KeySet(schema, column, found), found)
  {
    hide RowAt;
    var keys := KeySet(schema, column, found);
    forall v | v in index && index[v].1 >= 0 ensures v in keys <==> At(found, index[v].0, index[v].1) {
      var id, slot: nat := index[v].0, index[v].1;
      assert PointsTo(index, v, id, slot);
      assert HasKey(heap, schema, col, id, slot, v);
      if v in keys {
        var i :| 0 <= i < |found| && KeyOf(schema, column, found[i].row) == Some(v);
        assert HasKey(heap, schema, col, found[i].pageId, found[i].slot, v);
        assert PointsTo(index, v, found[i].pageId, found[i].slot);
      }
      if At(found, id, slot) {
        var i :| 0 <= i < |found| && found[i].pageId == id && found[i].slot == slot;
        assert KeyOf(schema, column, found[i].row) == Some(v);
      }
    }
  }
}
