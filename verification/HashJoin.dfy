/** Query results, and the hash join of two of them. */
module HashJoins {
  import opened Bytes
  import opened Rows
  import opened Wrappers

  datatype AccessError =
    | LoadRowsError | InsertRowError | UpdateRowsError | DeleteRowsError | StoreError | PageError | Panic

  type RowResult = Result<Row, AccessError>

  /** What a query yields, in order. A row that cannot be loaded yields its error. */
  datatype Query = Query(rows: seq<RowResult>, schema: Schema) {
    /** Every loaded row has a cell for every column. */
    ghost predicate Full() {
      forall i :: 0 <= i < |rows| && rows[i].Ok? ==> |rows[i].value.cells| == |schema|
    }
  }

  // -------- columns by name --------

  predicate IsSpace(c: char) {
    var u := c as int;
    || 0x9 <= u <= 0xd || u in {0x20, 0x85, 0xa0, 0x1680, 0x2028, 0x2029, 0x202f, 0x205f, 0x3000}
    || 0x2000 <= u <= 0x200a
  }

  function TrimStart(s: string): string { if |s| > 0 && IsSpace(s[0]) then TrimStart(s[1..]) else s }

  function TrimEnd(s: string): string { if |s| > 0 && IsSpace(s[|s| - 1]) then TrimEnd(s[..|s| - 1]) else s }

  function Trim(s: string): string { TrimEnd(TrimStart(s)) }

  /** Trimming takes white space off both ends and all of it. */
  lemma TrimIsMiddle(s: string) returns (a: string, b: string)
    ensures s == a + Trim(s) + b && forall c :: c in a + b ==> IsSpace(c)
    ensures var t := Trim(s);
            t != [] ==> !IsSpace(t[0]) && !IsSpace(t[|t| - 1])
  {
    a := TrimStartIsSuffix(s);
    b := TrimEndIsPrefix(TrimStart(s));
    assert s == a + (Trim(s) + b);
  }

  lemma {:induction false} TrimStartIsSuffix(s: string) returns (a: string)
    ensures s == a + TrimStart(s) && forall c :: c in a ==> IsSpace(c)
    ensures var t := TrimStart(s);
            t != [] ==> !IsSpace(t[0])
  {
    a := [];
    if |s| > 0 && IsSpace(s[0]) {
      var rest := TrimStartIsSuffix(s[1..]);
      a := [s[0]] + rest;
    }
  }

  lemma {:induction false} TrimEndIsPrefix(s: string) returns (b: string)
    ensures s == TrimEnd(s) + b && forall c :: c in b ==> IsSpace(c)
    ensures var t := TrimEnd(s);
            t != [] ==> t[0] == s[0] && !IsSpace(t[|t| - 1])
  {
    b := [];
    if |s| > 0 && IsSpace(s[|s| - 1]) {
      var rest := TrimEndIsPrefix(s[..|s| - 1]);
      b := rest + [s[|s| - 1]];
    }
  }

  ghost predicate FirstNamed(schema: Schema, name: string, i: nat) {
    i < |schema| && schema[i].name == Trim(name) && forall h :: 0 <= h < i ==> schema[h].name != Trim(name)
  }

  ghost predicate Named(schema: Schema, name: string) {
    exists i :: 0 <= i < |schema| && schema[i].name == Trim(name)
  }

  method FindColumnForQuery(schema: Schema, name: string) returns (r: Result<nat, AccessError>)
    ensures r.Ok? <==> Named(schema, name)
    ensures r.Ok? ==> r.value < |schema| && FirstNamed(schema, name, r.value)
    ensures r.Err? ==> r.error == LoadRowsError
  {
    var colIndex, colFound := 0, false;
    var index := 0;
    while index < |schema|
      invariant index <= |schema| && !colFound
      invariant forall h :: 0 <= h < index ==> schema[h].name != Trim(name)
    {
      if schema[index].name == Trim(name) {
        colIndex, colFound := index, true;
        break;
      }
      index := index + 1;
    }
    if !colFound {
      return Err(LoadRowsError);
    }
    r := Ok(colIndex);
  }

  // -------- nested loops --------

  /** The inner rows whose cell j equals a key, in order. */
  function Matches(inner: seq<Row>, j: nat, key: Cell): seq<Row>
    requires forall i :: 0 <= i < |inner| ==> j < |inner[i].cells|
  {
    if |inner| == 0 then []
    else Matches(inner[..|inner| - 1], j, key)
         + if inner[|inner| - 1].cells[j] == key then [inner[|inner| - 1]] else []
  }

  function JoinedWith(row: Row, inner: seq<Row>): (js: seq<RowResult>)
    ensures |js| == |inner|
    ensures forall i :: 0 <= i < |js| ==> js[i] == Ok(Row(row.cells + inner[i].cells))
  {
    seq(|inner|, i requires 0 <= i < |inner| => Ok(Row(row.cells + inner[i].cells)))
  }

  /** The join by nested loops: outer rows in order, for each the matching inner rows in order. */
  function NestedLoops(outer: seq<RowResult>, i: nat, inner: seq<Row>, j: nat): seq<RowResult>
    requires forall k :: 0 <= k < |outer| && outer[k].Ok? ==> i < |outer[k].value.cells|
    requires forall k :: 0 <= k < |inner| ==> j < |inner[k].cells|
  {
    if |outer| == 0 then []
    else
      NestedLoops(outer[..|outer| - 1], i, inner, j) +
      match outer[|outer| - 1]
      case Err(e) => [Err(e)]
      case Ok(row) => JoinedWith(row, Matches(inner, j, row.cells[i]))
  }

  // -------- where joined rows come from --------

  /** The rows at some positions, in the order of the positions, which are all that hold a key. */
  ghost predicate PickedAt(inner: seq<Row>, j: nat, key: Cell, rows: seq<Row>, qs: seq<nat>) {
    && (forall a, b :: 0 <= a < b < |qs| ==> qs[a] < qs[b])
    && |rows| == |qs|
    && (forall a :: 0 <= a < |qs| ==> qs[a] < |inner| && rows[a] == inner[qs[a]])
    && forall q: nat :: q in qs <==> q < |inner| && j < |inner[q].cells| && inner[q].cells[j] == key
  }

  ghost predicate Picked(inner: seq<Row>, j: nat, key: Cell, rows: seq<Row>) {
    exists qs: seq<nat> :: PickedAt(inner, j, key, rows, qs)
  }

  lemma {:induction false} MatchesArePicked(inner: seq<Row>, j: nat, key: Cell) returns (qs: seq<nat>)
    requires forall k :: 0 <= k < |inner| ==> j < |inner[k].cells|
    ensures PickedAt(inner, j, key, Matches(inner, j, key), qs)
  {
    qs := [];
    if |inner| > 0 {
      var n := |inner| - 1;
      var before := MatchesArePicked(inner[..n], j, key);
      qs := before + if inner[n].cells[j] == key then [n] else [];
      forall q: nat ensures q in qs <==> q < |inner| && inner[q].cells[j] == key {
        assert q in before <==> q < n && inner[..n][q].cells[j] == key;
      }
    }
  }

  /** A row of the join is made of outer row p and inner row q, or stands for the error of outer row p. */
  datatype Origin = Joined(p: nat, q: nat) | Failed(p: nat)

  /** Outer rows come in order, and for each of them the inner rows in order. */
  predicate Precedes(a: Origin, b: Origin) { a.p < b.p || (a.p == b.p && a.Joined? && b.Joined? && a.q < b.q) }

  /** Two rows are joined if they agree on the join cells; every error of the outer rows is passed on. */
  ghost predicate Due(outer: seq<RowResult>, i: nat, inner: seq<Row>, j: nat, o: Origin) {
    match o
    case Joined(p, q) =>
      && p < |outer| && outer[p].Ok? && q < |inner| && i < |outer[p].value.cells| && j < |inner[q].cells|
      && outer[p].value.cells[i] == inner[q].cells[j]
    case Failed(p) => p < |outer| && outer[p].Err?
  }

  ghost predicate ComesFrom(outer: seq<RowResult>, inner: seq<Row>, o: Origin, r: RowResult) {
    match o
    case Joined(p, q) =>
      p < |outer| && outer[p].Ok? && q < |inner| && r == Ok(Row(outer[p].value.cells + inner[q].cells))
    case Failed(p) => p < |outer| && r == outer[p]
  }

  ghost predicate JoinedAt(outer: seq<RowResult>, i: nat, inner: seq<Row>, j: nat,
                           rows: seq<RowResult>, os: seq<Origin>) {
    && (forall a, b :: 0 <= a < b < |os| ==> Precedes(os[a], os[b]))
    && |rows| == |os| && (forall a :: 0 <= a < |os| ==> ComesFrom(outer, inner, os[a], rows[a]))
    && forall o :: o in os <==> Due(outer, i, inner, j, o)
  }

  /** Every agreeing pair and every outer error is there once, in order. */
  ghost predicate JoinedInOrder(outer: seq<RowResult>, i: nat, inner: seq<Row>, j: nat, rows: seq<RowResult>) {
    exists os: seq<Origin> :: JoinedAt(outer, i, inner, j, rows, os)
  }

  function Paired(p: nat, qs: seq<nat>): (os: seq<Origin>)
    ensures |os| == |qs| && forall a :: 0 <= a < |os| ==> os[a] == Joined(p, qs[a])
  {
    seq(|qs|, a requires 0 <= a < |qs| => Joined(p, qs[a]))
  }

  lemma {:induction false} NestedLoopsInOrder(outer: seq<RowResult>, i: nat, inner: seq<Row>, j: nat)
    returns (os: seq<Origin>)
    requires forall k :: 0 <= k < |outer| && outer[k].Ok? ==> i < |outer[k].value.cells|
    requires forall k :: 0 <= k < |inner| ==> j < |inner[k].cells|
    ensures JoinedAt(outer, i, inner, j, NestedLoops(outer, i, inner, j), os)
  {
    hide JoinedAt, Matches, PickedAt;
    if |outer| == 0 {
      os := [];
      NothingJoined(i, inner, j);
    } else {
      var n := |outer| - 1;
      var before := NestedLoopsInOrder(outer[..n], i, inner, j);
      var rows := NestedLoops(outer[..n], i, inner, j);
      match outer[n] {
        case Err(e) =>
          JoinedGrows(outer, i, inner, j, rows, before, [Err(e)], [Failed(n)]);
          os := before + [Failed(n)];
        case Ok(row) =>
          var matching := Matches(inner, j, row.cells[i]);
          var qs := MatchesArePicked(inner, j, row.cells[i]);
          LastOrigins(outer, i, inner, j, qs);
          JoinedGrows(outer, i, inner, j, rows, before, JoinedWith(row, matching), Paired(n, qs));
          os := before + Paired(n, qs);
      }
    }
  }

  lemma NothingJoined(i: nat, inner: seq<Row>, j: nat)
    ensures JoinedAt([], i, inner, j, [], [])
  {
  }

  /** One outer row more. */
  lemma JoinedGrows(outer: seq<RowResult>, i: nat, inner: seq<Row>, j: nat,
                    rows: seq<RowResult>, before: seq<Origin>, more: seq<RowResult>, last: seq<Origin>)
    requires |outer| > 0 && JoinedAt(outer[..|outer| - 1], i, inner, j, rows, before)
    requires |more| == |last| && forall a :: 0 <= a < |last| ==> ComesFrom(outer, inner, last[a], more[a])
    requires forall a, b :: 0 <= a < b < |last| ==> Precedes(last[a], last[b])
    requires forall o: Origin :: o in last <==> o.p == |outer| - 1 && Due(outer, i, inner, j, o)
    ensures JoinedAt(outer, i, inner, j, rows + more, before + last)
  {
    OriginsGrow(outer, i, inner, j, before, last);
    var os := before + last;
    forall a, b | 0 <= a < b < |os| ensures Precedes(os[a], os[b]) {
      if a < |before| <= b { assert last[b - |before|] in last; }
    }
    forall a | 0 <= a < |os| ensures ComesFrom(outer, inner, os[a], (rows + more)[a]) {
      if a < |before| { assert ComesFrom(outer[..|outer| - 1], inner, before[a], rows[a]); }
    }
  }

  lemma LastOrigins(outer: seq<RowResult>, i: nat, inner: seq<Row>, j: nat, qs: seq<nat>)
    requires |outer| > 0 && outer[|outer| - 1].Ok? && i < |outer[|outer| - 1].value.cells|
    requires forall k :: 0 <= k < |inner| ==> j < |inner[k].cells|
    requires var key := outer[|outer| - 1].value.cells[i];
             PickedAt(inner, j, key, Matches(inner, j, key), qs)
    ensures forall o: Origin :: o in Paired(|outer| - 1, qs) <==> o.p == |outer| - 1 && Due(outer, i, inner, j, o)
    ensures var last, rows := Paired(|outer| - 1, qs), Matches(inner, j, outer[|outer| - 1].value.cells[i]);
            && |last| == |rows| && (forall a, b :: 0 <= a < b < |last| ==> Precedes(last[a], last[b]))
            && forall a :: 0 <= a < |last| ==>
                 ComesFrom(outer, inner, last[a], Ok(Row(outer[|outer| - 1].value.cells + rows[a].cells)))
  {
    var n := |outer| - 1;
    forall o: Origin | o.p == n && Due(outer, i, inner, j, o) ensures o in Paired(n, qs) {
      var a :| 0 <= a < |qs| && qs[a] == o.q;
      assert Paired(n, qs)[a] == o;
    }
    forall o | o in Paired(n, qs) ensures o.p == n && Due(outer, i, inner, j, o) {
      var a :| 0 <= a < |qs| && Paired(n, qs)[a] == o;
      assert qs[a] in qs;
    }
  }

  lemma OriginsGrow(outer: seq<RowResult>, i: nat, inner: seq<Row>, j: nat, before: seq<Origin>, last: seq<Origin>)
    requires |outer| > 0
    requires forall o :: o in before <==> Due(outer[..|outer| - 1], i, inner, j, o)
    requires forall o: Origin :: o in last <==> o.p == |outer| - 1 && Due(outer, i, inner, j, o)
    ensures forall o :: o in before + last <==> Due(outer, i, inner, j, o)
    ensures forall a :: 0 <= a < |before| ==> before[a].p < |outer| - 1
  {
    forall o ensures o in before + last <==> Due(outer, i, inner, j, o) {
      assert o.p < |outer| - 1 ==> (Due(outer[..|outer| - 1], i, inner, j, o) <==> Due(outer, i, inner, j, o));
    }
    forall a | 0 <= a < |before| ensures before[a].p < |outer| - 1 { assert before[a] in before; }
  }

  // -------- hash join --------

  /** All rows, or the first error. */
  method Collect(rows: seq<RowResult>) returns (r: Result<seq<Row>, AccessError>)
    ensures r.Ok? <==> forall i :: 0 <= i < |rows| ==> rows[i].Ok?
    ensures r.Ok? ==> |r.value| == |rows| && forall i :: 0 <= i < |rows| ==> rows[i] == Ok(r.value[i])
    ensures r.Err? ==> exists i :: 0 <= i < |rows| && rows[i] == Err(r.error) && forall h :: 0 <= h < i ==> rows[h].Ok?
  {
    var all := [];
    var i := 0;
    while i < |rows|
      invariant i <= |rows| && |all| == i && forall h :: 0 <= h < i ==> rows[h] == Ok(all[h])
    {
      if rows[i].Err? {
        return Err(rows[i].error);
      }
      all := all + [rows[i].value];
      i := i + 1;
    }
    r := Ok(all);
  }

  /** The inner rows by their join cell. */
  method BuildTable(inner: seq<Row>, j: nat) returns (table: map<Cell, seq<Row>>)
    requires forall k :: 0 <= k < |inner| ==> j < |inner[k].cells|
    ensures forall key :: Matches(inner, j, key) == if key in table then table[key] else []
    ensures forall key :: Picked(inner, j, key, if key in table then table[key] else [])
  {
    table := map[];
    var n := 0;
    while n < |inner|
      invariant n <= |inner|
      invariant forall key :: Matches(inner[..n], j, key) == if key in table then table[key] else []
    {
      var row := inner[n];
      var key := row.cells[j];
      assert inner[..n + 1][..n] == inner[..n];
      table := table[key := (if key in table then table[key] else []) + [row]];
      n := n + 1;
    }
    assert inner[..n] == inner;
    forall key ensures Picked(inner, j, key, if key in table then table[key] else []) {
      var qs := MatchesArePicked(inner, j, key);
    }
  }

  lemma FirstNamedIsUnique(schema: Schema, name: string, i: nat, j: nat)
    requires FirstNamed(schema, name, i) && FirstNamed(schema, name, j)
    ensures i == j
  {
  }

  /** Where an inner row cannot be loaded the join fails with its error; where an outer row cannot, the
      error takes the place of its joined rows. Otherwise the hash join is the join by nested loops. */
  method HashJoin(outer: Query, inner: Query, thisColumn: string, thatColumn: string)
    returns (r: Result<Query, AccessError>)
    requires outer.Full() && inner.Full()
    ensures !Named(inner.schema, thatColumn) || !Named(outer.schema, thisColumn) ==> r == Err(LoadRowsError)
    ensures forall i, j :: FirstNamed(outer.schema, thisColumn, i) && FirstNamed(inner.schema, thatColumn, j) ==>
              JoinIs(outer, i, inner, j, r)
  {
    var thatCol := FindColumnForQuery(inner.schema, thatColumn);
    if thatCol.Err? { return Err(thatCol.error); }
    var thisCol := FindColumnForQuery(outer.schema, thisColumn);
    if thisCol.Err? { return Err(thisCol.error); }
    r := JoinOn(outer, thisCol.value, inner, thatCol.value);
    forall i, j | FirstNamed(outer.schema, thisColumn, i) && FirstNamed(inner.schema, thatColumn, j)
      ensures JoinIs(outer, i, inner, j, r)
    {
      FirstNamedIsUnique(outer.schema, thisColumn, i, thisCol.value);
      FirstNamedIsUnique(inner.schema, thatColumn, j, thatCol.value);
    }
  }

  method JoinOn(outer: Query, i: nat, inner: Query, j: nat) returns (r: Result<Query, AccessError>)
    requires outer.Full() && inner.Full() && i < |outer.schema| && j < |inner.schema|
    ensures JoinIs(outer, i, inner, j, r)
  {
    hide JoinedAt, Due, ComesFrom, Precedes, PickedAt, Matches;
    if outer.schema[i].colType.Raw() != inner.schema[j].colType.Raw() {
      return Err(LoadRowsError);
    }
    var all := Collect(inner.rows);
    if all.Err? { return Err(all.error); }
    var rows := all.value;
    assert rows == Loaded(inner);
    var table := BuildTable(rows, j);
    var joined: seq<RowResult> := [];
    var n := 0;
    while n < |outer.rows|
      invariant n <= |outer.rows| && joined == NestedLoops(outer.rows[..n], i, rows, j)
    {
      var result: seq<RowResult> := [];
      match outer.rows[n] {
        case Ok(row) =>
          if row.cells[i] in table {
            result := JoinedWith(row, table[row.cells[i]]);
          }
        case Err(e) =>
          result := [Err(e)];
      }
      assert outer.rows[..n + 1][..n] == outer.rows[..n];
      joined := joined + result;
      n := n + 1;
    }
    assert outer.rows[..n] == outer.rows;
    ghost var os := NestedLoopsInOrder(outer.rows, i, rows, j);
    r := Ok(Query(joined, outer.schema + inner.schema));
  }

  /** Lengths of strings do not matter. */
  predicate SameKind(a: ColumnType, b: ColumnType) {
    || (a.IntType? && b.IntType?) || (a.VarcharType? && b.VarcharType?) || (a.ByteType? && b.ByteType?)
  }

  /** What the join of two columns is to be. */
  ghost predicate JoinIs(outer: Query, i: nat, inner: Query, j: nat, r: Result<Query, AccessError>)
    requires outer.Full() && inner.Full() && i < |outer.schema| && j < |inner.schema|
  {
    if !SameKind(outer.schema[i].colType, inner.schema[j].colType) then r == Err(LoadRowsError)
    else if exists k :: 0 <= k < |inner.rows| && inner.rows[k].Err? then
      exists k :: 0 <= k < |inner.rows| && inner.rows[k].Err? && r == Err(inner.rows[k].error)
                  && forall h :: 0 <= h < k ==> inner.rows[h].Ok?
    else
      && r.Ok? && r.value.schema == outer.schema + inner.schema
      && JoinedInOrder(outer.rows, i, Loaded(inner), j, r.value.rows)
  }

  ghost function Loaded(q: Query): (rows: seq<Row>)
    requires q.Full() && forall k :: 0 <= k < |q.rows| ==> q.rows[k].Ok?
    ensures |rows| == |q.rows| && forall k :: 0 <= k < |rows| ==> q.rows[k] == Ok(rows[k])
  {
    seq(|q.rows|, k requires 0 <= k < |q.rows| => q.rows[k].value)
  }

  /** A joined row is an outer and an inner row that agree on the join cells, and each such pair is joined. */
  lemma JoinedRowsAgree(outer: seq<RowResult>, i: nat, inner: seq<Row>, j: nat, rows: seq<RowResult>, row: Row)
    requires JoinedInOrder(outer, i, inner, j, rows)
    ensures Ok(row) in rows <==>
            exists a: Row, b: Row :: Pairs(outer, i, inner, j, a, b) && row == Row(a.cells + b.cells)
  {
    hide JoinedAt, Pairs;
    var os: seq<Origin> :| JoinedAt(outer, i, inner, j, rows, os);
    if Ok(row) in rows { var a, b := JoinedRowHasPair(outer, i, inner, j, rows, os, row); }
    forall a: Row, b: Row | Pairs(outer, i, inner, j, a, b) && row == Row(a.cells + b.cells) ensures Ok(row) in rows {
      PairIsJoined(outer, i, inner, j, rows, os, a, b);
    }
  }

  lemma JoinedRowHasPair(outer: seq<RowResult>, i: nat, inner: seq<Row>, j: nat, rows: seq<RowResult>,
                         os: seq<Origin>, row: Row) returns (a: Row, b: Row)
    requires JoinedAt(outer, i, inner, j, rows, os) && Ok(row) in rows
    ensures Pairs(outer, i, inner, j, a, b) && row == Row(a.cells + b.cells)
  {
    var k :| 0 <= k < |rows| && rows[k] == Ok(row);
    assert os[k] in os && ComesFrom(outer, inner, os[k], rows[k]);
    a, b := outer[os[k].p].value, inner[os[k].q];
  }

  lemma PairIsJoined(outer: seq<RowResult>, i: nat, inner: seq<Row>, j: nat, rows: seq<RowResult>,
                     os: seq<Origin>, a: Row, b: Row)
    requires JoinedAt(outer, i, inner, j, rows, os) && Pairs(outer, i, inner, j, a, b)
    ensures Ok(Row(a.cells + b.cells)) in rows
  {
    var p: nat, q: nat :| p < |outer| && outer[p] == Ok(a) && q < |inner| && inner[q] == b;
    assert Due(outer, i, inner, j, Joined(p, q));
    var k :| 0 <= k < |os| && os[k] == Joined(p, q);
    assert rows[k] == Ok(Row(a.cells + b.cells));
  }

  ghost predicate Pairs(outer: seq<RowResult>, i: nat, inner: seq<Row>, j: nat, a: Row, b: Row) {
    Ok(a) in outer && b in inner && i < |a.cells| && j < |b.cells| && a.cells[i] == b.cells[j]
  }

  lemma JoinedRowsValidate(a: Row, b: Row, s: Schema, t: Schema)
    requires Validates(a, s) && Validates(b, t)
    ensures Validates(Row(a.cells + b.cells), s + t)
  {
    forall k | 0 <= k < |s + t| ensures CellError((a.cells + b.cells)[k], (s + t)[k]) == None {
      assert k < |s| || CellError(b.cells[k - |s|], t[k - |s|]) == None;
    }
  }
}
