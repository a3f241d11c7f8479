/** Rows, their validation against a schema, and their bytes. */
module Rows {
  import opened Bytes
  import opened Wrappers

  // -------- text --------

  predicate Continues(b: Byte) { 0x80 <= b <= 0xbf }

  /** The length of the well-formed UTF-8 sequence at the start of some bytes (section 4 of RFC 3629); 0 if there is
      none. */
  function CharLength(s: seq<Byte>): (n: nat)
    ensures n <= |s| && n <= 4
  {
    if |s| >= 1 && s[0] < 0x80 then 1
    else if |s| >= 2 && 0xc2 <= s[0] <= 0xdf && Continues(s[1]) then 2
    else if |s| >= 3 && Continues(s[2]) && (
         || (s[0] == 0xe0 && 0xa0 <= s[1] <= 0xbf)
         || (0xe1 <= s[0] <= 0xec && Continues(s[1]))
         || (s[0] == 0xed && 0x80 <= s[1] <= 0x9f)
         || (0xee <= s[0] <= 0xef && Continues(s[1]))) then 3
    else if |s| >= 4 && Continues(s[2]) && Continues(s[3]) && (
         || (s[0] == 0xf0 && 0x90 <= s[1] <= 0xbf)
         || (0xf1 <= s[0] <= 0xf3 && Continues(s[1]))
         || (s[0] == 0xf4 && 0x80 <= s[1] <= 0x8f)) then 4
    else 0
  }

  /** A number that stands for a character: no surrogate, and at most 0x10ffff. */
  predicate Scalar(v: nat) { v <= 0x10ffff && !(0xd800 <= v <= 0xdfff) }

  /** The bytes of a character (section 3 of RFC 3629). */
  function CharBytes(v: nat): (b: seq<int>)
    requires Scalar(v)
  {
    if v < 0x80 then [v]
    else if v < 0x800 then [0xc0 + v / 64, 0x80 + v % 64]
    else if v < 0x1_0000 then [0xe0 + v / 4096, 0x80 + v / 64 % 64, 0x80 + v % 64]
    else [0xf0 + v / 0x4_0000, 0x80 + v / 4096 % 64, 0x80 + v / 64 % 64, 0x80 + v % 64]
  }

  lemma Sixes(x: nat, y: nat, z: nat, u: nat)
    requires y < 64 && z < 64 && u < 64
    ensures (x * 64 + y) / 64 == x && (x * 64 + y) % 64 == y
    ensures var v := x * 4096 + y * 64 + z;
            v / 4096 == x && v / 64 % 64 == y && v % 64 == z
    ensures var v := x * 0x4_0000 + y * 4096 + z * 64 + u;
            v / 0x4_0000 == x && v / 4096 % 64 == y && v / 64 % 64 == z && v % 64 == u
  {
    var v := x * 4096 + y * 64 + z;
    assert v / 64 == x * 64 + y;
    var w := x * 0x4_0000 + y * 4096 + z * 64 + u;
    assert w / 64 == x * 4096 + y * 64 + z && w / 4096 == x * 64 + y;
  }

  /** The number whose bytes a character of known length is made of. */
  function CharOf(s: seq<int>): (v: int) {
    if |s| == 1 then s[0]
    else if |s| == 2 then (s[0] - 0xc0) * 64 + (s[1] - 0x80)
    else if |s| == 3 then (s[0] - 0xe0) * 4096 + (s[1] - 0x80) * 64 + (s[2] - 0x80)
    else if |s| == 4 then (s[0] - 0xf0) * 0x4_0000 + (s[1] - 0x80) * 4096 + (s[2] - 0x80) * 64 + (s[3] - 0x80)
    else 0
  }

  lemma TwoAreChar(a: nat, b: nat)
    requires 2 <= a < 0x20 && b < 64
    ensures var v := a * 64 + b;
            Scalar(v) && CharBytes(v) == [0xc0 + a, 0x80 + b]
  {
    Sixes(a, b, 0, 0);
  }

  lemma ThreeAreChar(a: nat, b: nat, c: nat)
    requires a < 16 && b < 64 && c < 64 && (a == 0 ==> 0x20 <= b) && (a == 13 ==> b < 0x20)
    ensures var v := a * 4096 + b * 64 + c;
            Scalar(v) && CharBytes(v) == [0xe0 + a, 0x80 + b, 0x80 + c]
  {
    Sixes(a, b, c, 0);
  }

  lemma FourAreChar(a: nat, b: nat, c: nat, d: nat)
    requires a < 5 && b < 64 && c < 64 && d < 64 && (a == 0 ==> 0x10 <= b) && (a == 4 ==> b < 0x10)
    ensures var v := a * 0x4_0000 + b * 4096 + c * 64 + d;
            Scalar(v) && CharBytes(v) == [0xf0 + a, 0x80 + b, 0x80 + c, 0x80 + d]
  {
    Sixes(a, b, c, d);
  }

  lemma TakenIsChar(s: seq<Byte>)
    requires CharLength(s) > 0
    ensures var v := CharOf(s[..CharLength(s)]);
            v >= 0 && Scalar(v) && CharBytes(v) == s[..CharLength(s)]
  {
    var n := CharLength(s);
    if n == 1 {
      assert CharBytes(s[0]) == s[..1];
    } else if n == 2 {
      TwoAreChar(s[0] as int - 0xc0, s[1] as int - 0x80);
      hide CharBytes;
    } else if n == 3 {
      ThreeAreChar(s[0] as int - 0xe0, s[1] as int - 0x80, s[2] as int - 0x80);
      hide CharBytes;
    } else {
      FourAreChar(s[0] as int - 0xf0, s[1] as int - 0x80, s[2] as int - 0x80, s[3] as int - 0x80);
      hide CharBytes;
    }
  }

  /** What is taken for a character is one, and every character is taken for one. */
  lemma CharLengthIsExact(s: seq<Byte>) returns (v: int)
    ensures CharLength(s) > 0 ==> v >= 0 && Scalar(v) && CharBytes(v) == s[..CharLength(s)]
    ensures CharLength(s) == 0 ==> forall w: nat :: Scalar(w) ==> !(CharBytes(w) <= s)
  {
    hide CharLength, CharBytes, Scalar, CharOf;
    v := CharOf(s[..CharLength(s)]);
    if CharLength(s) > 0 { TakenIsChar(s); }
    forall w: nat | Scalar(w) && CharBytes(w) <= s ensures CharLength(s) > 0 { CharIsTaken(s, w); }
  }

  lemma CharIsTaken(s: seq<Byte>, w: nat)
    requires Scalar(w) && CharBytes(w) <= s
    ensures CharLength(s) > 0
  {
    var b := CharBytes(w);
    assert s[0] == b[0];
    assert |b| > 1 ==> s[1] == b[1];
    assert |b| > 2 ==> s[2] == b[2];
    assert |b| > 3 ==> s[3] == b[3];
  }

  predicate ValidUtf8(s: seq<Byte>) {
    |s| == 0 || (CharLength(s) > 0 && ValidUtf8(s[CharLength(s)..]))
  }

  /** A string, as the bytes it is made of. */
  type Text = s: seq<Byte> | ValidUtf8(s)

  // -------- data --------

  datatype ColumnType = IntType | VarcharType(maxLength: U16) | ByteType {
    /** The type without its length. */
    function Raw(): ColumnType { if VarcharType? then VarcharType(0) else this }
  }

  datatype Column = Column(id: I32, name: string, colType: ColumnType)

  type Schema = seq<Column>

  datatype Cell = IntCell(i: I32) | VarcharCell(text: Text) | ByteCell(b: Byte)

  datatype Row = Row(cells: seq<Cell>)

  datatype ValidationError =
    | LengthMismatch | TypeMismatch(column: string) | VarcharTooLong(maxLength: U16, column: string)

  datatype DeserializationError = InvalidCell(column: string)

  // -------- validation --------

  function CellError(cell: Cell, column: Column): Option<ValidationError> {
    match (cell, column.colType)
    case (IntCell(_), IntType) => None
    case (VarcharCell(text), VarcharType(max)) => if |text| > max then Some(VarcharTooLong(max, column.name)) else None
    case (ByteCell(_), ByteType) => None
    case _ => Some(TypeMismatch(column.name))
  }

  ghost predicate Validates(r: Row, schema: Schema) {
    |r.cells| == |schema| && forall i :: 0 <= i < |schema| ==> CellError(r.cells[i], schema[i]) == None
  }

  /** The first thing wrong with a row. */
  method Validate(r: Row, schema: Schema) returns (result: Result<(), ValidationError>)
    ensures result.Ok? <==> Validates(r, schema)
    ensures result.Err? && |r.cells| != |schema| ==> result.error == LengthMismatch
    ensures result.Err? && |r.cells| == |schema| ==>
              exists i :: 0 <= i < |schema| && CellError(r.cells[i], schema[i]) == Some(result.error)
                          && forall h :: 0 <= h < i ==> CellError(r.cells[h], schema[h]) == None
  {
    if |r.cells| != |schema| {
      return Err(LengthMismatch);
    }
    var i := 0;
    while i < |schema|
      invariant i <= |schema| && forall h :: 0 <= h < i ==> CellError(r.cells[h], schema[h]) == None
    {
      var error := CellError(r.cells[i], schema[i]);
      if error.Some? {
        return Err(error.value);
      }
      i := i + 1;
    }
    result := Ok(());
  }

  // -------- bytes --------

  /** A text is preceded by its length in two bytes, which is all of it only below 65536. */
  function CellBytes(c: Cell): seq<Byte> {
    match c
    case IntCell(i) => I32Bytes(i)
    case VarcharCell(text) => U16Bytes(|text| % 0x1_0000) + text
    case ByteCell(b) => [b]
  }

  function RowBytes(cells: seq<Cell>): seq<Byte> {
    if |cells| == 0 then [] else CellBytes(cells[0]) + RowBytes(cells[1..])
  }

  lemma RowBytesStep(cells: seq<Cell>, i: nat)
    requires i < |cells|
    ensures RowBytes(cells[i..]) == CellBytes(cells[i]) + RowBytes(cells[i + 1..])
  {
    assert cells[i..][1..] == cells[i + 1..];
  }

  lemma NoCellsNoBytes()
    ensures RowBytes([]) == []
  {
  }

  method Serialize(r: Row) returns (bytes: seq<Byte>)
    ensures bytes == RowBytes(r.cells)
  {
    hide RowBytes, CellBytes;
    NoCellsNoBytes();
    bytes := [];
    assert r.cells[0..] == r.cells;
    var i := 0;
    while i < |r.cells|
      invariant i <= |r.cells| && bytes + RowBytes(r.cells[i..]) == RowBytes(r.cells)
    {
      RowBytesStep(r.cells, i);
      bytes := bytes + CellBytes(r.cells[i]);
      i := i + 1;
    }
    assert r.cells[i..] == [];
  }

  /** The next cell, and how many bytes it took. */
  function CellFrom(data: seq<Byte>, column: Column): (r: Result<(Cell, nat), DeserializationError>)
    ensures r.Ok? ==> r.value.1 <= |data|
  {
    match column.colType
    case IntType => if |data| < 4 then Err(InvalidCell(column.name)) else Ok((IntCell(I32From(data[..4])), 4))
    case VarcharType(max) =>
      if |data| < 2 then Err(InvalidCell(column.name))
      else
        var length := U16From(data[..2]);
        if |data| < 2 + length || length > max || !ValidUtf8(data[2..2 + length]) then Err(InvalidCell(column.name))
        else Ok((VarcharCell(data[2..2 + length]), 2 + length))
    case ByteType => if |data| == 0 then Err(InvalidCell(column.name)) else Ok((ByteCell(data[0]), 1))
  }

  function CellsFrom(data: seq<Byte>, schema: Schema): Result<seq<Cell>, DeserializationError>
    decreases |schema|
  {
    if |schema| == 0 then Ok([])
    else match CellFrom(data, schema[0])
      case Err(e) => Err(e)
      case Ok((cell, read)) => Before([cell], CellsFrom(data[read..], schema[1..]))
  }

  function Before(cells: seq<Cell>, r: Result<seq<Cell>, DeserializationError>)
    : Result<seq<Cell>, DeserializationError>
  {
    match r
    case Err(e) => Err(e)
    case Ok(rest) => Ok(cells + rest)
  }

  method Deserialize(data: seq<Byte>, schema: Schema) returns (r: Result<Row, DeserializationError>)
    ensures r == match CellsFrom(data, schema) case Err(e) => Err(e) case Ok(cells) => Ok(Row(cells))
  {
    var cells: seq<Cell> := [];
    var offset := 0;
    var i := 0;
    assert schema[0..] == schema && data[0..] == data;
    if CellsFrom(data, schema).Ok? { assert [] + CellsFrom(data, schema).value == CellsFrom(data, schema).value; }
    while i < |schema|
      invariant i <= |schema| && offset <= |data|
      invariant CellsFrom(data, schema) == Before(cells, CellsFrom(data[offset..], schema[i..]))
    {
      var next := CellFrom(data[offset..], schema[i]);
      if next.Err? {
        return Err(next.error);
      }
      var (cell, read) := next.value;
      assert schema[i..][1..] == schema[i + 1..] && data[offset..][read..] == data[offset + read..];
      BeforeTwice(cells, [cell], CellsFrom(data[offset + read..], schema[i + 1..]));
      cells := cells + [cell];
      offset := offset + read;
      i := i + 1;
    }
    assert cells + [] == cells;
    r := Ok(Row(cells));
  }

  lemma BeforeTwice(a: seq<Cell>, b: seq<Cell>, r: Result<seq<Cell>, DeserializationError>)
    ensures Before(a, Before(b, r)) == Before(a + b, r)
  {
    if r.Ok? { assert a + (b + r.value) == (a + b) + r.value; }
  }

  // -------- where everything lies --------

  /** A number in four bytes, a text behind its length in two, a byte as it is. */
  lemma CellBytesLie(c: Cell)
    ensures c.IntCell? ==> |CellBytes(c)| == 4 && Holds32(CellBytes(c), 0, c.i)
    ensures c.VarcharCell? ==>
              Holds16(CellBytes(c), 0, |c.text| % 0x1_0000) && CellBytes(c)[2..] == c.text
    ensures c.ByteCell? ==> CellBytes(c) == [c.b]
  {
    match c
    case IntCell(i) => I32BytesHold(i);
    case VarcharCell(text) =>
      U16BytesHold(|text| % 0x1_0000);
      assert CellBytes(c)[..2] == U16Bytes(|text| % 0x1_0000);
    case ByteCell(_) =>
  }

  /** Every cell stands behind those before it and in front of those after it. */
  lemma {:induction false} RowBytesLie(cells: seq<Cell>, i: nat)
    requires i < |cells|
    ensures RowBytes(cells) == RowBytes(cells[..i]) + CellBytes(cells[i]) + RowBytes(cells[i + 1..])
  {
    hide CellBytes;
    if i == 0 {
      assert cells[..0] == [];
      assert RowBytes(cells[..0]) == [];
    } else {
      RowBytesLie(cells[1..], i - 1);
      assert cells[1..][..i - 1] == cells[..i][1..] && cells[1..][i..] == cells[i + 1..];
      var first, before, here, after :=
        CellBytes(cells[0]), RowBytes(cells[..i][1..]), CellBytes(cells[i]), RowBytes(cells[i + 1..]);
      assert RowBytes(cells[..i]) == first + before && RowBytes(cells[1..]) == before + here + after;
      hide RowBytes;
      Regrouped(first, before, here, after);
    }
  }

  lemma Regrouped(a: seq<Byte>, b: seq<Byte>, c: seq<Byte>, d: seq<Byte>)
    ensures a + (b + c + d) == a + b + c + d
  {
  }

  /** Where the bytes give no row, the error names the first column that cannot be read. */
  lemma {:induction false} ErrorNamesTheColumn(data: seq<Byte>, schema: Schema) returns (i: nat)
    requires CellsFrom(data, schema).Err?
    ensures i < |schema| && CellsFrom(data, schema).error == InvalidCell(schema[i].name)
    ensures CellsFrom(data, schema[..i]).Ok? && CellsFrom(data, schema[..i + 1]).Err?
    decreases |schema|
  {
    match CellFrom(data, schema[0]) {
      case Err(e) =>
        i := 0;
      case Ok((cell, read)) =>
        var k := ErrorNamesTheColumn(data[read..], schema[1..]);
        i := k + 1;
        assert schema[..i][1..] == schema[1..][..k] && schema[..i + 1][1..] == schema[1..][..k + 1];
        assert schema[..i][0] == schema[0] && schema[..i + 1][0] == schema[0];
    }
  }

  /** A row fits a schema if there is a cell of the type for every column, and no text is too long. */
  lemma ValidatesExactlyWhen(r: Row, schema: Schema)
    ensures Validates(r, schema) <==>
            && |r.cells| == |schema|
            && forall i :: 0 <= i < |schema| ==>
                 || (r.cells[i].IntCell? && schema[i].colType.IntType?)
                 || (r.cells[i].ByteCell? && schema[i].colType.ByteType?)
                 || (r.cells[i].VarcharCell? && schema[i].colType.VarcharType?
                     && |r.cells[i].text| <= schema[i].colType.maxLength)
  {
  }

  // -------- round trips --------

  /** Bytes that start with those of a fitting cell give that cell. */
  lemma FitsAndLeads(data: seq<Byte>, column: Column, cell: Cell)
    requires CellError(cell, column) == None && CellBytes(cell) <= data
    ensures CellFrom(data, column) == Ok((cell, |CellBytes(cell)|))
  {
    var b := CellBytes(cell);
    match cell {
      case IntCell(i) =>
        assert data[..4] == b;
        I32RoundTrip(i);
      case VarcharCell(text) =>
        assert data[..2] == b[..2] == U16Bytes(|text|);
        U16RoundTrip(|text|);
        assert data[2..2 + |text|] == b[2..] == text;
      case ByteCell(x) =>
        assert data[0] == b[0];
    }
  }

  /** A cell that was read fits its column, and its bytes are those that were read. */
  lemma Consumed(data: seq<Byte>, column: Column)
    requires CellFrom(data, column).Ok?
    ensures var (cell, read) := CellFrom(data, column).value;
            CellError(cell, column) == None && read <= |data| && CellBytes(cell) == data[..read]
  {
    match column.colType {
      case IntType =>
        I32BytesUnique(data[..4]);
      case VarcharType(max) =>
        var length := U16From(data[..2]);
        U16BytesUnique(data[..2]);
        assert data[..2 + length] == data[..2] + data[2..2 + length];
      case ByteType =>
    }
  }

  /** A row that was read validates, and its bytes are those that were read. */
  lemma {:induction false} ReadRowIsValid(data: seq<Byte>, schema: Schema)
    requires CellsFrom(data, schema).Ok?
    ensures var cells := CellsFrom(data, schema).value;
            Validates(Row(cells), schema) && RowBytes(cells) <= data
    decreases |schema|
  {
    hide CellFrom, CellBytes, CellError, Validates;
    if |schema| > 0 {
      var (cell, read) := CellFrom(data, schema[0]).value;
      var rest := CellsFrom(data[read..], schema[1..]).value;
      Consumed(data, schema[0]);
      ReadRowIsValid(data[read..], schema[1..]);
      var cells := [cell] + rest;
      assert cells[1..] == rest;
      ValidatesApart(cells, schema);
      assert RowBytes(cells) == data[..read] + RowBytes(rest);
    } else {
      NothingValidates(schema);
    }
  }

  lemma NothingValidates(schema: Schema)
    requires |schema| == 0
    ensures Validates(Row([]), schema)
  {
  }

  lemma PrefixApart(a: seq<Byte>, b: seq<Byte>, data: seq<Byte>)
    requires a + b <= data
    ensures a <= data && b <= data[|a|..]
  {
    assert a == data[..|a|];
    assert b == data[|a|..][..|b|];
  }

  lemma AsManyCells(cells: seq<Cell>, schema: Schema)
    requires Validates(Row(cells), schema)
    ensures |cells| == |schema|
  {
  }

  /** A valid row is read from any bytes that start with its own. */
  lemma {:induction false} ValidRowIsRead(data: seq<Byte>, schema: Schema, cells: seq<Cell>)
    requires Validates(Row(cells), schema) && RowBytes(cells) <= data
    ensures CellsFrom(data, schema) == Ok(cells)
    decreases |schema|
  {
    hide CellFrom, CellBytes, CellError, Validates, ValidUtf8;
    AsManyCells(cells, schema);
    if |schema| > 0 {
      ValidatesApart(cells, schema);
      var first, rest := CellBytes(cells[0]), RowBytes(cells[1..]);
      PrefixApart(first, rest, data);
      FitsAndLeads(data, schema[0], cells[0]);
      ValidRowIsRead(data[|first|..], schema[1..], cells[1..]);
      assert cells == [cells[0]] + cells[1..];
    }
  }

  /** Some bytes give a row exactly when they start with the row's own bytes and the row validates. */
  lemma RowFromIsInverse(data: seq<Byte>, schema: Schema, cells: seq<Cell>)
    ensures CellsFrom(data, schema) == Ok(cells) <==> Validates(Row(cells), schema) && RowBytes(cells) <= data
  {
    hide CellsFrom, Validates, RowBytes;
    if CellsFrom(data, schema).Ok? { ReadRowIsValid(data, schema); }
    if Validates(Row(cells), schema) && RowBytes(cells) <= data { ValidRowIsRead(data, schema, cells); }
  }

  lemma ValidatesApart(cells: seq<Cell>, schema: Schema)
    requires |schema| > 0 && |cells| > 0
    ensures Validates(Row(cells), schema)
            <==> CellError(cells[0], schema[0]) == None && Validates(Row(cells[1..]), schema[1..])
  {
    if CellError(cells[0], schema[0]) == None && Validates(Row(cells[1..]), schema[1..]) {
      forall i | 0 <= i < |schema| ensures CellError(cells[i], schema[i]) == None {
        assert i == 0 || CellError(cells[1..][i - 1], schema[1..][i - 1]) == None;
      }
    }
  }

  /** A row survives its bytes, whatever follows them, exactly when it validates. */
  lemma RoundTripIsExactWhen(r: Row, schema: Schema, tail: seq<Byte>)
    ensures CellsFrom(RowBytes(r.cells) + tail, schema) == Ok(r.cells) <==> Validates(r, schema)
  {
    RowFromIsInverse(RowBytes(r.cells) + tail, schema, r.cells);
  }

  /** Rows of one schema are told apart by their bytes, even as prefixes. */
  lemma BytesTellRowsApart(r: Row, s: Row, schema: Schema)
    requires Validates(r, schema) && Validates(s, schema) && RowBytes(r.cells) <= RowBytes(s.cells)
    ensures r == s
  {
    RowFromIsInverse(RowBytes(s.cells), schema, r.cells);
    RowFromIsInverse(RowBytes(s.cells), schema, s.cells);
  }
}
