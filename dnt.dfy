/** The DNT table decoder: a four-byte zero header, a u16 column count and a
    u32 row count, the column schema (name and type tag per column), then
    the rows, each decoded cell by cell in column order. A synthetic `id`
    column of type u32 precedes the on-disk schema. */
module Dnt {
  import opened Bytes
  import opened Records

  /** The cell decoders that a column can name. */
  datatype CellType = VarcharCell | BoolCell | IntCell | FloatCell

  /** A decoded cell; a float is kept as its raw IEEE-754 bit pattern. */
  datatype Cell = Str(text: string) | Flag(b: bool) | UInt(n: U32) | FloatBits(bits: U32)

  datatype Column = Column(name: string, kind: CellType)

  type Row = seq<Cell>

  datatype Table = Table(columns: seq<Column>, rows: seq<Row>)

  const Header: seq<Byte> := [0, 0, 0, 0]

  /** `\x05THEND`: the end-of-table marker of the format; never read. */
  const Tail: seq<Byte> := [0x05, 0x54, 0x48, 0x45, 0x4E, 0x44]

  /** Column type tags and the cell decoder each selects. */
  const TypeMap: map<Byte, CellType> :=
    map[1 := VarcharCell, 2 := BoolCell, 3 := IntCell, 4 := FloatCell, 5 := FloatCell]

  /** The column put in front of the on-disk schema. */
  const IdColumn: Column := Column("id", IntCell)

  /** Offset of the schema: header (4 bytes) plus the `<HI` counts (6 bytes). */
  const SchemaStart: nat := 10

  predicate HasType(c: Cell, t: CellType)
  {
    match t
    case VarcharCell => c.Str?
    case BoolCell => c.Flag?
    case IntCell => c.UInt?
    case FloatCell => c.FloatBits?
  }

  /** One cell per column, each of its column's type. */
  predicate RowFits(row: Row, columns: seq<Column>)
  {
    |row| == |columns| && forall j :: 0 <= j < |row| ==> HasType(row[j], columns[j].kind)
  }

  // ---------------------------------------------------------------------
  // Cell decoders
  // ---------------------------------------------------------------------

  /** parse_byte: one unsigned byte. */
  function ParseByte(data: seq<Byte>, pos: nat): (r: Result<Parsed<Byte>>)
    ensures r.Ok? <==> pos < |data|
    ensures r.Err? ==> r.error == Truncated
    ensures r.Ok? ==> r.value == Parsed(data[pos], pos + 1)
  {
    var chunk := ReadAt(data, pos, 1);
    if |chunk.value| != 1 then Err(Truncated) else Ok(Parsed(chunk.value[0], chunk.next))
  }

  /** parse_varchar: a u16 length prefix, then the body decoded as text.
      Only the prefix read is checked; a body cut short by the end of the
      file is decoded as it is. */
  function ParseVarchar(data: seq<Byte>, pos: nat, decode: Codec): (r: Result<Parsed<string>>)
    ensures r.Ok? ==> pos + 2 <= r.value.next <= |data|
  {
    var prefix := ReadAt(data, pos, 2);
    if |prefix.value| != 2 then Err(Truncated)
    else
      var body := ReadAt(data, prefix.next, LeU16(prefix.value));
      assert body.value == data[pos + 2..body.next];
      match decode(body.value)
      case None => Err(Undecodable)
      case Some(text) => Ok(Parsed(text, body.next))
  }

  /** parse_bool: four bytes, of which only the first is read (nonzero is
      true); the other three are padding. */
  function ParseBool(data: seq<Byte>, pos: nat): (r: Result<Parsed<bool>>)
    ensures r.Ok? <==> pos + 4 <= |data|
    ensures r.Err? ==> r.error == Truncated
    ensures r.Ok? ==> r.value == Parsed(data[pos] != 0, pos + 4)
  {
    var chunk := ReadAt(data, pos, 4);
    if |chunk.value| != 4 then Err(Truncated) else Ok(Parsed(chunk.value[0] != 0, chunk.next))
  }

  /** The decoder a column's type names: parse_varchar, parse_bool,
      parse_int, or parse_float (which keeps the raw little-endian bits). */
  function ParseCell(kind: CellType, data: seq<Byte>, pos: nat, decode: Codec): (r: Result<Parsed<Cell>>)
    ensures r.Ok? ==> HasType(r.value.value, kind) && pos < r.value.next <= |data|
  {
    match kind
    case VarcharCell =>
      var s := ParseVarchar(data, pos, decode);
      if s.Err? then Err(s.error) else Ok(Parsed(Str(s.value.value), s.value.next))
    case BoolCell =>
      var b := ParseBool(data, pos);
      if b.Err? then Err(b.error) else Ok(Parsed(Flag(b.value.value), b.value.next))
    case IntCell =>
      var n := UnpackU32(data, pos);
      if n.Err? then Err(n.error) else Ok(Parsed(UInt(n.value.value), n.value.next))
    case FloatCell =>
      var n := UnpackU32(data, pos);
      if n.Err? then Err(n.error) else Ok(Parsed(FloatBits(n.value.value), n.value.next))
  }

  // ---------------------------------------------------------------------
  // Schema
  // ---------------------------------------------------------------------

  /** Python's `s[1:]`: the text with exactly its first character removed,
      whatever that character is; empty stays empty. */
  function DropFirst(s: string): (r: string)
    ensures |s| > 0 ==> [s[0]] + r == s
    ensures |s| == 0 ==> r == []
  {
    if |s| == 0 then [] else s[1..]
  }

  /** parse_column: a varchar name (first character dropped) followed by a
      one-byte type tag looked up in the type map. */
  function ParseColumn(data: seq<Byte>, pos: nat, decode: Codec): (r: Result<Parsed<Column>>)
    ensures r.Ok? ==> pos < r.value.next <= |data|
  {
    var name := ParseVarchar(data, pos, decode);
    if name.Err? then Err(name.error)
    else
      var tag := ParseByte(data, name.value.next);
      if tag.Err? then Err(tag.error)
      else if tag.value.value !in TypeMap then Err(UnknownColumnType(tag.value.value))
      else Ok(Parsed(Column(DropFirst(name.value.value), TypeMap[tag.value.value]), tag.value.next))
  }

  /** The layout parse_varchar reads: a u16 length at `pos`, then that many
      bytes, or fewer when the file ends first; only the prefix can be
      truncated, and undecodable text is the only other failure. */
  lemma VarcharLayout(data: seq<Byte>, pos: nat, decode: Codec)
    ensures pos + 2 > |data| ==> ParseVarchar(data, pos, decode) == Err(Truncated)
    ensures pos + 2 <= |data| ==>
      var end := Min(pos + 2 + data[pos] as int + 0x100 * (data[pos + 1] as int), |data|);
      var r := ParseVarchar(data, pos, decode);
      && (r.Ok? <==> decode(data[pos + 2..end]).Some?)
      && (r.Err? ==> r.error == Undecodable)
      && (r.Ok? ==> r.value == Parsed(decode(data[pos + 2..end]).value, end))
  {
  }

  /** What each cell decoder reads: a varchar as parse_varchar does, every
      other kind exactly four bytes, truncated when fewer remain. */
  lemma CellLayout(kind: CellType, data: seq<Byte>, pos: nat, decode: Codec)
    ensures kind == VarcharCell ==>
      var r := ParseCell(kind, data, pos, decode);
      (r.Ok? <==> ParseVarchar(data, pos, decode).Ok?) &&
      (r.Err? ==> r.error == ParseVarchar(data, pos, decode).error) &&
      (r.Ok? ==> r.value == Parsed(Str(ParseVarchar(data, pos, decode).value.value),
                                   ParseVarchar(data, pos, decode).value.next))
    ensures kind != VarcharCell ==>
      var r := ParseCell(kind, data, pos, decode);
      (r.Ok? <==> pos + 4 <= |data|) &&
      (r.Err? ==> r.error == Truncated) &&
      (r.Ok? ==> r.value.next == pos + 4)
    ensures kind == BoolCell && ParseCell(kind, data, pos, decode).Ok? ==>
      ParseCell(kind, data, pos, decode).value.value == Flag(data[pos] != 0)
    ensures kind == IntCell && ParseCell(kind, data, pos, decode).Ok? ==>
      ParseCell(kind, data, pos, decode).value.value
        == UInt(LeValue(data[pos], data[pos + 1], data[pos + 2], data[pos + 3]))
    ensures kind == FloatCell && ParseCell(kind, data, pos, decode).Ok? ==>
      ParseCell(kind, data, pos, decode).value.value
        == FloatBits(LeValue(data[pos], data[pos + 1], data[pos + 2], data[pos + 3]))
  {
  }

  /** What parse_column reads: a varchar name, then a tag byte that must be
      present and must be a key of the type map. */
  lemma ColumnLayout(data: seq<Byte>, pos: nat, decode: Codec)
    ensures ParseVarchar(data, pos, decode).Err? ==>
      ParseColumn(data, pos, decode) == Err(ParseVarchar(data, pos, decode).error)
    ensures ParseVarchar(data, pos, decode).Ok? ==>
      var name := ParseVarchar(data, pos, decode).value;
      var r := ParseColumn(data, pos, decode);
      && (name.next >= |data| ==> r == Err(Truncated))
      && (name.next < |data| && data[name.next] !in TypeMap ==>
            r == Err(UnknownColumnType(data[name.next])))
      && (name.next < |data| && data[name.next] in TypeMap ==>
            r == Ok(Parsed(Column(DropFirst(name.value), TypeMap[data[name.next]]), name.next + 1)))
  {
  }

  /** One column record as a record decoder. */
  function ColumnRecord(decode: Codec): Decoder<Column>
  {
    (d: seq<Byte>, p: nat) => ParseColumn(d, p, decode)
  }

  /** The first `k` column records from `pos`, back to back. */
  function ColumnsAt(data: seq<Byte>, pos: nat, k: nat, decode: Codec): (r: Result<Parsed<seq<Column>>>)
    ensures r.Ok? ==> |r.value.value| == k
  {
    Many(data, pos, k, ColumnRecord(decode))
  }

  // ---------------------------------------------------------------------
  // Rows
  // ---------------------------------------------------------------------

  /** The cells of one row from `pos`, one per column, in column order. */
  function CellsAt(data: seq<Byte>, pos: nat, columns: seq<Column>, decode: Codec): (r: Result<Parsed<Row>>)
    ensures r.Ok? ==> RowFits(r.value.value, columns) && pos <= r.value.next
    decreases |columns|
  {
    if columns == [] then Ok(Parsed([], pos))
    else
      var init := CellsAt(data, pos, columns[..|columns| - 1], decode);
      if init.Err? then Err(init.error)
      else
        var cell := ParseCell(columns[|columns| - 1].kind, data, init.value.next, decode);
        if cell.Err? then Err(cell.error)
        else Ok(Parsed(init.value.value + [cell.value.value], cell.value.next))
  }

  /** One row under `columns` as a record decoder. */
  function RowRecord(columns: seq<Column>, decode: Codec): Decoder<Row>
  {
    (d: seq<Byte>, p: nat) => CellsAt(d, p, columns, decode)
  }

  /** The first `k` rows from `pos`, back to back. */
  function RowsAt(data: seq<Byte>, pos: nat, columns: seq<Column>, k: nat, decode: Codec)
    : (r: Result<Parsed<seq<Row>>>)
    ensures r.Ok? ==> |r.value.value| == k
  {
    Many(data, pos, k, RowRecord(columns, decode))
  }

  // ---------------------------------------------------------------------
  // The whole file
  // ---------------------------------------------------------------------

  /** The table a DNT file decodes to, with the offset where decoding
      stopped; all or nothing. */
  function DecodeTable(data: seq<Byte>, decode: Codec): (r: Result<Parsed<Table>>)
    ensures r.Ok? ==> |data| >= SchemaStart && data[..4] == Header
    ensures r.Ok? ==>
      var t := r.value.value;
      && |t.columns| == ColumnCount(data) + 1
      && t.columns[0] == IdColumn
      && |t.rows| == RowCount(data)
  {
    if ReadAt(data, 0, 4).value != Header then Err(BadHeader)
    else if |ReadAt(data, 4, 6).value| != 6 then Err(Truncated)
    else
      var schema := ColumnsAt(data, SchemaStart, ColumnCount(data), decode);
      if schema.Err? then Err(schema.error)
      else
        var columns := [IdColumn] + schema.value.value;
        var rows := RowsAt(data, schema.value.next, columns, RowCount(data), decode);
        if rows.Err? then Err(rows.error)
        else Ok(Parsed(Table(columns, rows.value.value), rows.value.next))
  }

  /** The `<H` column count after the header. */
  function ColumnCount(data: seq<Byte>): (n: U16)
    requires |data| >= SchemaStart
    ensures n == (data[4] as int) + 0x100 * (data[5] as int)
  {
    LeU16(data[4..6])
  }

  /** The `<I` row count after the column count. */
  function RowCount(data: seq<Byte>): (n: U32)
    requires |data| >= SchemaStart
    ensures n == (data[6] as int) + 0x100 * (data[7] as int)
                 + 0x1_0000 * (data[8] as int) + 0x100_0000 * (data[9] as int)
  {
    LeU32(data[6..10])
  }

  /** The table alone, as the caller of the decoder sees it. */
  function TableOf(r: Result<Parsed<Table>>): Result<Table>
  {
    match r
    case Ok(p) => Ok(p.value)
    case Err(e) => Err(e)
  }

  /** The decode succeeds exactly as its parts do: a zero header, the
      two counts, the schema records, then the rows under `id` plus that
      schema. */
  lemma DecodedFrom(data: seq<Byte>, decode: Codec, schema: Parsed<seq<Column>>, rows: Parsed<seq<Row>>)
    requires |data| >= SchemaStart && data[..4] == Header
    requires ColumnsAt(data, SchemaStart, ColumnCount(data), decode) == Ok(schema)
    requires RowsAt(data, schema.next, [IdColumn] + schema.value, RowCount(data), decode) == Ok(rows)
    ensures DecodeTable(data, decode) == Ok(Parsed(Table([IdColumn] + schema.value, rows.value), rows.next))
  {
    assert ReadAt(data, 0, 4).value == data[..4];
  }

  /** Conversely, a successful decode is made of a decoded schema and
      decoded rows, as above. */
  lemma TableParts(data: seq<Byte>, decode: Codec)
    requires DecodeTable(data, decode).Ok?
    ensures |data| >= SchemaStart && data[..4] == Header
    ensures ColumnsAt(data, SchemaStart, ColumnCount(data), decode).Ok?
    ensures
      var schema := ColumnsAt(data, SchemaStart, ColumnCount(data), decode).value;
      var rows := RowsAt(data, schema.next, [IdColumn] + schema.value, RowCount(data), decode);
      && rows.Ok?
      && DecodeTable(data, decode)
         == Ok(Parsed(Table([IdColumn] + schema.value, rows.value.value), rows.value.next))
  {
  }

  /** Every row decoded by RowsAt fits the columns it was decoded under. */
  lemma RowsFit(data: seq<Byte>, pos: nat, columns: seq<Column>, k: nat, decode: Codec)
    requires RowsAt(data, pos, columns, k, decode).Ok?
    ensures forall i :: 0 <= i < k ==> RowFits(RowsAt(data, pos, columns, k, decode).value.value[i], columns)
  {
    forall i | 0 <= i < k
      ensures RowFits(RowsAt(data, pos, columns, k, decode).value.value[i], columns)
    {
      ManyAt(data, pos, k, i, RowRecord(columns, decode));
    }
  }

  /** A decoded table is well typed: every row holds one cell per column,
      each of the kind its column names. */
  lemma TableFits(data: seq<Byte>, decode: Codec)
    requires DecodeTable(data, decode).Ok?
    ensures
      var t := DecodeTable(data, decode).value.value;
      forall i :: 0 <= i < |t.rows| ==> RowFits(t.rows[i], t.columns)
  {
    TableParts(data, decode);
    var schema := ColumnsAt(data, SchemaStart, ColumnCount(data), decode).value;
    RowsFit(data, schema.next, [IdColumn] + schema.value, RowCount(data), decode);
  }

  /** A schema that does not decode fails the whole decode with the
      schema's error; no row is read. */
  lemma SchemaFails(data: seq<Byte>, decode: Codec)
    requires |data| >= SchemaStart && data[..4] == Header
    requires ColumnsAt(data, SchemaStart, ColumnCount(data), decode).Err?
    ensures DecodeTable(data, decode) == Err(ColumnsAt(data, SchemaStart, ColumnCount(data), decode).error)
  {
    assert ReadAt(data, 0, 4).value == data[..4];
  }

  // ---------------------------------------------------------------------
  // The decoder as the source runs it: one cursor, loops
  // ---------------------------------------------------------------------

  /** parse_row: one cell per column, read from the cursor in column order. */
  method ParseRow(data: seq<Byte>, pos: nat, columns: seq<Column>, decode: Codec)
    returns (r: Result<Parsed<Row>>)
    ensures r == CellsAt(data, pos, columns, decode)
  {
    var cells: Row := [];
    var cursor := pos;
    var j := 0;
    while j < |columns|
      invariant 0 <= j <= |columns|
      invariant CellsAt(data, pos, columns[..j], decode) == Ok(Parsed(cells, cursor))
    {
      assert columns[..j + 1][..j] == columns[..j];
      var cell := ParseCell(columns[j].kind, data, cursor, decode);
      if cell.Err? {
        CellsFailFrom(data, pos, columns, j + 1, |columns|, decode);
        assert columns[..|columns|] == columns;
        return Err(cell.error);
      }
      cells := cells + [cell.value.value];
      cursor := cell.value.next;
      j := j + 1;
    }
    assert columns[..|columns|] == columns;
    r := Ok(Parsed(cells, cursor));
  }

  /** The `ncols` column records of DNTFile.__init__ (the generator given
      to `columns.extend`), read from the cursor one after another. */
  method ParseSchema(data: seq<Byte>, pos: nat, ncols: nat, decode: Codec)
    returns (r: Result<Parsed<seq<Column>>>)
    ensures r == ColumnsAt(data, pos, ncols, decode)
  {
    var columns: seq<Column> := [];
    var cursor := pos;
    var i := 0;
    while i < ncols
      invariant 0 <= i <= ncols
      invariant ColumnsAt(data, pos, i, decode) == Ok(Parsed(columns, cursor))
    {
      var col := ParseColumn(data, cursor, decode);
      if col.Err? {
        ManyFailFrom(data, pos, i + 1, ncols, ColumnRecord(decode));
        return Err(col.error);
      }
      assert ColumnsAt(data, pos, i + 1, decode) == Ok(Parsed(columns + [col.value.value], col.value.next));
      columns := columns + [col.value.value];
      cursor := col.value.next;
      i := i + 1;
    }
    r := Ok(Parsed(columns, cursor));
  }

  /** The `nrows` rows of DNTFile.__init__, each one call of parse_row. */
  method ParseRows(data: seq<Byte>, pos: nat, columns: seq<Column>, nrows: nat, decode: Codec)
    returns (r: Result<Parsed<seq<Row>>>)
    ensures r == RowsAt(data, pos, columns, nrows, decode)
  {
    var rows: seq<Row> := [];
    var cursor := pos;
    var k := 0;
    while k < nrows
      invariant 0 <= k <= nrows
      invariant RowsAt(data, pos, columns, k, decode) == Ok(Parsed(rows, cursor))
    {
      var row := ParseRow(data, cursor, columns, decode);
      if row.Err? {
        ManyFailFrom(data, pos, k + 1, nrows, RowRecord(columns, decode));
        return Err(row.error);
      }
      rows := rows + [row.value.value];
      cursor := row.value.next;
      k := k + 1;
    }
    r := Ok(Parsed(rows, cursor));
  }

  /** DNTFile.__init__: header, counts, schema (after the `id` column), rows. */
  method LoadTable(data: seq<Byte>, decode: Codec) returns (r: Result<Table>)
    ensures r == TableOf(DecodeTable(data, decode))
  {
    var head := ReadAt(data, 0, 4);
    if head.value != Header {
      return Err(BadHeader);
    }
    var counts := ReadAt(data, head.next, 6);
    if |counts.value| != 6 {
      return Err(Truncated);
    }
    assert counts.value == data[4..10];
    var ncols := LeU16(counts.value[..2]);
    var nrows := LeU32(counts.value[2..]);
    assert ncols == ColumnCount(data) && nrows == RowCount(data);
    var schema := ParseSchema(data, counts.next, ncols, decode);
    if schema.Err? {
      return Err(schema.error);
    }
    var columns := [IdColumn] + schema.value.value;
    var rows := ParseRows(data, schema.value.next, columns, nrows, decode);
    if rows.Err? {
      return Err(rows.error);
    }
    r := Ok(Table(columns, rows.value.value));
  }

  // ---------------------------------------------------------------------
  // A failure anywhere fails the whole decode
  // ---------------------------------------------------------------------

  lemma {:induction false} CellsFailFrom(data: seq<Byte>, pos: nat, columns: seq<Column>, j: nat, n: nat, decode: Codec)
    requires j <= n <= |columns| && CellsAt(data, pos, columns[..j], decode).Err?
    ensures CellsAt(data, pos, columns[..n], decode) == CellsAt(data, pos, columns[..j], decode)
    decreases n
  {
    if n > j {
      CellsFailFrom(data, pos, columns, j, n - 1, decode);
      assert columns[..n][..n - 1] == columns[..n - 1];
      var init := CellsAt(data, pos, columns[..n - 1], decode);
      assert CellsAt(data, pos, columns[..n], decode) == Err(init.error);
    }
  }

  // ---------------------------------------------------------------------
  // Where each column and cell comes from
  // ---------------------------------------------------------------------

  /** Cell `j` of a row is decoded by column `j`'s decoder, starting where
      cell `j - 1` ended. */
  lemma {:induction false} CellAt(data: seq<Byte>, pos: nat, columns: seq<Column>, j: nat, decode: Codec)
    requires CellsAt(data, pos, columns, decode).Ok? && j < |columns|
    ensures CellsAt(data, pos, columns[..j], decode).Ok? && CellsAt(data, pos, columns[..j + 1], decode).Ok?
    ensures ParseCell(columns[j].kind, data, CellsAt(data, pos, columns[..j], decode).value.next, decode)
            == Ok(Parsed(CellsAt(data, pos, columns, decode).value.value[j],
                         CellsAt(data, pos, columns[..j + 1], decode).value.next))
    decreases |columns|
  {
    var n := |columns|;
    var init := columns[..n - 1];
    var prefix := CellsAt(data, pos, init, decode);
    assert prefix.Ok?;
    var last := ParseCell(columns[n - 1].kind, data, prefix.value.next, decode);
    assert CellsAt(data, pos, columns, decode)
           == Ok(Parsed(prefix.value.value + [last.value.value], last.value.next));
    if j == n - 1 {
      assert columns[..j + 1] == columns;
      assert columns[..j] == init;
    } else {
      CellAt(data, pos, init, j, decode);
      assert init[..j] == columns[..j];
      assert init[..j + 1] == columns[..j + 1];
    }
  }

  /** Column `j` of a table is schema column `j - 1`: `id` comes first. */
  lemma AfterId(schema: seq<Column>, j: nat)
    requires 1 <= j <= |schema|
    ensures ([IdColumn] + schema)[j] == schema[j - 1]
  {
  }

  /** Decoding `k` column records yields, at index `j` counted from `id`,
      the record that starts where the first `j - 1` end. */
  lemma SchemaColumn(data: seq<Byte>, pos: nat, k: nat, j: nat, decode: Codec)
    requires ColumnsAt(data, pos, k, decode).Ok?
    requires 1 <= j <= k
    ensures ColumnsAt(data, pos, j - 1, decode).Ok?
    ensures
      var record := ParseColumn(data, ColumnsAt(data, pos, j - 1, decode).value.next, decode);
      record.Ok? && record.value.value == ([IdColumn] + ColumnsAt(data, pos, k, decode).value.value)[j]
  {
    ManyAt(data, pos, k, j - 1, ColumnRecord(decode));
    AfterId(ColumnsAt(data, pos, k, decode).value.value, j);
  }

  /** A decoded table's schema: column `j` (after `id`) is the column
      record decoded where the first `j - 1` records end; ColumnLayout
      says what such a record holds. */
  lemma TableColumn(data: seq<Byte>, decode: Codec, t: Table, end: nat, j: nat)
    requires DecodeTable(data, decode) == Ok(Parsed(t, end))
    requires 1 <= j < |t.columns|
    ensures ColumnsAt(data, SchemaStart, j - 1, decode).Ok?
    ensures
      var record := ParseColumn(data, ColumnsAt(data, SchemaStart, j - 1, decode).value.next, decode);
      record.Ok? && record.value.value == t.columns[j]
  {
    TableParts(data, decode);
    SchemaColumn(data, SchemaStart, ColumnCount(data), j, decode);
  }

  /** A decoded table's rows: row `i` is decoded column by column from
      where row `i - 1` ended, the first right after the schema. */
  lemma TableRow(data: seq<Byte>, decode: Codec, t: Table, end: nat, i: nat)
    requires DecodeTable(data, decode) == Ok(Parsed(t, end))
    requires i < |t.rows|
    ensures
      var schema := ColumnsAt(data, SchemaStart, |t.columns| - 1, decode);
      && schema.Ok?
      && RowsAt(data, schema.value.next, t.columns, i, decode).Ok?
      && RowsAt(data, schema.value.next, t.columns, i + 1, decode).Ok?
      && CellsAt(data, RowsAt(data, schema.value.next, t.columns, i, decode).value.next, t.columns, decode)
         == Ok(Parsed(t.rows[i], RowsAt(data, schema.value.next, t.columns, i + 1, decode).value.next))
  {
    TableParts(data, decode);
    var schema := ColumnsAt(data, SchemaStart, ColumnCount(data), decode);
    ManyAt(data, schema.value.next, RowCount(data), i, RowRecord(t.columns, decode));
  }

  // ---------------------------------------------------------------------
  // Failures
  // ---------------------------------------------------------------------

  /** A header other than four zero bytes (a file shorter than four bytes
      included) fails the decode, whatever follows it. */
  lemma BadHeaderFails(data: seq<Byte>, decode: Codec)
    requires !(|data| >= 4 && data[..4] == Header)
    ensures DecodeTable(data, decode) == Err(BadHeader)
  {
  }

  /** A column record whose tag is outside the type map fails the whole
      decode with that tag, however many columns and rows follow. */
  lemma UnknownTagFails(data: seq<Byte>, decode: Codec, j: nat)
    requires |data| >= SchemaStart && data[..4] == Header
    requires j < ColumnCount(data)
    requires ColumnsAt(data, SchemaStart, j, decode).Ok?
    requires
      var name := ParseVarchar(data, ColumnsAt(data, SchemaStart, j, decode).value.next, decode);
      name.Ok? && name.value.next < |data| && data[name.value.next] !in TypeMap
    ensures
      var name := ParseVarchar(data, ColumnsAt(data, SchemaStart, j, decode).value.next, decode);
      DecodeTable(data, decode) == Err(UnknownColumnType(data[name.value.next]))
  {
    var prev := ColumnsAt(data, SchemaStart, j, decode);
    var name := ParseVarchar(data, prev.value.next, decode);
    ColumnLayout(data, prev.value.next, decode);
    assert ColumnsAt(data, SchemaStart, j + 1, decode) == Err(UnknownColumnType(data[name.value.next]));
    ManyFailFrom(data, SchemaStart, j + 1, ColumnCount(data), ColumnRecord(decode));
    SchemaFails(data, decode);
  }

  // ---------------------------------------------------------------------
  // Fixed-width rows
  // ---------------------------------------------------------------------

  /** Without a varchar column a row is exactly four bytes per column; it
      decodes exactly when that many bytes remain. */
  lemma {:induction false} FixedWidthCells(data: seq<Byte>, pos: nat, columns: seq<Column>, decode: Codec)
    requires pos <= |data|
    requires forall j :: 0 <= j < |columns| ==> columns[j].kind != VarcharCell
    ensures CellsAt(data, pos, columns, decode).Ok? <==> pos + 4 * |columns| <= |data|
    ensures CellsAt(data, pos, columns, decode).Ok? ==>
            CellsAt(data, pos, columns, decode).value.next == pos + 4 * |columns|
    decreases |columns|
  {
    if columns != [] {
      var init := columns[..|columns| - 1];
      var last := columns[|columns| - 1];
      assert last.kind != VarcharCell;
      FixedWidthCells(data, pos, init, decode);
      var prefix := CellsAt(data, pos, init, decode);
      if prefix.Ok? {
        assert prefix.value.next == pos + 4 * |init|;
        var cell := ParseCell(last.kind, data, prefix.value.next, decode);
        assert cell.Ok? <==> pos + 4 * |columns| <= |data|;
      } else {
        assert pos + 4 * |init| > |data|;
      }
    }
  }

  /** Without a varchar column, `k` rows occupy exactly `k` times the row
      width. */
  lemma FixedWidthRows(data: seq<Byte>, pos: nat, columns: seq<Column>, k: nat, decode: Codec)
    requires pos <= |data|
    requires forall j :: 0 <= j < |columns| ==> columns[j].kind != VarcharCell
    ensures RowsAt(data, pos, columns, k, decode).Ok? <==> pos + 4 * |columns| * k <= |data|
    ensures RowsAt(data, pos, columns, k, decode).Ok? ==>
            RowsAt(data, pos, columns, k, decode).value.next == pos + 4 * |columns| * k
  {
    var w := 4 * |columns|;
    forall p: nat | pos <= p <= |data|
      ensures CellsAt(data, p, columns, decode).Ok? <==> p + w <= |data|
      ensures CellsAt(data, p, columns, decode).Ok? ==> CellsAt(data, p, columns, decode).value.next == p + w
    {
      FixedWidthCells(data, p, columns, decode);
    }
    ManyFixed(data, pos, k, w, RowRecord(columns, decode));
    assert k * w == 4 * |columns| * k;
  }

  // ---------------------------------------------------------------------
  // Nothing past the last byte decoded is read
  // ---------------------------------------------------------------------

  lemma ParseVarcharPrefix(data: seq<Byte>, pos: nat, k: nat, decode: Codec)
    requires ParseVarchar(data, pos, decode).Ok? && ParseVarchar(data, pos, decode).value.next <= k <= |data|
    ensures ParseVarchar(data[..k], pos, decode) == ParseVarchar(data, pos, decode)
  {
    var end := ParseVarchar(data, pos, decode).value.next;
    assert data[..k][pos] == data[pos] && data[..k][pos + 1] == data[pos + 1];
    assert data[..k][pos + 2..end] == data[pos + 2..end];
  }

  lemma ParseCellPrefix(kind: CellType, data: seq<Byte>, pos: nat, k: nat, decode: Codec)
    requires ParseCell(kind, data, pos, decode).Ok? && ParseCell(kind, data, pos, decode).value.next <= k <= |data|
    ensures ParseCell(kind, data[..k], pos, decode) == ParseCell(kind, data, pos, decode)
  {
    if kind == VarcharCell {
      ParseVarcharPrefix(data, pos, k, decode);
    } else {
      assert data[..k][pos] == data[pos] && data[..k][pos + 1] == data[pos + 1];
      assert data[..k][pos + 2] == data[pos + 2] && data[..k][pos + 3] == data[pos + 3];
    }
  }

  lemma ParseColumnPrefix(data: seq<Byte>, pos: nat, k: nat, decode: Codec)
    requires ParseColumn(data, pos, decode).Ok? && ParseColumn(data, pos, decode).value.next <= k <= |data|
    ensures ParseColumn(data[..k], pos, decode) == ParseColumn(data, pos, decode)
  {
    ParseVarcharPrefix(data, pos, k, decode);
    var name := ParseVarchar(data, pos, decode).value;
    assert data[..k][name.next] == data[name.next];
  }

  lemma ColumnsPrefix(data: seq<Byte>, pos: nat, n: nat, k: nat, decode: Codec)
    requires ColumnsAt(data, pos, n, decode).Ok? && ColumnsAt(data, pos, n, decode).value.next <= k <= |data|
    ensures ColumnsAt(data[..k], pos, n, decode) == ColumnsAt(data, pos, n, decode)
  {
    forall p: nat | ParseColumn(data, p, decode).Ok? && ParseColumn(data, p, decode).value.next <= k
      ensures ParseColumn(data[..k], p, decode) == ParseColumn(data, p, decode)
    {
      ParseColumnPrefix(data, p, k, decode);
    }
    ManyPrefix(data, pos, n, k, ColumnRecord(decode));
  }

  lemma {:induction false} CellsPrefix(data: seq<Byte>, pos: nat, columns: seq<Column>, k: nat, decode: Codec)
    requires CellsAt(data, pos, columns, decode).Ok? && CellsAt(data, pos, columns, decode).value.next <= k <= |data|
    ensures CellsAt(data[..k], pos, columns, decode) == CellsAt(data, pos, columns, decode)
    decreases |columns|
  {
    if columns != [] {
      var init := columns[..|columns| - 1];
      CellsPrefix(data, pos, init, k, decode);
      ParseCellPrefix(columns[|columns| - 1].kind, data, CellsAt(data, pos, init, decode).value.next, k, decode);
    }
  }

  lemma RowsPrefix(data: seq<Byte>, pos: nat, columns: seq<Column>, n: nat, k: nat, decode: Codec)
    requires RowsAt(data, pos, columns, n, decode).Ok? && RowsAt(data, pos, columns, n, decode).value.next <= k <= |data|
    ensures RowsAt(data[..k], pos, columns, n, decode) == RowsAt(data, pos, columns, n, decode)
  {
    forall p: nat | CellsAt(data, p, columns, decode).Ok? && CellsAt(data, p, columns, decode).value.next <= k
      ensures CellsAt(data[..k], p, columns, decode) == CellsAt(data, p, columns, decode)
    {
      CellsPrefix(data, p, columns, k, decode);
    }
    ManyPrefix(data, pos, n, k, RowRecord(columns, decode));
  }

  /** The decoder never reads past the last byte it decodes: cutting the
      file anywhere after that point gives the same table. In particular
      the end-of-table marker that follows the rows is never examined. */
  lemma TableIgnoresTrailingBytes(data: seq<Byte>, decode: Codec, k: nat)
    requires DecodeTable(data, decode).Ok? && DecodeTable(data, decode).value.next <= k <= |data|
    ensures DecodeTable(data[..k], decode) == DecodeTable(data, decode)
  {
    var schema := ColumnsAt(data, SchemaStart, ColumnCount(data), decode);
    var columns := [IdColumn] + schema.value.value;
    var rows := RowsAt(data, schema.value.next, columns, RowCount(data), decode);
    TableParts(data, decode);
    ManyAdvances(data, SchemaStart, ColumnCount(data), ColumnRecord(decode));
    ManyAdvances(data, schema.value.next, RowCount(data), RowRecord(columns, decode));
    var cut := data[..k];
    assert cut[..4] == data[..4];
    assert cut[4..6] == data[4..6] && cut[6..10] == data[6..10];
    ColumnsPrefix(data, SchemaStart, ColumnCount(data), k, decode);
    RowsPrefix(data, schema.value.next, columns, RowCount(data), k, decode);
  }

  /** A table followed by the end-of-table marker decodes as the table
      alone would, when nothing of the table was cut short. */
  lemma TailNotConsulted(data: seq<Byte>, decode: Codec)
    requires DecodeTable(data + Tail, decode).Ok? && DecodeTable(data + Tail, decode).value.next <= |data|
    ensures DecodeTable(data, decode) == DecodeTable(data + Tail, decode)
  {
    TableIgnoresTrailingBytes(data + Tail, decode, |data|);
    assert (data + Tail)[..|data|] == data;
  }

  // ---------------------------------------------------------------------
  // A worked example
  // ---------------------------------------------------------------------

  /** A file with one on-disk column `_X` of type 3 (u32) and one row with
      id 7 and X 42. */
  const ExampleFile: seq<Byte> :=
    [0, 0, 0, 0, 1, 0, 1, 0, 0, 0, 2, 0, 0x5F, 0x58, 3, 7, 0, 0, 0, 42, 0, 0, 0]

  lemma ExampleCounts()
    ensures |ExampleFile| >= SchemaStart && ExampleFile[..4] == Header
    ensures ColumnCount(ExampleFile) == 1 && RowCount(ExampleFile) == 1
  {
    assert ExampleFile[4..6] == [1, 0] && ExampleFile[6..10] == [1, 0, 0, 0];
  }

  lemma ExampleSchema(decode: Codec)
    requires decode([0x5F, 0x58]) == Some("_X")
    ensures ColumnsAt(ExampleFile, SchemaStart, 1, decode) == Ok(Parsed([Column("X", IntCell)], 15))
  {
    var data := ExampleFile;
    assert data[12..14] == [0x5F, 0x58];
    assert ParseVarchar(data, 10, decode) == Ok(Parsed("_X", 14));
    assert DropFirst("_X") == "X";
    assert ParseColumn(data, 10, decode) == Ok(Parsed(Column("X", IntCell), 15));
    assert ColumnsAt(data, SchemaStart, 0, decode) == Ok(Parsed([], 10));
    assert [] + [Column("X", IntCell)] == [Column("X", IntCell)];
  }

  lemma ExampleRow(decode: Codec)
    ensures CellsAt(ExampleFile, 15, [IdColumn, Column("X", IntCell)], decode) == Ok(Parsed([UInt(7), UInt(42)], 23))
  {
    var data := ExampleFile;
    var columns := [IdColumn, Column("X", IntCell)];
    assert columns[..1] == [IdColumn];
    assert columns[..1][..0] == [];
    assert CellsAt(data, 15, [], decode) == Ok(Parsed([], 15));
    assert ParseCell(IntCell, data, 15, decode) == Ok(Parsed(UInt(7), 19));
    assert [] + [UInt(7)] == [UInt(7)];
    assert CellsAt(data, 15, columns[..1], decode) == Ok(Parsed([UInt(7)], 19));
    assert columns[..|columns| - 1] == columns[..1];
    assert ParseCell(IntCell, data, 19, decode) == Ok(Parsed(UInt(42), 23));
    assert [UInt(7)] + [UInt(42)] == [UInt(7), UInt(42)];
  }

  lemma ExampleRows(decode: Codec)
    ensures RowsAt(ExampleFile, 15, [IdColumn, Column("X", IntCell)], 1, decode)
            == Ok(Parsed([[UInt(7), UInt(42)]], 23))
  {
    var columns := [IdColumn, Column("X", IntCell)];
    ExampleRow(decode);
    assert RowsAt(ExampleFile, 15, columns, 0, decode) == Ok(Parsed([], 15));
    assert [] + [[UInt(7), UInt(42)]] == [[UInt(7), UInt(42)]];
  }

  /** The example decodes to the columns `id` and `X` (the underscore
      dropped) and the single row (7, 42), and uses the whole file. */
  lemma OneRowExample(decode: Codec)
    requires decode([0x5F, 0x58]) == Some("_X")
    ensures DecodeTable(ExampleFile, decode)
            == Ok(Parsed(Table([IdColumn, Column("X", IntCell)], [[UInt(7), UInt(42)]]), 23))
  {
    ExampleCounts();
    ExampleSchema(decode);
    ExampleRows(decode);
    assert [IdColumn] + [Column("X", IntCell)] == [IdColumn, Column("X", IntCell)];
    DecodedFrom(ExampleFile, decode, Parsed([Column("X", IntCell)], 15), Parsed([[UInt(7), UInt(42)]], 23));
  }
}
