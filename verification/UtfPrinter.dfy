/** The printer of constant-column UTF tables, and when parsing gives back what was printed. */
module UtfPrinter {
  import opened Bytes
  import opened Numbers
  import opened Tables
  import opened UtfTable

  datatype Field = Field(key: bytes, value: u32)

  /** The string pool: an empty string, the table name, then every key. */
  function Pool(name: bytes, fields: seq<Field>): (r: bytes)
    ensures |r| > 0 && r[|r| - 1] == 0
  {
    if fields == [] then [0] + name + [0]
    else Pool(name, fields[..|fields| - 1]) + fields[|fields| - 1].key + [0]
  }

  /** One nine-byte schema entry: constant 32-bit column, key offset, value; offsets keep their low 32 bits. */
  function Entry(keyAt: nat, value: u32): (r: bytes)
    ensures |r| == 9
  {
    [0x34] + ToBe(keyAt, 4) + ToBe(value, 4)
  }

  function Schema(name: bytes, fields: seq<Field>): (r: bytes)
    ensures |r| == 9 * |fields|
  {
    if fields == [] then [] else
      var front, last := fields[..|fields| - 1], fields[|fields| - 1];
      Schema(name, front) + Entry(|Pool(name, front)|, last.value)
  }

  function Head(rows: nat, data: nat, columns: nat): (r: bytes)
    requires 8 <= rows && 8 <= data
    ensures |r| == 32
  {
    MAGIC + ToBe(data - 8, 4) + ToBe(rows - 8, 4) + ToBe(rows - 8, 4) + ToBe(data - 8, 4) + ToBe(1, 4)
    + ToBe(columns, 2) + [0, 0] + ToBe(1, 4)
  }

  function Print(name: bytes, fields: seq<Field>): bytes
  {
    var rows := 32 + 9 * |fields|;
    Head(rows, rows + |Pool(name, fields)|, |fields|) + Schema(name, fields) + Pool(name, fields)
  }

  /** The map a field list stands for: a later field of the same key wins. */
  function FieldMap(fields: seq<Field>): Fields
  {
    if fields == [] then map[] else
      FieldMap(fields[..|fields| - 1])[fields[|fields| - 1].key := fields[|fields| - 1].value]
  }

  /** The column count has two bytes. */
  function Columns(fields: seq<Field>): (n: nat)
    ensures n <= |fields|
  {
    |fields| % 0x1_0000
  }

  /** The table is within the limits of the parser. */
  predicate Fits(name: bytes, fields: seq<Field>)
  {
    |Print(name, fields)| <= MAX_TABLE && Columns(fields) <= 256
  }

  predicate GoodKeys(fields: seq<Field>)
  {
    forall i :: 0 <= i < |fields| ==> GoodName(fields[i].key)
  }

  // ----- where things are

  lemma {:induction false} PoolPrefix(name: bytes, fields: seq<Field>, i: nat)
    requires i <= |fields|
    ensures Pool(name, fields[..i]) <= Pool(name, fields)
    decreases |fields|
  {
    if i == |fields| {
      assert fields[..i] == fields;
    } else {
      var front := fields[..|fields| - 1];
      PoolPrefix(name, front, i);
      assert front[..i] == fields[..i];
    }
  }

  lemma {:induction false} PoolSize(name: bytes, fields: seq<Field>)
    requires GoodName(name) && GoodKeys(fields)
    ensures |Pool(name, fields)| <= 4098 + 4097 * |fields|
  {
    if fields != [] {
      PoolSize(name, fields[..|fields| - 1]);
    }
  }

  /** The key of field `i` stands in the pool where its schema entry says, with its terminator. */
  lemma PoolKey(name: bytes, fields: seq<Field>, i: nat)
    requires i < |fields|
    ensures var pool, at, key := Pool(name, fields), |Pool(name, fields[..i])|, fields[i].key;
      at + |key| < |pool| && pool[at..at + |key|] == key && pool[at + |key|] == 0
  {
    PoolPrefix(name, fields, i + 1);
    assert fields[..i + 1][..i] == fields[..i];
    assert Pool(name, fields[..i + 1]) == Pool(name, fields[..i]) + fields[i].key + [0];
    hide *;
    InsidePrefix(Pool(name, fields), Pool(name, fields[..i]), fields[i].key);
  }

  lemma InsidePrefix(pool: bytes, before: bytes, key: bytes)
    requires before + key + [0] <= pool
    ensures var at := |before|; at + |key| < |pool| && pool[at..at + |key|] == key && pool[at + |key|] == 0
  {
    var upto, at := before + key + [0], |before|;
    assert pool[..|upto|] == upto;
    assert upto[at..at + |key|] == key;
    assert pool[at..at + |key|] == pool[..|upto|][at..at + |key|];
  }

  lemma PoolName(name: bytes, fields: seq<Field>)
    ensures var pool := Pool(name, fields); 1 + |name| < |pool| && pool[1..1 + |name|] == name && pool[1 + |name|] == 0
  {
    PoolPrefix(name, fields, 0);
    var pool, upto := Pool(name, fields), [0] + name + [0];
    assert Pool(name, fields[..0]) == upto;
    assert pool[..|upto|] == upto;
    assert pool[1..1 + |name|] == pool[..|upto|][1..1 + |name|] == name;
  }

  lemma {:induction false} SchemaEntry(name: bytes, fields: seq<Field>, i: nat)
    requires i < |fields|
    ensures Schema(name, fields)[9 * i..9 * i + 9] == Entry(|Pool(name, fields[..i])|, fields[i].value)
    decreases |fields|
  {
    var front := fields[..|fields| - 1];
    if i < |front| {
      SchemaEntry(name, front, i);
      assert front[..i] == fields[..i];
      assert Schema(name, fields)[9 * i..9 * i + 9] == Schema(name, front)[9 * i..9 * i + 9];
    }
  }

  lemma LowTwoBytes(n: nat)
    ensures ToBe(n, 2) == ToBe(n % 0x1_0000, 2)
  {
    var low := n % 0x1_0000;
    assert n == 0x1_0000 * (n / 0x1_0000) + low;
    assert n / 0x100 == 0x100 * (n / 0x1_0000) + low / 0x100 && n % 0x100 == low % 0x100;
    assert ToBe(n, 2) == ToBe(n / 0x100, 1) + [n % 0x100];
    assert ToBe(low, 2) == ToBe(low / 0x100, 1) + [low % 0x100];
    assert ToBe(n / 0x100, 1) == ToBe(n / 0x1_0000, 0) + [n / 0x100 % 0x100];
  }

  lemma HeadFields(rows: nat, data: nat, columns: nat)
    requires 32 <= rows <= data < 0x1_0000_0000
    ensures var h := Head(rows, data, columns);
      && MAGIC <= h && Be(h[4..8]) == data - 8 && Be(h[8..12]) == rows - 8 && Be(h[12..16]) == rows - 8
      && Be(h[16..20]) == data - 8 && Be(h[20..24]) == 1 && Be(h[24..26]) == columns % 0x1_0000 && Be(h[26..28]) == 0
      && Be(h[28..32]) == 1
  {
    LowTwoBytes(columns);
    hide ToBe;
    Powers();
    BeToBe(data - 8, 4);
    BeToBe(rows - 8, 4);
    BeToBe(1, 4);
    BeToBe(columns % 0x1_0000, 2);
    HeadSlices(MAGIC, ToBe(data - 8, 4), ToBe(rows - 8, 4), ToBe(1, 4), ToBe(columns, 2), [0, 0]);
    assert Be([0, 0]) == 0;
  }

  lemma HeadSlices(magic: bytes, data: bytes, rows: bytes, one: bytes, columns: bytes, stride: bytes)
    requires |magic| == |data| == |rows| == |one| == 4 && |columns| == |stride| == 2
    ensures var h := magic + data + rows + rows + data + one + columns + stride + one;
      && h[..4] == magic && h[4..8] == data && h[8..12] == rows && h[12..16] == rows && h[16..20] == data
      && h[20..24] == one && h[24..26] == columns && h[26..28] == stride && h[28..32] == one
  {
  }

  // ----- parsing what was printed

  lemma PrintedParts(name: bytes, fields: seq<Field>)
    ensures var b := Print(name, fields); var rows := 32 + 9 * |fields|; var pool := Pool(name, fields);
      && |b| == rows + |pool| && b[rows..] == pool && b[32..rows] == Schema(name, fields)
      && b[..32] == Head(rows, rows + |pool|, |fields|)
  {
    hide Head, Schema, Pool;
    var rows := 32 + 9 * |fields|;
    var schema, pool := Schema(name, fields), Pool(name, fields);
    var head := Head(rows, rows + |pool|, |fields|);
    var b := head + schema + pool;
    assert b[..32] == head && b[32..rows] == schema && b[rows..] == pool;
  }

  function PrintedHeader(name: bytes, fields: seq<Field>): Header
  {
    var rows := 32 + 9 * |fields|;
    var data := rows + |Pool(name, fields)|;
    Header(data, rows, rows, data, name, Columns(fields), 0, 1)
  }

  /** A slice of a section of `b` is a slice of `b`. */
  lemma HeadParses(b: bytes, head: bytes, rows: nat, columns: nat, name: bytes)
    requires 32 <= rows <= |b| <= MAX_TABLE && columns <= 256 && b[..32] == head && MAGIC <= head
    requires Be(head[4..8]) == |b| - 8 && Be(head[8..12]) == rows - 8 && Be(head[12..16]) == rows - 8
    requires Be(head[16..20]) == |b| - 8 && Be(head[20..24]) == 1 && Be(head[24..26]) == columns
    requires Be(head[26..28]) == 0 && Be(head[28..32]) == 1
    requires StringAt(b, rows + 1, |b|) == Some(name)
    ensures HeaderOf(b) == Some(Header(|b|, rows, rows, |b|, name, columns, 0, 1))
  {
    hide Be, StringAt;
    Section(b, 0, head, 4, 8);
    Section(b, 0, head, 8, 12);
    Section(b, 0, head, 12, 16);
    Section(b, 0, head, 16, 20);
    Section(b, 0, head, 20, 24);
    Section(b, 0, head, 24, 26);
    Section(b, 0, head, 26, 28);
    Section(b, 0, head, 28, 32);
    assert MAGIC <= b;
  }

  lemma PrintedHeaderParses(name: bytes, fields: seq<Field>)
    requires GoodName(name) && Fits(name, fields)
    ensures HeaderOf(Print(name, fields)) == Some(PrintedHeader(name, fields))
  {
    hide Pool, Schema, Head, Print, HeaderOf, StringAt, Text.ValidUtf8;
    PrintedParts(name, fields);
    PoolName(name, fields);
    var b, pool := Print(name, fields), Pool(name, fields);
    var rows := 32 + 9 * |fields|;
    HeadFields(rows, |b|, |fields|);
    Section(b, rows, pool, 1, 1 + |name|);
    StringFound(b, rows + 1, |b|, name);
    HeadParses(b, b[..32], rows, Columns(fields), name);
  }

  function PrintedCell(fields: seq<Field>, i: nat): Cell
    requires i < |fields|
  {
    Cell(fields[i].key, Constant, 4, 32 + 9 * i + 5, 4)
  }

  lemma EntryParts(keyAt: nat, value: u32)
    requires keyAt < 0x1_0000_0000
    ensures var e := Entry(keyAt, value); e[0] == 0x34 && Be(e[1..5]) == keyAt && Be(e[5..9]) == value
  {
    hide ToBe;
    Powers();
    BeToBe(keyAt, 4);
    BeToBe(value, 4);
    var e := Entry(keyAt, value);
    assert e[1..5] == ToBe(keyAt, 4) && e[5..9] == ToBe(value, 4);
  }

  /** A schema entry for a constant 32-bit column reads as that column. */
  lemma EntryParses(b: bytes, h: Header, at: nat, e: bytes, key: bytes, row: nat, rowEnd: nat)
    requires Laid(b, h) && |e| == 9 && at + 9 <= h.rows && b[at..at + 9] == e && e[0] == 0x34
    requires StringAt(b, h.strings + Be(e[1..5]), h.data) == Some(key)
    ensures ColumnAt(b, h, at, row, rowEnd) == Some(Cell(key, Constant, 4, at + 5, 4))
    ensures b[at + 5..at + 9] == e[5..9]
  {
    hide Be, StringAt;
    Section(b, at, e, 1, 5);
    Section(b, at, e, 5, 9);
    Section(b, at, e, 0, 0);
  }

  lemma PrintedColumn(name: bytes, fields: seq<Field>, i: nat, row: nat, rowEnd: nat)
    requires GoodName(name) && GoodKeys(fields) && i < |fields| && Fits(name, fields)
    ensures var b := Print(name, fields);
      && Laid(b, PrintedHeader(name, fields))
      && ColumnAt(b, PrintedHeader(name, fields), 32 + 9 * i, row, rowEnd) == Some(PrintedCell(fields, i))
      && Be(b[32 + 9 * i + 5..32 + 9 * i + 9]) == fields[i].value
  {
    hide Pool, Schema, Head, Print, Entry, ColumnAt, StringAt, Text.ValidUtf8, Be;
    PrintedParts(name, fields);
    PoolKey(name, fields, i);
    SchemaEntry(name, fields, i);
    var b, h := Print(name, fields), PrintedHeader(name, fields);
    var rows, keyAt, key, at := 32 + 9 * |fields|, |Pool(name, fields[..i])|, fields[i].key, 32 + 9 * i;
    EntryParts(keyAt, fields[i].value);
    Section(b, 32, Schema(name, fields), 9 * i, 9 * i + 9);
    Section(b, rows, Pool(name, fields), keyAt, keyAt + |key|);
    StringFound(b, rows + keyAt, |b|, key);
    EntryParses(b, h, at, Entry(keyAt, fields[i].value), key, row, rowEnd);
  }

  function PrintedCells(fields: seq<Field>, i: nat): (r: seq<Cell>)
    requires i <= |fields|
    ensures |r| == |fields| - i && forall j :: 0 <= j < |r| ==> r[j] == PrintedCell(fields, i + j)
  {
    seq(|fields| - i, j requires 0 <= j < |fields| - i => PrintedCell(fields, i + j))
  }

  predicate ColumnRead(b: bytes, h: Header, fields: seq<Field>, i: nat, row: nat, rowEnd: nat)
    requires Laid(b, h) && i < |fields|
  {
    ColumnAt(b, h, 32 + 9 * i, row, rowEnd) == Some(PrintedCell(fields, i))
  }

  predicate ValueRead(b: bytes, fields: seq<Field>, i: nat)
    requires i < |fields| && 32 + 9 * |fields| <= |b|
  {
    Be(b[32 + 9 * i + 5..32 + 9 * i + 9]) == fields[i].value
  }

  lemma {:induction false} CellsOfColumns(b: bytes, h: Header, fields: seq<Field>, i: nat, row: nat, rowEnd: nat)
    requires Laid(b, h) && i <= |fields|
    requires forall j :: 0 <= j < |fields| ==> ColumnRead(b, h, fields, j, row, rowEnd)
    ensures Cells(b, h, 32 + 9 * i, row, rowEnd, |fields| - i) == Some(PrintedCells(fields, i))
    decreases |fields| - i
  {
    hide ColumnAt;
    if i == |fields| {
      assert PrintedCells(fields, i) == [];
    } else {
      var c := PrintedCell(fields, i);
      assert ColumnRead(b, h, fields, i, row, rowEnd);
      assert NextSchema(32 + 9 * i, c) == 32 + 9 * (i + 1) && NextRow(row, c) == row;
      CellsOfColumns(b, h, fields, i + 1, row, rowEnd);
      assert PrintedCells(fields, i) == [c] + PrintedCells(fields, i + 1);
      hide PrintedCells, PrintedCell;
    }
  }

  lemma {:induction false} CollectedCells(b: bytes, fields: seq<Field>, n: nat)
    requires n <= |fields| && 32 + 9 * |fields| <= |b|
    requires forall j :: 0 <= j < |fields| ==> ValueRead(b, fields, j)
    ensures Readable(b, PrintedCells(fields, 0)[..n])
    ensures Collect(b, PrintedCells(fields, 0)[..n]) == FieldMap(fields[..n])
  {
    hide Be;
    if n > 0 {
      CollectedCells(b, fields, n - 1);
      var cells, c := PrintedCells(fields, 0)[..n], PrintedCell(fields, n - 1);
      assert cells[..n - 1] == PrintedCells(fields, 0)[..n - 1] && cells[n - 1] == c;
      assert fields[..n][..n - 1] == fields[..n - 1];
      assert ValueRead(b, fields, n - 1);
      assert b[c.at..c.at + c.size] == b[32 + 9 * (n - 1) + 5..32 + 9 * (n - 1) + 9];
      hide PrintedCells;
    }
  }

  lemma PrintedLayout(name: bytes, fields: seq<Field>)
    ensures var b, h := Print(name, fields), PrintedHeader(name, fields);
      && Laid(b, h) && h.stride == 0 && h.columns == Columns(fields)
      && h.rows == 32 + 9 * |fields| && 32 + 9 * |fields| <= |b|
  {
    PrintedParts(name, fields);
    hide Print;
  }

  /** The fields that the column count reaches. */
  function Reached(fields: seq<Field>): seq<Field>
  {
    fields[..Columns(fields)]
  }

  lemma PrintedRowCells(name: bytes, fields: seq<Field>)
    requires GoodName(name) && GoodKeys(fields) && Fits(name, fields)
    ensures var b, h := Print(name, fields), PrintedHeader(name, fields);
      Laid(b, h) && RowCells(b, h, 0) == Some(PrintedCells(Reached(fields), 0))
  {
    hide Print, PrintedHeader, ColumnAt, Laid, PrintedCells, Cells;
    PrintedLayout(name, fields);
    var b, h, front := Print(name, fields), PrintedHeader(name, fields), Reached(fields);
    var row := RowStart(h, 0);
    forall j | 0 <= j < |front| ensures ColumnRead(b, h, front, j, row, row) {
      PrintedColumn(name, fields, j, row, row);
      assert PrintedCell(front, j) == PrintedCell(fields, j);
    }
    hide ColumnRead, PrintedCell;
    CellsOfColumns(b, h, front, 0, row, row);
  }

  lemma PrintedRowFields(name: bytes, fields: seq<Field>)
    requires GoodName(name) && GoodKeys(fields) && Fits(name, fields)
    ensures var b, front := Print(name, fields), Reached(fields);
      Readable(b, PrintedCells(front, 0)) && Collect(b, PrintedCells(front, 0)) == FieldMap(front)
  {
    hide Print, PrintedHeader, Be, Laid;
    PrintedLayout(name, fields);
    var b, front := Print(name, fields), Reached(fields);
    forall j | 0 <= j < |front| ensures ValueRead(b, front, j) {
      PrintedColumn(name, fields, j, 0, 0);
    }
    hide ValueRead, Collect, FieldMap, Reached;
    CollectedCells(b, front, |front|);
    assert PrintedCells(front, 0)[..|front|] == PrintedCells(front, 0) && front[..|front|] == front;
  }

  /** A printed table within the limits parses to its name and to the fields that its column count reaches. */
  lemma ParsePrint(name: bytes, fields: seq<Field>)
    requires GoodName(name) && GoodKeys(fields) && Fits(name, fields)
    ensures Table(Print(name, fields)) == Some(Row(name, FieldMap(Reached(fields))))
  {
    hide Print, HeaderOf, RowCells, Collect, FieldMap, PrintedCells, Laid, Reached;
    PrintedHeaderParses(name, fields);
    PrintedRowCells(name, fields);
    PrintedRowFields(name, fields);
  }

  /** Up to 256 fields with good names are always within the limits, and the round trip is complete. */
  lemma ParsePrintSmall(name: bytes, fields: seq<Field>)
    requires GoodName(name) && GoodKeys(fields) && |fields| <= 256
    ensures Fits(name, fields) && Table(Print(name, fields)) == Some(Row(name, FieldMap(fields)))
  {
    hide *;
    SmallFits(name, fields);
    ReachesAll(fields);
    ParsePrint(name, fields);
  }

  lemma ReachesAll(fields: seq<Field>)
    requires |fields| <= 256
    ensures Reached(fields) == fields
  {
  }

  lemma SmallFits(name: bytes, fields: seq<Field>)
    requires GoodName(name) && GoodKeys(fields) && |fields| <= 256
    ensures Fits(name, fields)
  {
    PoolSize(name, fields);
    PrintedParts(name, fields);
    hide Print, GoodKeys, GoodName, Pool;
  }

  lemma {:induction false} FieldMapKeys(fields: seq<Field>)
    ensures forall i :: 0 <= i < |fields| ==> fields[i].key in FieldMap(fields)
  {
    if fields != [] {
      FieldMapKeys(fields[..|fields| - 1]);
    }
  }

  /**
   The round trip gives back the name and the field map exactly when the names are good, the table is within the
   limits, and the fields beyond the column count would not change the map.
   */
  lemma RoundTripExact(name: bytes, fields: seq<Field>)
    ensures Table(Print(name, fields)) == Some(Row(name, FieldMap(fields))) <==>
      GoodName(name) && GoodKeys(fields) && Fits(name, fields) && FieldMap(Reached(fields)) == FieldMap(fields)
  {
    hide Print, TableRow, HeaderOf, Text.ValidUtf8, Reached;
    if Table(Print(name, fields)) == Some(Row(name, FieldMap(fields))) {
      ReadsInRegions(Print(name, fields), 0);
      FieldMapKeys(fields);
      AcceptedFits(name, fields);
    }
    if GoodName(name) && GoodKeys(fields) && Fits(name, fields) {
      ParsePrint(name, fields);
    }
  }

  lemma AcceptedFits(name: bytes, fields: seq<Field>)
    requires HeaderOf(Print(name, fields)).Some?
    ensures Fits(name, fields)
  {
    hide Print, Head, Be, HeaderOf, Pool, Schema;
    var b, rows := Print(name, fields), 32 + 9 * |fields|;
    AcceptedHead(b);
    PrintedParts(name, fields);
    HeadFields(rows, |b|, |fields|);
    Section(b, 0, b[..32], 24, 26);
  }

  lemma AcceptedHead(b: bytes)
    requires HeaderOf(b).Some?
    ensures 32 <= |b| <= MAX_TABLE && Be(b[24..26]) <= 256
  {
    hide Be, StringAt;
  }
}
