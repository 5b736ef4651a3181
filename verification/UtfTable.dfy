/**
 The bounds-checked UTF metadata table: a cursor parser for one row, the printer of the format, and the exact
 condition under which parsing undoes printing.
 */
module UtfTable {
  import opened Bytes
  import opened Numbers
  import Text

  const MAGIC: bytes := [0x40, 0x55, 0x54, 0x46]
  const MAX_TABLE := 0x100_0000
  const MAX_STRING := 4096

  /** Offsets are absolute: schema before `rows`, rows before `strings`, strings before `data`, data before `end`. */
  datatype Header = Header(
    end: nat, rows: nat, strings: nat, data: nat, name: bytes, columns: nat, stride: nat, count: nat)

  datatype Storage = Zero | Constant | PerRow

  /** One column of the selected row: its key, where its value was read, and how wide it is. */
  datatype Cell = Cell(key: bytes, storage: Storage, kind: nat, at: nat, size: nat)

  type Fields = map<bytes, u64>

  function Be32At(b: bytes, p: nat): Option<nat>
  {
    if p + 4 <= |b| then Some(Be(b[p..p + 4])) else None
  }

  /** The first zero byte at or after `p`, or `end`. */
  function FindZero(b: bytes, p: nat, end: nat): (q: nat)
    requires p <= end <= |b|
    ensures p <= q <= end
    ensures q < end ==> b[q] == 0
    ensures forall i :: p <= i < q ==> b[i] != 0
    decreases end - p
  {
    if p == end || b[p] == 0 then p else FindZero(b, p + 1, end)
  }

  /** A name or key: no zero byte, bounded, well-formed text. */
  predicate GoodName(v: bytes)
  {
    0 !in v && |v| <= MAX_STRING && Text.ValidUtf8(v)
  }

  function StringAt(b: bytes, p: nat, end: nat): (r: Option<bytes>)
    requires end <= |b|
  {
    if p > end then None else
    var q := FindZero(b, p, end);
    if q < end && q - p <= MAX_STRING && Text.ValidUtf8(b[p..q]) then Some(b[p..q]) else None
  }

  lemma StringIsGood(b: bytes, p: nat, end: nat)
    requires end <= |b| && StringAt(b, p, end).Some?
    ensures var v := StringAt(b, p, end).value; GoodName(v) && p + |v| < end && b[p..p + |v|] == v && b[p + |v|] == 0
  {
  }

  lemma StringFound(b: bytes, p: nat, end: nat, v: bytes)
    requires end <= |b| && p + |v| < end && b[p..p + |v|] == v && b[p + |v|] == 0 && GoodName(v)
    ensures StringAt(b, p, end) == Some(v)
  {
    forall i | p <= i < p + |v| ensures b[i] != 0 {
      assert b[i] == v[i - p];
    }
  }

  // ----- the header

  predicate Laid(b: bytes, h: Header)
  {
    32 <= h.rows <= h.strings <= h.data <= h.end <= |b|
  }

  function HeaderOf(b: bytes): (r: Option<Header>)
    ensures r.Some? ==> Laid(b, r.value) && r.value.count * r.value.stride <= r.value.strings - r.value.rows
    ensures r.Some? ==> MAGIC <= b && 32 <= |b| <= MAX_TABLE && r.value.count == Be(b[28..32]) && GoodName(r.value.name)
  {
    if !(MAGIC <= b && 32 <= |b| <= MAX_TABLE) then None else
    var end, rows := 8 + Be(b[4..8]), 8 + Be(b[8..12]);
    var strings, data := 8 + Be(b[12..16]), 8 + Be(b[16..20]);
    var columns, stride, count := Be(b[24..26]), Be(b[26..28]), Be(b[28..32]);
    if !(end <= |b| && end >= 32 && 32 <= rows <= strings <= data <= end) then None
    else
      match StringAt(b, strings + Be(b[20..24]), data)
      case None => None
      case Some(name) =>
        if columns <= 256 && count <= 1_000_000 && count * stride <= strings - rows
        then Some(Header(end, rows, strings, data, name, columns, stride, count)) else None
  }


  // ----- the columns

  function Size(kind: nat): Option<nat>
  {
    if kind <= 1 then Some(1)
    else if kind <= 3 then Some(2)
    else if kind == 4 || kind == 5 || kind == 8 || kind == 10 then Some(4)
    else if kind == 6 || kind == 7 || kind == 9 || kind == 11 then Some(8)
    else None
  }

  /** A string or data reference stays in its region. */
  function ReferenceOk(b: bytes, h: Header, kind: nat, at: nat): bool
    requires Laid(b, h)
    requires kind == 10 ==> at + 4 <= |b|
    requires kind == 11 ==> at + 8 <= |b|
  {
    if kind == 10 then
      var start := h.strings + Be(b[at..at + 4]);
      start <= h.data && FindZero(b, start, h.data) < h.data && FindZero(b, start, h.data) - start <= MAX_STRING
    else if kind == 11 then
      var off, len := Be(b[at..at + 4]), Be(b[at + 4..at + 8]);
      off <= h.end - h.data && len <= h.end - h.data - off
    else true
  }

  /** The column whose schema entry starts at `schema`, when the row cursor is at `row`. */
  function ColumnAt(b: bytes, h: Header, schema: nat, row: nat, rowEnd: nat): (r: Option<Cell>)
    requires Laid(b, h)
  {
    if schema >= |b| then None else
    var flags := b[schema];
    match Be32At(b, schema + 1)
    case None => None
    case Some(keyAt) =>
      match StringAt(b, h.strings + keyAt, h.data)
      case None => None
      case Some(key) =>
        match Size(flags % 16)
        case None => None
        case Some(size) => Placed(b, h, Cell(key, Zero, flags % 16, schema + 5, size), flags / 16, row, rowEnd)
  }

  /** Where the value of `c` is, by its storage class; `c.at` is the end of the schema entry. */
  function Placed(b: bytes, h: Header, c: Cell, class_: nat, row: nat, rowEnd: nat): (r: Option<Cell>)
    requires Laid(b, h) && Size(c.kind) == Some(c.size)
  {
    if class_ == 1 then
      if c.at <= h.rows then Some(c) else None
    else if class_ == 3 || class_ == 7 then
      if c.at + c.size <= h.rows && ReferenceOk(b, h, c.kind, c.at) then Some(c.(storage := Constant)) else None
    else if class_ == 5 then
      if c.at <= h.rows && row + c.size <= rowEnd && h.count > 0 && row + c.size <= |b| &&
         ReferenceOk(b, h, c.kind, row)
      then Some(c.(storage := PerRow, at := row)) else None
    else None
  }

  function NextSchema(schema: nat, c: Cell): nat
  {
    schema + 5 + if c.storage.Constant? then c.size else 0
  }

  function NextRow(row: nat, c: Cell): nat
  {
    row + if c.storage.PerRow? then c.size else 0
  }

  function Cells(b: bytes, h: Header, schema: nat, row: nat, rowEnd: nat, n: nat): Option<seq<Cell>>
    requires Laid(b, h)
    decreases n
  {
    if n == 0 then Some([]) else
    match ColumnAt(b, h, schema, row, rowEnd)
    case None => None
    case Some(c) =>
      match Cells(b, h, NextSchema(schema, c), NextRow(row, c), rowEnd, n - 1)
      case None => None
      case Some(rest) => Some([c] + rest)
  }

  /** Integer columns are kept; a later column of the same key wins. */
  function Put(b: bytes, out: Fields, c: Cell): Fields
    requires c.storage.Zero? || c.at + c.size <= |b|
    requires c.size <= 8
  {
    if c.kind > 7 then out
    else if c.storage.Zero? then out[c.key := 0]
    else
      BeRange(b[c.at..c.at + c.size]);
      SmallPower(c.size);
      out[c.key := Be(b[c.at..c.at + c.size])]
  }

  lemma {:induction false} SmallPower(k: nat)
    requires k <= 8
    ensures Pow256(k) <= 0x1_0000_0000_0000_0000
  {
    Powers();
    PowerGrows(k, 8);
  }

  lemma {:induction false} PowerGrows(a: nat, b: nat)
    requires a <= b
    ensures Pow256(a) <= Pow256(b)
  {
    if a < b {
      PowerGrows(a, b - 1);
    }
  }

  predicate Readable(b: bytes, cells: seq<Cell>)
  {
    forall i :: 0 <= i < |cells| ==>
      cells[i].size <= 8 && (cells[i].storage.Zero? || cells[i].at + cells[i].size <= |b|)
  }

  function Collect(b: bytes, cells: seq<Cell>): Fields
    requires Readable(b, cells)
  {
    if cells == [] then map[] else Put(b, Collect(b, cells[..|cells| - 1]), cells[|cells| - 1])
  }

  datatype Row = Row(name: bytes, fields: Fields)

  function RowStart(h: Header, index: nat): nat { h.rows + index * h.stride }

  function RowCells(b: bytes, h: Header, index: nat): (r: Option<seq<Cell>>)
    requires Laid(b, h)
    ensures r.Some? ==> Readable(b, r.value)
  {
    CellsInRegions(b, h, 32, RowStart(h, index), RowStart(h, index) + h.stride, h.columns);
    Cells(b, h, 32, RowStart(h, index), RowStart(h, index) + h.stride, h.columns)
  }

  /** Row `index` of a table, as the name and the integer columns. */
  function TableRow(b: bytes, index: nat): Option<Row>
  {
    match HeaderOf(b)
    case None => None
    case Some(h) =>
      if index >= h.count then None else
      match RowCells(b, h, index)
      case None => None
      case Some(cells) => Some(Row(h.name, Collect(b, cells)))
  }

  function Table(b: bytes): Option<Row>
  {
    TableRow(b, 0)
  }

  // ----- every read stays in its own region

  /** A constant lies in the schema, a row value in the selected row, references in the strings or the data. */
  predicate InRegion(b: bytes, h: Header, c: Cell, rowStart: nat, rowEnd: nat)
    requires Laid(b, h)
  {
    && GoodName(c.key) && c.size <= 8
    && (c.storage.Constant? ==> 32 <= c.at && c.at + c.size <= h.rows)
    && (c.storage.PerRow? ==> rowStart <= c.at && c.at + c.size <= rowEnd && c.at + c.size <= |b|)
    && (!c.storage.Zero? ==> Size(c.kind) == Some(c.size) && (c.kind == 10 || c.kind == 11 ==>
          c.at + c.size <= |b| && ReferenceOk(b, h, c.kind, c.at)))
  }

  lemma ColumnInRegion(b: bytes, h: Header, schema: nat, row: nat, rowEnd: nat)
    requires Laid(b, h) && 32 <= schema
    requires ColumnAt(b, h, schema, row, rowEnd).Some?
    ensures var c := ColumnAt(b, h, schema, row, rowEnd).value;
      InRegion(b, h, c, row, rowEnd) && NextSchema(schema, c) <= h.rows && row <= NextRow(row, c)
  {
    StringIsGood(b, h.strings + Be32At(b, schema + 1).value, h.data);
  }

  lemma {:induction false} CellsInRegions(b: bytes, h: Header, schema: nat, row: nat, rowEnd: nat, n: nat)
    requires Laid(b, h) && 32 <= schema
    ensures Cells(b, h, schema, row, rowEnd, n).Some? ==>
      var cells := Cells(b, h, schema, row, rowEnd, n).value;
      |cells| == n && Readable(b, cells) && forall i :: 0 <= i < n ==> InRegion(b, h, cells[i], row, rowEnd)
    decreases n
  {
    if n > 0 && Cells(b, h, schema, row, rowEnd, n).Some? {
      var c := ColumnAt(b, h, schema, row, rowEnd).value;
      ColumnInRegion(b, h, schema, row, rowEnd);
      CellsInRegions(b, h, NextSchema(schema, c), NextRow(row, c), rowEnd, n - 1);
      hide ColumnAt, ReferenceOk, GoodName;
    }
  }

  /** Every value of the row was read from its own region, and the row lies inside the rows. */
  ghost predicate ReadInRegions(b: bytes, h: Header, index: nat, cells: seq<Cell>)
    requires Laid(b, h)
  {
    && RowStart(h, index) + h.stride <= h.strings
    && |cells| == h.columns
    && (forall i :: 0 <= i < |cells| ==> InRegion(b, h, cells[i], RowStart(h, index), RowStart(h, index) + h.stride))
  }

  lemma RowReadsInRegions(b: bytes, h: Header, index: nat)
    requires Laid(b, h) && index < h.count && h.count * h.stride <= h.strings - h.rows
    requires RowCells(b, h, index).Some?
    ensures ReadInRegions(b, h, index, RowCells(b, h, index).value)
  {
    RowInside(h, index);
    CellsInRegions(b, h, 32, RowStart(h, index), RowStart(h, index) + h.stride, h.columns);
    hide InRegion;
  }

  lemma FieldNamesGood(b: bytes, h: Header, index: nat, cells: seq<Cell>)
    requires Laid(b, h) && Readable(b, cells) && ReadInRegions(b, h, index, cells)
    ensures forall k :: k in Collect(b, cells) ==> GoodName(k)
  {
    CollectedKeys(b, cells);
    hide Collect, GoodName, ReferenceOk;
  }

  /** On success every read stayed in its region, and every field name is a good name. */
  lemma ReadsInRegions(b: bytes, index: nat)
    requires TableRow(b, index).Some?
    ensures HeaderOf(b).Some? && RowCells(b, HeaderOf(b).value, index).Some?
    ensures ReadInRegions(b, HeaderOf(b).value, index, RowCells(b, HeaderOf(b).value, index).value)
    ensures forall k :: k in TableRow(b, index).value.fields ==> GoodName(k)
    ensures GoodName(TableRow(b, index).value.name)
  {
    var h := HeaderOf(b).value;
    assert GoodName(h.name);
    hide HeaderOf, Collect, ReadInRegions, GoodName;
    RowReadsInRegions(b, h, index);
    FieldNamesGood(b, h, index, RowCells(b, h, index).value);
  }

  lemma RowInside(h: Header, index: nat)
    requires index < h.count && h.count * h.stride <= h.strings - h.rows
    ensures RowStart(h, index) + h.stride <= h.strings
  {
    assert (index + 1) * h.stride <= h.count * h.stride;
    assert (index + 1) * h.stride == index * h.stride + h.stride;
  }

  lemma {:induction false} CollectedKeys(b: bytes, cells: seq<Cell>)
    requires Readable(b, cells)
    ensures forall k :: k in Collect(b, cells) <==>
      exists i :: 0 <= i < |cells| && cells[i].kind <= 7 && cells[i].key == k
  {
    if cells != [] {
      var front, last := cells[..|cells| - 1], cells[|cells| - 1];
      CollectedKeys(b, front);
      forall k
        ensures k in Collect(b, cells) <==> exists i :: 0 <= i < |cells| && cells[i].kind <= 7 && cells[i].key == k
      {
        if i :| 0 <= i < |front| && front[i].kind <= 7 && front[i].key == k {
          assert cells[i] == front[i];
        }
        if i :| 0 <= i < |cells| && cells[i].kind <= 7 && cells[i].key == k {
          assert i < |front| ==> front[i] == cells[i];
        }
      }
    }
  }

  // ----- the cursor parser

  function After(done: seq<Cell>, rest: Option<seq<Cell>>): Option<seq<Cell>>
  {
    if rest.Some? then Some(done + rest.value) else None
  }

  lemma AfterNone(rest: Option<seq<Cell>>)
    ensures After([], rest) == rest
  {
    assert rest.Some? ==> [] + rest.value == rest.value;
  }

  /** One column: the whole row is refused with it, or it joins those already read. */
  lemma CellStep(b: bytes, h: Header, schema: nat, row: nat, rowEnd: nat, n: nat, done: seq<Cell>)
    requires Laid(b, h) && n > 0
    ensures var c := ColumnAt(b, h, schema, row, rowEnd);
      After(done, Cells(b, h, schema, row, rowEnd, n)) ==
        if c.None? then None
        else After(done + [c.value], Cells(b, h, NextSchema(schema, c.value), NextRow(row, c.value), rowEnd, n - 1))
  {
    hide ColumnAt, NextSchema, NextRow;
    var c := ColumnAt(b, h, schema, row, rowEnd);
    if c.Some? {
      var rest := Cells(b, h, NextSchema(schema, c.value), NextRow(row, c.value), rowEnd, n - 1);
      assert rest.Some? ==> done + ([c.value] + rest.value) == done + [c.value] + rest.value;
    }
  }

  lemma CollectStep(b: bytes, done: seq<Cell>, c: Cell)
    requires Readable(b, done) && Readable(b, [c])
    ensures Readable(b, done + [c]) && (c.storage.Zero? || c.at + c.size <= |b|) && c.size <= 8
    ensures Collect(b, done + [c]) == Put(b, Collect(b, done), c)
  {
    hide Put;
    assert (done + [c])[..|done|] == done;
    assert [c][0] == c;
  }

  /** One pass over the columns with a schema cursor and a row cursor. */
  method ReadRow(b: bytes, index: nat) returns (r: Option<Row>)
    ensures r == TableRow(b, index)
  {
    hide HeaderOf, ColumnAt, Put, InRegion, Cells, After, Readable, Collect, NextSchema, NextRow;
    var header := HeaderOf(b);
    if header.None? {
      return None;
    }
    var h := header.value;
    if index >= h.count {
      return None;
    }
    var schema := 32;
    var row := RowStart(h, index);
    var rowEnd := row + h.stride;
    var out: Fields := map[];
    ghost var done: seq<Cell> := [];
    ghost var whole := RowCells(b, h, index);
    AfterNone(whole);
    NothingCollected(b);
    for i := 0 to h.columns
      invariant 32 <= schema && 0 <= row
      invariant Readable(b, done) && out == Collect(b, done)
      invariant whole == After(done, Cells(b, h, schema, row, rowEnd, h.columns - i))
    {
      CellStep(b, h, schema, row, rowEnd, h.columns - i, done);
      var cell := ColumnAt(b, h, schema, row, rowEnd);
      if cell.None? {
        return None;
      }
      var c := cell.value;
      ColumnReadable(b, h, schema, row, rowEnd);
      CollectStep(b, done, c);
      out := Put(b, out, c);
      schema, row := NextSchema(schema, c), NextRow(row, c);
      done := done + [c];
    }
    AfterAll(b, h, schema, row, rowEnd, done);
    return Some(Row(h.name, out));
  }

  lemma AfterAll(b: bytes, h: Header, schema: nat, row: nat, rowEnd: nat, done: seq<Cell>)
    requires Laid(b, h)
    ensures After(done, Cells(b, h, schema, row, rowEnd, 0)) == Some(done)
  {
    assert done + [] == done;
  }

  lemma NothingCollected(b: bytes)
    ensures Readable(b, []) && Collect(b, []) == map[]
  {
  }

  lemma ColumnReadable(b: bytes, h: Header, schema: nat, row: nat, rowEnd: nat)
    requires Laid(b, h) && 32 <= schema && ColumnAt(b, h, schema, row, rowEnd).Some?
    ensures Readable(b, [ColumnAt(b, h, schema, row, rowEnd).value])
    ensures NextSchema(schema, ColumnAt(b, h, schema, row, rowEnd).value) >= 32
  {
    ColumnInRegion(b, h, schema, row, rowEnd);
  }
}
