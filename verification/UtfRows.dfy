/**
 Printed tables with columns of every storage class and width and with any number of rows, and what each of their rows
 reads as.
 */
module UtfRows {
  import opened Bytes
  import opened Numbers
  import opened Tables
  import opened UtfTable

  // ----- tables as values

  /** `keyAt` is where the key stands among the strings; a constant column carries its value. */
  datatype Column = Column(key: bytes, keyAt: nat, kind: nat, storage: Storage, alternate: bool, constant: bytes)

  /** A row has a value for every column; only those of per-row columns are stored. */
  datatype Sheet = Sheet(
    name: bytes, nameAt: nat, columns: seq<Column>, rows: seq<seq<bytes>>, strings: bytes, data: bytes)

  /** The width of a value by its kind: integers, floating point, and references to a string and to data. */
  function Width(kind: nat): nat
    requires kind < 12
  {
    [1, 1, 2, 2, 4, 4, 8, 8, 4, 8, 4, 8][kind]
  }

  /** The upper four bits of the flags. */
  function Class(c: Column): nat
  {
    match c.storage
    case Zero => 1
    case Constant => if c.alternate then 7 else 3
    case PerRow => 5
  }

  predicate Named(strings: bytes, at: nat, name: bytes)
  {
    && at < 0x1_0000_0000 && at + |name| < |strings| && strings[at..at + |name|] == name && strings[at + |name|] == 0
    && GoodName(name)
  }

  predicate WellTyped(strings: bytes, c: Column)
  {
    && c.kind < 12 && Named(strings, c.keyAt, c.key)
    && (c.storage.Constant? ==> |c.constant| == Width(c.kind))
  }

  predicate AllTyped(strings: bytes, columns: seq<Column>)
  {
    forall k :: 0 <= k < |columns| ==> WellTyped(strings, columns[k])
  }

  predicate RowTyped(columns: seq<Column>, row: seq<bytes>)
  {
    && |row| == |columns|
    && forall k :: 0 <= k < |columns| && columns[k].storage.PerRow? ==>
      columns[k].kind < 12 && |row[k]| == Width(columns[k].kind)
  }

  predicate Typed(t: Sheet)
  {
    Named(t.strings, t.nameAt, t.name) && AllTyped(t.strings, t.columns) && RowsTyped(t.columns, t.rows)
  }

  // ----- the printer

  function SchemaEntry(c: Column): bytes
    requires c.kind < 12
  {
    [16 * Class(c) + c.kind] + ToBe(c.keyAt, 4) + if c.storage.Constant? then c.constant else []
  }

  predicate Kinds(columns: seq<Column>)
  {
    forall k :: 0 <= k < |columns| ==> columns[k].kind < 12
  }

  function Schema(columns: seq<Column>): bytes
    requires Kinds(columns)
  {
    if columns == [] then [] else Schema(columns[..|columns| - 1]) + SchemaEntry(columns[|columns| - 1])
  }

  /** What a column takes of a row. */
  function Space(c: Column): nat
    requires c.kind < 12
  {
    if c.storage.PerRow? then Width(c.kind) else 0
  }

  function Stored(c: Column, value: bytes): bytes
  {
    if c.storage.PerRow? then value else []
  }

  /** How many bytes a row takes. */
  function Stride(columns: seq<Column>): nat
    requires Kinds(columns)
  {
    if columns == [] then 0 else
      var last := columns[|columns| - 1];
      Stride(columns[..|columns| - 1]) + Space(last)
  }

  function RowBytes(columns: seq<Column>, row: seq<bytes>): (r: bytes)
    requires Kinds(columns) && RowTyped(columns, row)
    ensures |r| == Stride(columns)
  {
    if columns == [] then [] else
      var n := |columns| - 1;
      RowBytes(columns[..n], row[..n]) + Stored(columns[n], row[n])
  }

  /** The bytes of `n` rows. */
  function Extent(n: nat, stride: nat): nat
  {
    n * stride
  }

  lemma ExtentStep(n: nat, stride: nat)
    ensures Extent(0, stride) == 0 && Extent(n + 1, stride) == Extent(n, stride) + stride
  {
  }

  predicate RowsTyped(columns: seq<Column>, rows: seq<seq<bytes>>)
  {
    forall i :: 0 <= i < |rows| ==> RowTyped(columns, rows[i])
  }

  function RowsBytes(columns: seq<Column>, rows: seq<seq<bytes>>): (r: bytes)
    requires Kinds(columns) && RowsTyped(columns, rows)
    ensures |r| == Extent(|rows|, Stride(columns))
  {
    if rows == [] then [] else
      ExtentStep(|rows| - 1, Stride(columns));
      RowsBytes(columns, rows[..|rows| - 1]) + RowBytes(columns, rows[|rows| - 1])
  }

  function Head(t: Sheet, rowsAt: nat, stringsAt: nat, dataAt: nat, end: nat): (r: bytes)
    requires Kinds(t.columns) && rowsAt >= 8 && stringsAt >= 8 && dataAt >= 8 && end >= 8
    ensures |r| == 32
  {
    [0x40, 0x55, 0x54, 0x46] + ToBe(end - 8, 4) + ToBe(rowsAt - 8, 4) + ToBe(stringsAt - 8, 4) + ToBe(dataAt - 8, 4) +
    ToBe(t.nameAt, 4) + ToBe(|t.columns|, 2) + ToBe(Stride(t.columns), 2) + ToBe(|t.rows|, 4)
  }

  function RowsAt(t: Sheet): nat
    requires Kinds(t.columns)
  {
    32 + |Schema(t.columns)|
  }

  function StringsAt(t: Sheet): nat
    requires Kinds(t.columns)
  {
    RowsAt(t) + Extent(|t.rows|, Stride(t.columns))
  }

  function End(t: Sheet): nat
    requires Kinds(t.columns)
  {
    StringsAt(t) + |t.strings| + |t.data|
  }

  lemma TypedKinds(t: Sheet)
    requires Typed(t)
    ensures Kinds(t.columns) && RowsTyped(t.columns, t.rows)
  {
    assert forall k :: 0 <= k < |t.columns| ==> WellTyped(t.strings, t.columns[k]);
  }

  function Print(t: Sheet): (r: bytes)
    requires Typed(t)
    ensures Kinds(t.columns) && |r| == End(t)
  {
    TypedKinds(t);
    Head(t, RowsAt(t), StringsAt(t), StringsAt(t) + |t.strings|, End(t)) + Schema(t.columns) +
    RowsBytes(t.columns, t.rows) + t.strings + t.data
  }

  // ----- what a row means

  /** A string reference meets a zero byte soon enough; a data reference stays inside the data. */
  predicate RefersInside(t: Sheet, kind: nat, value: bytes)
  {
    && (kind == 10 ==> exists z :: Be(value) <= z < |t.strings| && z <= Be(value) + 4096 && t.strings[z] == 0)
    && (kind == 11 && |value| == 8 ==> Be(value[..4]) + Be(value[4..]) <= |t.data|)
  }

  function ValueOf(c: Column, value: bytes): bytes
  {
    match c.storage
    case Zero => []
    case Constant => c.constant
    case PerRow => value
  }

  predicate ReferencesInside(t: Sheet, row: seq<bytes>, from: nat)
    requires |row| == |t.columns|
  {
    forall k :: from <= k < |t.columns| ==> ColumnInside(t, row, k)
  }

  predicate ColumnInside(t: Sheet, row: seq<bytes>, k: nat)
    requires k < |row| == |t.columns|
  {
    t.columns[k].storage.Zero? || RefersInside(t, t.columns[k].kind, ValueOf(t.columns[k], row[k]))
  }

  /** The integer columns: the number that the column holds, or 0; a later column of one key wins. */
  function FieldsOf(columns: seq<Column>, row: seq<bytes>): map<bytes, nat>
    requires |row| == |columns|
  {
    if columns == [] then map[] else
      var n := |columns| - 1;
      var front, c := FieldsOf(columns[..n], row[..n]), columns[n];
      if c.kind > 7 then front else front[c.key := Be(ValueOf(c, row[n]))]
  }

  // ----- where things stand

  lemma SchemaEnds(columns: seq<Column>)
    requires Kinds(columns) && columns != []
    ensures var n := |columns| - 1; Schema(columns) == Schema(columns[..n]) + SchemaEntry(columns[n])
  {
  }

  lemma {:induction false} SchemaSlice(columns: seq<Column>, k: nat)
    requires Kinds(columns) && k < |columns|
    ensures var at, e := |Schema(columns[..k])|, SchemaEntry(columns[k]);
      at + |e| <= |Schema(columns)| && Schema(columns)[at..at + |e|] == e && at + |e| == |Schema(columns[..k + 1])|
    decreases |columns|
  {
    hide SchemaEntry, Schema;
    var n := |columns| - 1;
    SchemaEnds(columns);
    if k < n {
      SchemaSlice(columns[..n], k);
      assert columns[..n][..k] == columns[..k] && columns[..n][..k + 1] == columns[..k + 1];
    } else {
      assert columns[..k + 1] == columns;
    }
  }

  lemma FrontTyped(columns: seq<Column>, row: seq<bytes>)
    requires RowTyped(columns, row) && columns != []
    ensures |row| == |columns| && RowTyped(columns[..|columns| - 1], row[..|columns| - 1])
  {
  }

  lemma RowEnds(columns: seq<Column>, row: seq<bytes>)
    requires Kinds(columns) && RowTyped(columns, row) && columns != []
    ensures var n := |columns| - 1;
      && |row| == |columns| && RowTyped(columns[..n], row[..n])
      && RowBytes(columns, row) == RowBytes(columns[..n], row[..n]) + Stored(columns[n], row[n])
      && Stride(columns) == Stride(columns[..n]) + Space(columns[n])
      && (columns[n].storage.PerRow? ==> |row[n]| == Width(columns[n].kind))
  {
    hide Width;
  }

  lemma {:induction false} RowSlice(columns: seq<Column>, row: seq<bytes>, k: nat)
    requires Kinds(columns) && RowTyped(columns, row) && k < |columns| == |row|
    ensures var at := Stride(columns[..k]);
      && Stride(columns[..k + 1]) == at + Space(columns[k])
      && Stride(columns[..k + 1]) <= Stride(columns)
      && (columns[k].storage.PerRow? ==> RowBytes(columns, row)[at..at + Width(columns[k].kind)] == row[k])
    decreases |columns|
  {
    hide Width, RowBytes, Stride, RowTyped;
    var n := |columns| - 1;
    RowEnds(columns, row);
    if k < n {
      RowSlice(columns[..n], row[..n], k);
      assert columns[..n][..k] == columns[..k] && columns[..n][..k + 1] == columns[..k + 1];
    } else {
      assert columns[..k + 1] == columns;
    }
  }

  lemma {:induction false} RowsSlice(columns: seq<Column>, rows: seq<seq<bytes>>, i: nat)
    requires Kinds(columns) && RowsTyped(columns, rows) && i < |rows|
    ensures var n := Stride(columns);
      && Extent(i, n) + n == Extent(i + 1, n) <= Extent(|rows|, n)
      && RowsBytes(columns, rows)[Extent(i, n)..Extent(i, n) + n] == RowBytes(columns, rows[i])
    decreases |rows|
  {
    hide RowTyped, RowBytes, Stride, Extent;
    var n, last := Stride(columns), |rows| - 1;
    ExtentStep(last, n);
    ExtentStep(i, n);
    if i < last {
      RowsSlice(columns, rows[..last], i);
    }
  }

  ghost predicate Prints(b: bytes, t: Sheet)
  {
    Typed(t) && Print(t) <= b
  }

  lemma Regions(t: Sheet, b: bytes)
    requires Prints(b, t) && Kinds(t.columns)
    ensures var strings, data := StringsAt(t), StringsAt(t) + |t.strings|;
      && 32 <= RowsAt(t) <= strings <= data <= End(t) <= |b| && End(t) == data + |t.data|
      && b[..32] == Head(t, RowsAt(t), strings, data, End(t)) && b[32..RowsAt(t)] == Schema(t.columns)
      && b[RowsAt(t)..strings] == RowsBytes(t.columns, t.rows)
      && b[strings..data] == t.strings && b[data..End(t)] == t.data
  {
    hide Head, Schema, RowsBytes, Typed, Print, Stride, Extent;
    PrintedParts(t);
    var strings, data := StringsAt(t), StringsAt(t) + |t.strings|;
    var head, schema := Head(t, RowsAt(t), strings, data, End(t)), Schema(t.columns);
    var rows := RowsBytes(t.columns, t.rows);
    FiveParts(b, head, schema, rows, t.strings, t.data);
  }

  lemma PrintedParts(t: Sheet)
    requires Typed(t) && Kinds(t.columns)
    ensures RowsTyped(t.columns, t.rows)
    ensures Print(t) ==
      Head(t, RowsAt(t), StringsAt(t), StringsAt(t) + |t.strings|, End(t)) + Schema(t.columns) +
      RowsBytes(t.columns, t.rows) + t.strings + t.data
  {
    hide Head, Schema, RowsBytes, Stride, RowTyped, Extent;
  }

  lemma FiveParts(b: bytes, p: bytes, q: bytes, r: bytes, s: bytes, u: bytes)
    requires p + q + r + s + u <= b
    ensures var i, j, k, l := |p|, |p| + |q|, |p| + |q| + |r|, |p| + |q| + |r| + |s|;
      l + |u| <= |b| && b[..i] == p && b[i..j] == q && b[j..k] == r && b[k..l] == s && b[l..l + |u|] == u
  {
    TwoParts(b, p + q + r + s, u);
    TwoParts(b, p + q + r, s);
    TwoParts(b, p + q, r);
    TwoParts(b, p, q);
  }

  lemma TwoParts(b: bytes, p: bytes, q: bytes)
    requires p + q <= b
    ensures p <= b && b[..|p|] == p && b[|p|..|p| + |q|] == q
  {
    assert b[..|p + q|] == p + q;
    assert p == (p + q)[..|p|] && q == (p + q)[|p|..];
  }

  /** The sheet's numbers fit their fields. */
  predicate Storable(t: Sheet)
    requires Kinds(t.columns)
  {
    |t.columns| < 0x1_0000 && Stride(t.columns) < 0x1_0000 && |t.rows| < 0x1_0000_0000 && End(t) < 0x1_0000_0000
  }

  /** The limits of the format. */
  predicate Allowed(t: Sheet, b: bytes)
  {
    |b| <= 16 * 1024 * 1024 && |t.columns| <= 256 && |t.rows| <= 1_000_000
  }

  function HeaderFor(t: Sheet): Header
    requires Kinds(t.columns)
  {
    var strings := StringsAt(t);
    Header(End(t), RowsAt(t), strings, strings + |t.strings|, t.name, |t.columns|, Stride(t.columns), |t.rows|)
  }

  lemma HeadNumbers(t: Sheet, rowsAt: nat, stringsAt: nat, dataAt: nat, end: nat)
    requires Kinds(t.columns) && Storable(t) && t.nameAt < 0x1_0000_0000
    requires 8 <= rowsAt <= stringsAt <= dataAt <= end < 0x1_0000_0000
    ensures var h := Head(t, rowsAt, stringsAt, dataAt, end);
      && h[..4] == [0x40, 0x55, 0x54, 0x46] && Be(h[4..8]) == end - 8 && Be(h[8..12]) == rowsAt - 8
      && Be(h[12..16]) == stringsAt - 8 && Be(h[16..20]) == dataAt - 8 && Be(h[20..24]) == t.nameAt
      && Be(h[24..26]) == |t.columns| && Be(h[26..28]) == Stride(t.columns) && Be(h[28..32]) == |t.rows|
  {
    var h := Head(t, rowsAt, stringsAt, dataAt, end);
    Powers();
    BeToBe(end - 8, 4);
    BeToBe(rowsAt - 8, 4);
    BeToBe(stringsAt - 8, 4);
    BeToBe(dataAt - 8, 4);
    BeToBe(t.nameAt, 4);
    BeToBe(|t.columns|, 2);
    BeToBe(Stride(t.columns), 2);
    BeToBe(|t.rows|, 4);
    hide Be, ToBe, Stride, Schema;
    assert h[4..8] == ToBe(end - 8, 4) && h[8..12] == ToBe(rowsAt - 8, 4) && h[12..16] == ToBe(stringsAt - 8, 4);
    assert h[16..20] == ToBe(dataAt - 8, 4) && h[20..24] == ToBe(t.nameAt, 4) && h[24..26] == ToBe(|t.columns|, 2);
    assert h[26..28] == ToBe(Stride(t.columns), 2) && h[28..32] == ToBe(|t.rows|, 4);
  }

  /** A name among the strings is found again. */
  lemma NameReads(b: bytes, at: nat, strings: bytes, p: nat, name: bytes)
    requires at + |strings| <= |b| && b[at..at + |strings|] == strings && Named(strings, p, name)
    ensures StringAt(b, at + p, at + |strings|) == Some(name)
  {
    hide Text.ValidUtf8;
    Section(b, at, strings, p, p + |name|);
    assert b[at + p + |name|] == b[at..at + |strings|][p + |name|];
    StringFound(b, at + p, at + |strings|, name);
  }

  lemma HeadSections(b: bytes, h: bytes)
    requires |h| == 32 <= |b| && b[..32] == h
    ensures b[..4] == h[..4] && b[4..8] == h[4..8] && b[8..12] == h[8..12] && b[12..16] == h[12..16]
    ensures b[16..20] == h[16..20] && b[20..24] == h[20..24] && b[24..26] == h[24..26] && b[26..28] == h[26..28]
    ensures b[28..32] == h[28..32]
  {
    assert b[0..32] == h;
    Section(b, 0, h, 0, 4);
    Section(b, 0, h, 4, 8);
    Section(b, 0, h, 8, 12);
    Section(b, 0, h, 12, 16);
    Section(b, 0, h, 16, 20);
    Section(b, 0, h, 20, 24);
    Section(b, 0, h, 24, 26);
    Section(b, 0, h, 26, 28);
    Section(b, 0, h, 28, 32);
  }

  lemma HeaderOfNumbers(b: bytes, h: Header, nameAt: nat)
    requires 32 <= h.rows <= h.strings <= h.data <= h.end <= |b| && Extent(h.count, h.stride) == h.strings - h.rows
    requires b[..4] == [0x40, 0x55, 0x54, 0x46] && Be(b[4..8]) == h.end - 8 && Be(b[8..12]) == h.rows - 8
    requires Be(b[12..16]) == h.strings - 8 && Be(b[16..20]) == h.data - 8 && Be(b[20..24]) == nameAt
    requires Be(b[24..26]) == h.columns && Be(b[26..28]) == h.stride && Be(b[28..32]) == h.count
    requires StringAt(b, h.strings + nameAt, h.data) == Some(h.name)
    ensures HeaderOf(b) ==
      if |b| <= 16 * 1024 * 1024 && h.columns <= 256 && h.count <= 1_000_000 then Some(h) else None
  {
    hide Be, StringAt;
    assert MAGIC <= b;
  }

  lemma HeaderReads(t: Sheet, b: bytes)
    requires Prints(b, t) && Kinds(t.columns) && Storable(t)
    ensures HeaderOf(b) == if Allowed(t, b) then Some(HeaderFor(t)) else None
  {
    hide Head, Be, StringAt, Schema, RowsBytes, Stride, Print, Named, AllTyped, HeaderOf;
    Regions(t, b);
    var rowsAt, strings, data, end := RowsAt(t), StringsAt(t), StringsAt(t) + |t.strings|, End(t);
    var h := Head(t, rowsAt, strings, data, end);
    assert Typed(t);
    NameBound(t.strings, t.nameAt, t.name);
    HeadNumbers(t, rowsAt, strings, data, end);
    NameReads(b, strings, t.strings, t.nameAt, t.name);
    HeadSections(b, h);
    HeaderOfNumbers(b, HeaderFor(t), t.nameAt);
  }

  lemma NameBound(strings: bytes, at: nat, name: bytes)
    requires Named(strings, at, name)
    ensures at < 0x1_0000_0000
  {
  }

  // ----- reading one column

  function SchemaAt(t: Sheet, k: nat): nat
    requires Kinds(t.columns) && k <= |t.columns|
  {
    32 + |Schema(t.columns[..k])|
  }

  function RowAt(t: Sheet, i: nat, k: nat): nat
    requires Kinds(t.columns) && k <= |t.columns|
  {
    RowsAt(t) + Extent(i, Stride(t.columns)) + Stride(t.columns[..k])
  }

  /** The cell that column `k` of row `i` should read as. */
  function CellFor(t: Sheet, i: nat, k: nat): Cell
    requires Kinds(t.columns) && k < |t.columns|
  {
    var c := t.columns[k];
    Cell(c.key, c.storage, c.kind, if c.storage.PerRow? then RowAt(t, i, k) else SchemaAt(t, k) + 5, Width(c.kind))
  }

  lemma WidthIsSize(kind: nat)
    requires kind < 12
    ensures Size(kind) == Some(Width(kind)) && Width(kind) <= 8
    ensures (kind == 10 ==> Width(kind) == 4) && (kind == 11 ==> Width(kind) == 8)
  {
  }

  lemma EntryParts(c: Column)
    requires c.kind < 12 && c.keyAt < 0x1_0000_0000
    ensures var e := SchemaEntry(c);
      && |e| == 5 + (if c.storage.Constant? then |c.constant| else 0)
      && e[0] / 16 == Class(c) && e[0] % 16 == c.kind && Be(e[1..5]) == c.keyAt
      && (c.storage.Constant? ==> e[5..] == c.constant)
  {
    Powers();
    BeToBe(c.keyAt, 4);
    hide Be, ToBe;
    var e := SchemaEntry(c);
    assert e[1..5] == ToBe(c.keyAt, 4);
  }

  /** Where the schema entry of column `k` stands. */
  lemma EntryStands(t: Sheet, b: bytes, k: nat)
    requires Prints(b, t) && Kinds(t.columns) && k < |t.columns|
    ensures var e, at := SchemaEntry(t.columns[k]), SchemaAt(t, k);
      && 32 <= at && at + |e| <= RowsAt(t) <= |b| && b[at..at + |e|] == e && at + |e| == SchemaAt(t, k + 1)
  {
    hide SchemaEntry, Print, Typed, Head, Schema, RowsBytes, Stride, Extent;
    Regions(t, b);
    SchemaSlice(t.columns, k);
    var at, e := |Schema(t.columns[..k])|, SchemaEntry(t.columns[k]);
    Section(b, 32, Schema(t.columns), at, at + |e|);
  }

  /** Where the value of a per-row column `k` of row `i` stands. */
  lemma ValueStands(t: Sheet, b: bytes, i: nat, k: nat)
    requires Prints(b, t) && Kinds(t.columns) && k < |t.columns| && i < |t.rows| && |t.rows[i]| == |t.columns|
    ensures var at, n := RowAt(t, i, k), Space(t.columns[k]);
      && RowsAt(t) <= at && at + n == RowAt(t, i, k + 1) <= RowAt(t, i, 0) + Stride(t.columns) <= StringsAt(t) <= |b|
      && (t.columns[k].storage.PerRow? ==> b[at..at + n] == t.rows[i][k])
  {
    hide Print, Typed, Head, Schema, RowsBytes, RowBytes, Stride, Width, RowTyped, Extent, Space;
    PrintedParts(t);
    Regions(t, b);
    RowsSlice(t.columns, t.rows, i);
    TypedRow(t.columns, t.rows, i);
    RowSlice(t.columns, t.rows[i], k);
    NothingTaken(t.columns);
    var c, row, n := t.columns[k], RowBytes(t.columns, t.rows[i]), Stride(t.columns);
    var from, at := Extent(i, n), Stride(t.columns[..k]);
    Section(b, RowsAt(t), RowsBytes(t.columns, t.rows), from, from + n);
    assert b[RowsAt(t) + from..RowsAt(t) + from + n] == row;
    hide Prints, RowsAt, StringsAt, Kinds;
    if c.storage.PerRow? {
      SpaceTaken(c);
      Section(b, RowsAt(t) + from, row, at, at + Width(c.kind));
    }
  }

  lemma SpaceTaken(c: Column)
    requires c.kind < 12 && c.storage.PerRow?
    ensures Space(c) == Width(c.kind)
  {
  }

  lemma TypedRow(columns: seq<Column>, rows: seq<seq<bytes>>, i: nat)
    requires RowsTyped(columns, rows) && i < |rows|
    ensures RowTyped(columns, rows[i])
  {
  }

  lemma NothingTaken(columns: seq<Column>)
    requires Kinds(columns)
    ensures Stride(columns[..0]) == 0
  {
  }

  /** What the reference check says of a value that stands at `at`. */
  lemma ReferenceReads(t: Sheet, b: bytes, kind: nat, at: nat, value: bytes)
    requires Prints(b, t) && Kinds(t.columns) && kind < 12 && |value| == Width(kind)
    requires at + Width(kind) <= |b| && b[at..at + Width(kind)] == value
    ensures Laid(b, HeaderFor(t)) && ReferenceOk(b, HeaderFor(t), kind, at) <==> RefersInside(t, kind, value)
  {
    hide Print, Typed, Head, Schema, RowsBytes, Stride, Extent, Width, Be, ReferenceOk, RefersInside;
    WidthIsSize(kind);
    Regions(t, b);
    ReferenceStands(t, b, HeaderFor(t), kind, at, value);
  }

  lemma ReferenceStands(t: Sheet, b: bytes, h: Header, kind: nat, at: nat, value: bytes)
    requires Laid(b, h) && b[h.strings..h.data] == t.strings && h.end - h.data == |t.data|
    requires at + |value| <= |b| && b[at..at + |value|] == value
    requires (kind == 10 ==> |value| == 4) && (kind == 11 ==> |value| == 8)
    ensures ReferenceOk(b, h, kind, at) <==> RefersInside(t, kind, value)
  {
    hide Be, FindZero;
    if kind == 10 {
      StringReference(b, h.strings, t.strings, Be(value));
    } else if kind == 11 {
      Section(b, at, value, 0, 4);
      Section(b, at, value, 4, 8);
    }
  }

  lemma StringReference(b: bytes, at: nat, strings: bytes, p: nat)
    requires at + |strings| <= |b| && b[at..at + |strings|] == strings
    ensures (p <= |strings| && FindZero(b, at + p, at + |strings|) < at + |strings|
        && FindZero(b, at + p, at + |strings|) - (at + p) <= 4096) <==>
      exists z :: p <= z < |strings| && z <= p + 4096 && strings[z] == 0
  {
    assert forall z :: 0 <= z < |strings| ==> b[at + z] == strings[z];
    if p <= |strings| {
      var q := FindZero(b, at + p, at + |strings|);
      if q < at + |strings| {
        assert strings[q - at] == 0;
      }
    }
  }

  lemma ColumnTyped(t: Sheet, i: nat, k: nat)
    requires Typed(t) && i < |t.rows| && k < |t.columns|
    ensures WellTyped(t.strings, t.columns[k]) && RowTyped(t.columns, t.rows[i])
  {
  }

  /** The storage class decides where the value is read, and whether it may be. */
  lemma PlacedAs(b: bytes, h: Header, c: Cell, storage: Storage, class_: nat, row: nat, rowEnd: nat)
    requires Laid(b, h) && Size(c.kind) == Some(c.size) && c.storage.Zero?
    requires class_ in (match storage case Zero => {1} case Constant => {3, 7} case PerRow => {5})
    requires c.at + (if storage.Constant? then c.size else 0) <= h.rows
    requires storage.PerRow? ==> row + c.size <= rowEnd && row + c.size <= |b| && h.count > 0
    ensures var at := if storage.PerRow? then row else c.at;
      && (!storage.Zero? ==> at + c.size <= |b|)
      && Placed(b, h, c, class_, row, rowEnd) ==
        if storage.Zero? || ReferenceOk(b, h, c.kind, at) then Some(c.(storage := storage, at := at)) else None
  {
    hide ReferenceOk;
  }

  lemma EntryBytes(t: Sheet, b: bytes, k: nat)
    requires Prints(b, t) && Kinds(t.columns) && k < |t.columns| && WellTyped(t.strings, t.columns[k])
    ensures var c, at := t.columns[k], SchemaAt(t, k);
      && 32 <= at && at + 5 <= at + 5 + (if c.storage.Constant? then Width(c.kind) else 0) == SchemaAt(t, k + 1)
      && SchemaAt(t, k + 1) <= RowsAt(t) <= |b|
      && b[at] / 16 == Class(c) && b[at] % 16 == c.kind && Be(b[at + 1..at + 5]) == c.keyAt
      && (c.storage.Constant? ==> b[at + 5..at + 5 + Width(c.kind)] == c.constant)
  {
    hide Prints, SchemaAt, RowsAt, Width, SchemaEntry, Be, Class, Named;
    var c, at := t.columns[k], SchemaAt(t, k);
    var e := SchemaEntry(c);
    NameBound(t.strings, c.keyAt, c.key);
    EntryParts(c);
    EntryStands(t, b, k);
    Section(b, at, e, 0, 1);
    Section(b, at, e, 1, 5);
    Section(b, at, e, 5, |e|);
    assert b[at] == b[at..at + 1][0] == e[0];
  }

  lemma ColumnOfEntry(b: bytes, h: Header, at: nat, class_: nat, kind: nat, keyAt: nat, key: bytes, size: nat,
    row: nat, rowEnd: nat)
    requires Laid(b, h) && at + 5 <= |b| && Size(kind) == Some(size)
    requires b[at] / 16 == class_ && b[at] % 16 == kind && Be(b[at + 1..at + 5]) == keyAt
    requires StringAt(b, h.strings + keyAt, h.data) == Some(key)
    ensures ColumnAt(b, h, at, row, rowEnd) == Placed(b, h, Cell(key, Zero, kind, at + 5, size), class_, row, rowEnd)
  {
    hide Be, StringAt, Placed, Size;
  }

  lemma EntryReads(t: Sheet, b: bytes, k: nat, row: nat, rowEnd: nat)
    requires Prints(b, t) && Kinds(t.columns) && k < |t.columns| && WellTyped(t.strings, t.columns[k])
    ensures Laid(b, HeaderFor(t)) && Size(t.columns[k].kind) == Some(Width(t.columns[k].kind))
    ensures var c, at := t.columns[k], SchemaAt(t, k);
      ColumnAt(b, HeaderFor(t), at, row, rowEnd) ==
        Placed(b, HeaderFor(t), Cell(c.key, Zero, c.kind, at + 5, Width(c.kind)), Class(c), row, rowEnd)
  {
    hide Prints, Head, Schema, RowsBytes, Width, Be, Size, StringAt, Placed, Named, ColumnAt, SchemaAt, Class, Extent,
      Stride, RowsAt;
    var c := t.columns[k];
    WidthIsSize(c.kind);
    EntryBytes(t, b, k);
    Regions(t, b);
    NameReads(b, StringsAt(t), t.strings, c.keyAt, c.key);
    ColumnOfEntry(b, HeaderFor(t), SchemaAt(t, k), Class(c), c.kind, c.keyAt, c.key, Width(c.kind), row, rowEnd);
  }

  /** A column reads as the cell that it should be, or is refused for its reference. */
  lemma ColumnReads(t: Sheet, b: bytes, i: nat, k: nat)
    requires Prints(b, t) && Kinds(t.columns) && i < |t.rows| && k < |t.columns| == |t.rows[i]|
    ensures Laid(b, HeaderFor(t))
    ensures ColumnAt(b, HeaderFor(t), SchemaAt(t, k), RowAt(t, i, k), RowAt(t, i, 0) + Stride(t.columns)) ==
      if ColumnInside(t, t.rows[i], k) then Some(CellFor(t, i, k)) else None
    ensures NextSchema(SchemaAt(t, k), CellFor(t, i, k)) == SchemaAt(t, k + 1)
    ensures NextRow(RowAt(t, i, k), CellFor(t, i, k)) == RowAt(t, i, k + 1)
  {
    hide Prints, Stride, Extent, Width, RowAt, SchemaAt, Size, RefersInside, ReferenceOk, Named, RowTyped, ColumnAt,
      Placed, Be;
    TypedColumn(t, b, i, k);
    var c, h, row, rowEnd := t.columns[k], HeaderFor(t), RowAt(t, i, k), RowAt(t, i, 0) + Stride(t.columns);
    ValueStands(t, b, i, k);
    EntryBytes(t, b, k);
    EntryReads(t, b, k, row, rowEnd);
    var cell := Cell(c.key, Zero, c.kind, SchemaAt(t, k) + 5, Width(c.kind));
    PlacedAs(b, h, cell, c.storage, Class(c), row, rowEnd);
    if !c.storage.Zero? {
      ReferenceReads(t, b, c.kind, if c.storage.PerRow? then row else SchemaAt(t, k) + 5, ValueOf(c, t.rows[i][k]));
    }
  }

  lemma TypedColumn(t: Sheet, b: bytes, i: nat, k: nat)
    requires Prints(b, t) && i < |t.rows| && k < |t.columns| == |t.rows[i]|
    ensures WellTyped(t.strings, t.columns[k])
    ensures !t.columns[k].storage.Zero? ==> |ValueOf(t.columns[k], t.rows[i][k])| == Width(t.columns[k].kind)
  {
    hide Print, Named, Width;
    ColumnTyped(t, i, k);
  }

  // ----- reading one row

  function CellsFrom(t: Sheet, i: nat, k: nat): (r: seq<Cell>)
    requires Kinds(t.columns) && k <= |t.columns|
    ensures |r| == |t.columns| - k && forall j :: 0 <= j < |r| ==> r[j] == CellFor(t, i, k + j)
  {
    seq(|t.columns| - k, j requires 0 <= j < |t.columns| - k => CellFor(t, i, k + j))
  }

  lemma InsideNext(t: Sheet, row: seq<bytes>, k: nat)
    requires k < |row| == |t.columns|
    ensures ReferencesInside(t, row, k) <==> ColumnInside(t, row, k) && ReferencesInside(t, row, k + 1)
  {
    hide ColumnInside;
  }

  lemma CellsOne(b: bytes, h: Header, schema: nat, row: nat, rowEnd: nat, n: nat)
    requires Laid(b, h) && n > 0
    ensures Cells(b, h, schema, row, rowEnd, n) ==
      match ColumnAt(b, h, schema, row, rowEnd) case None => None case Some(c) =>
      match Cells(b, h, NextSchema(schema, c), NextRow(row, c), rowEnd, n - 1) case None => None case Some(rest) =>
      Some([c] + rest)
  {
    hide ColumnAt, NextSchema, NextRow;
  }

  lemma {:induction false} CellsRead(t: Sheet, b: bytes, i: nat, k: nat)
    requires Prints(b, t) && Kinds(t.columns) && i < |t.rows| && k <= |t.columns| == |t.rows[i]|
    ensures Laid(b, HeaderFor(t))
    ensures
      Cells(b, HeaderFor(t), SchemaAt(t, k), RowAt(t, i, k), RowAt(t, i, 0) + Stride(t.columns), |t.columns| - k) ==
      if ReferencesInside(t, t.rows[i], k) then Some(CellsFrom(t, i, k)) else None
    decreases |t.columns| - k
  {
    hide Prints, Stride, Extent, RowAt, SchemaAt, CellFor, ColumnInside, ColumnAt, NextSchema, NextRow, RowsAt, Schema,
      Cells, ReferencesInside;
    Regions(t, b);
    var h, rowEnd, n := HeaderFor(t), RowAt(t, i, 0) + Stride(t.columns), |t.columns| - k;
    if n == 0 {
      NoCells(t, b, h, SchemaAt(t, k), RowAt(t, i, k), rowEnd, i);
    } else {
      ColumnReads(t, b, i, k);
      CellsRead(t, b, i, k + 1);
      InsideNext(t, t.rows[i], k);
      CellsOne(b, h, SchemaAt(t, k), RowAt(t, i, k), rowEnd, n);
      assert CellsFrom(t, i, k) == [CellFor(t, i, k)] + CellsFrom(t, i, k + 1);
    }
  }

  lemma NoCells(t: Sheet, b: bytes, h: Header, schema: nat, row: nat, rowEnd: nat, i: nat)
    requires Laid(b, h) && Kinds(t.columns) && i < |t.rows| && |t.rows[i]| == |t.columns|
    ensures Cells(b, h, schema, row, rowEnd, 0) == Some([])
    ensures ReferencesInside(t, t.rows[i], |t.columns|) && CellsFrom(t, i, |t.columns|) == []
  {
  }

  /** The value of column `k` of row `i` is what the cell points at. */
  lemma ValueReads(t: Sheet, b: bytes, i: nat, k: nat)
    requires Prints(b, t) && Kinds(t.columns) && i < |t.rows| && k < |t.columns| == |t.rows[i]|
    ensures var c := CellFor(t, i, k);
      && c.size <= 8 && c.key == t.columns[k].key && c.kind == t.columns[k].kind
      && c.storage == t.columns[k].storage
      && (!c.storage.Zero? ==>
            c.at + c.size <= |b| && b[c.at..c.at + c.size] == ValueOf(t.columns[k], t.rows[i][k]))
  {
    hide Prints, Stride, Extent, Width, RowAt, SchemaAt, Named, Be, RowsAt;
    TypedColumn(t, b, i, k);
    WidthIsSize(t.columns[k].kind);
    ValueStands(t, b, i, k);
    EntryBytes(t, b, k);
  }

  lemma {:induction false} CellsCollect(t: Sheet, b: bytes, i: nat, n: nat)
    requires Prints(b, t) && Kinds(t.columns) && i < |t.rows| && n <= |t.columns| == |t.rows[i]|
    ensures Readable(b, CellsFrom(t, i, 0)[..n])
    ensures Collect(b, CellsFrom(t, i, 0)[..n]) == FieldsOf(t.columns[..n], t.rows[i][..n])
  {
    hide Prints, Stride, Extent, Width, CellFor, Be;
    if n > 0 {
      CellsCollect(t, b, i, n - 1);
      ValueReads(t, b, i, n - 1);
      var cells, c := CellsFrom(t, i, 0)[..n], CellFor(t, i, n - 1);
      assert cells[..n - 1] == CellsFrom(t, i, 0)[..n - 1] && cells[n - 1] == c;
      assert t.columns[..n][..n - 1] == t.columns[..n - 1] && t.rows[i][..n][..n - 1] == t.rows[i][..n - 1];
      NothingIsZero();
      hide CellsFrom;
    }
  }

  lemma NothingIsZero()
    ensures Be([]) == 0
  {
  }

  lemma RowBegins(t: Sheet, i: nat)
    requires Kinds(t.columns)
    ensures SchemaAt(t, 0) == 32 && RowAt(t, i, 0) == HeaderFor(t).rows + i * HeaderFor(t).stride
  {
    assert t.columns[..0] == [];
  }

  /**
   Every row of a printed table reads as its own values, whatever the storage of its columns; a row is refused exactly
   when there is none of that number, the table is beyond a limit, or a reference of the row leaves its region.
   */
  lemma RowReads(t: Sheet, b: bytes, i: nat)
    requires Typed(t) && Kinds(t.columns) && Storable(t) && Print(t) <= b
    ensures i < |t.rows| ==> |t.rows[i]| == |t.columns|
    ensures TableRow(b, i).Some? <==> Allowed(t, b) && i < |t.rows| && ReferencesInside(t, t.rows[i], 0)
    ensures TableRow(b, i).Some? ==>
      TableRow(b, i).value.name == t.name && TableRow(b, i).value.fields == FieldsOf(t.columns, t.rows[i])
  {
    hide Print, Storable, Allowed, HeaderOf, Extent, Stride, Collect, FieldsOf, Readable, ReferencesInside, CellsFrom,
      Cells, Schema, RowAt, SchemaAt, RowTyped;
    assert Prints(b, t);
    HeaderReads(t, b);
    if i < |t.rows| {
      FullRow(t, i);
      CellsRead(t, b, i, 0);
      CellsCollect(t, b, i, |t.columns|);
      RowBegins(t, i);
      assert CellsFrom(t, i, 0)[..|t.columns|] == CellsFrom(t, i, 0);
      assert t.columns[..|t.columns|] == t.columns && t.rows[i][..|t.columns|] == t.rows[i];
    }
  }

  lemma FullRow(t: Sheet, i: nat)
    requires Typed(t) && i < |t.rows|
    ensures |t.rows[i]| == |t.columns|
  {
    TypedRow(t.columns, t.rows, i);
  }

  // ----- the other direction: the columns of an accepted row

  /**
   The schema entry at `p` declares the column `c` and ends at `next`: a known type, one of four storage classes, its
   key among the strings and the value, if there is one, after the entry or at `r` in the row.
   */
  predicate Declares(b: bytes, h: Header, p: nat, next: nat, r: nat, nextValue: nat, c: Cell)
  {
    && p + 5 <= |b| && b[p] % 16 < 12 && b[p] / 16 in {1, 3, 5, 7}
    && c.kind == b[p] % 16 && c.size == Width(b[p] % 16)
    && (c.storage.Zero? <==> b[p] / 16 == 1) && (c.storage.PerRow? <==> b[p] / 16 == 5)
    && (c.storage.Constant? ==> c.at == p + 5) && (c.storage.PerRow? ==> c.at == r)
    && next == p + 5 + (if c.storage.Constant? then c.size else 0) && next <= h.rows
    && nextValue == r + (if c.storage.PerRow? then c.size else 0)
    && NameStands(b, h.strings + Be(b[p + 1..p + 5]), h.data, c.key)
  }

  /** A name at `p` and the zero byte after it, before `end`. */
  predicate NameStands(b: bytes, p: nat, end: nat, name: bytes)
  {
    GoodName(name) && p + |name| < end <= |b| && b[p..p + |name|] == name && b[p + |name|] == 0
  }

  lemma PlacedDeclared(b: bytes, h: Header, c: Cell, class_: nat, r: nat, rowEnd: nat)
    requires Laid(b, h) && Size(c.kind) == Some(c.size) && c.storage.Zero? && Placed(b, h, c, class_, r, rowEnd).Some?
    ensures var d := Placed(b, h, c, class_, r, rowEnd).value;
      && class_ in {1, 3, 5, 7} && d.kind == c.kind && d.size == c.size && d.key == c.key && c.kind < 12
      && (d.storage.Zero? <==> class_ == 1) && (d.storage.PerRow? <==> class_ == 5)
      && (d.storage.Constant? ==> d.at == c.at && c.at + c.size <= h.rows) && (d.storage.PerRow? ==> d.at == r)
      && c.at <= h.rows && c.size == Width(c.kind)
  {
    hide ReferenceOk;
    WidthIsSize(c.kind);
  }

  lemma ColumnParts(b: bytes, h: Header, p: nat, r: nat, rowEnd: nat) returns (key: bytes)
    requires Laid(b, h) && ColumnAt(b, h, p, r, rowEnd).Some?
    ensures p + 5 <= |b| && NameStands(b, h.strings + Be(b[p + 1..p + 5]), h.data, key) && Size(b[p] % 16).Some?
    ensures ColumnAt(b, h, p, r, rowEnd) ==
      Placed(b, h, Cell(key, Zero, b[p] % 16, p + 5, Size(b[p] % 16).value), b[p] / 16, r, rowEnd)
  {
    key := StringAt(b, h.strings + Be32At(b, p + 1).value, h.data).value;
    StringIsGood(b, h.strings + Be32At(b, p + 1).value, h.data);
    hide StringAt, GoodName, Be, Placed, Size;
  }

  lemma ColumnDeclared(b: bytes, h: Header, p: nat, r: nat, rowEnd: nat)
    requires Laid(b, h) && ColumnAt(b, h, p, r, rowEnd).Some?
    ensures var c := ColumnAt(b, h, p, r, rowEnd).value; Declares(b, h, p, NextSchema(p, c), r, NextRow(r, c), c)
  {
    var key := ColumnParts(b, h, p, r, rowEnd);
    hide ColumnAt, Placed, Size, Width, NameStands, Be;
    PlacedDeclared(b, h, Cell(key, Zero, b[p] % 16, p + 5, Size(b[p] % 16).value), b[p] / 16, r, rowEnd);
  }

  /** One after the other, the entries from `at[0]` on declare the columns. */
  predicate AllDeclared(b: bytes, h: Header, at: seq<nat>, values: seq<nat>, cells: seq<Cell>)
  {
    && |at| == |values| == |cells| + 1
    && forall k :: 0 <= k < |cells| ==> Declares(b, h, at[k], at[k + 1], values[k], values[k + 1], cells[k])
  }

  lemma DeclaredFirst(b: bytes, h: Header, p: nat, r: nat, c: Cell, at: seq<nat>, values: seq<nat>, rest: seq<Cell>)
    requires AllDeclared(b, h, at, values, rest) && Declares(b, h, p, at[0], r, values[0], c)
    ensures AllDeclared(b, h, [p] + at, [r] + values, [c] + rest)
  {
    hide Declares;
    forall k | 0 <= k < |rest| + 1
      ensures Declares(
        b, h, ([p] + at)[k], ([p] + at)[k + 1], ([r] + values)[k], ([r] + values)[k + 1], ([c] + rest)[k])
    {
      if k > 0 {
        assert Declares(b, h, at[k - 1], at[k], values[k - 1], values[k], rest[k - 1]);
      }
    }
  }

  lemma {:induction false} CellsDeclared(b: bytes, h: Header, schema: nat, row: nat, rowEnd: nat, n: nat)
    returns (at: seq<nat>, values: seq<nat>)
    requires Laid(b, h) && Cells(b, h, schema, row, rowEnd, n).Some?
    ensures AllDeclared(b, h, at, values, Cells(b, h, schema, row, rowEnd, n).value)
    ensures at[0] == schema && values[0] == row
    decreases n
  {
    at, values := [schema], [row];
    if n > 0 {
      ColumnDeclared(b, h, schema, row, rowEnd);
      hide Declares, ColumnAt, AllDeclared, NextSchema, NextRow;
      var c := ColumnAt(b, h, schema, row, rowEnd).value;
      at, values := CellsDeclared(b, h, NextSchema(schema, c), NextRow(row, c), rowEnd, n - 1);
      DeclaredFirst(b, h, schema, row, c, at, values, Cells(b, h, at[0], values[0], rowEnd, n - 1).value);
      at, values := [schema] + at, [row] + values;
    }
  }

  lemma AcceptedCells(b: bytes, i: nat) returns (h: Header, cells: seq<Cell>)
    requires TableRow(b, i).Some?
    ensures HeaderOf(b) == Some(h) && i < h.count && Laid(b, h)
    ensures Cells(b, h, 32, h.rows + i * h.stride, h.rows + i * h.stride + h.stride, h.columns) == Some(cells)
    ensures Readable(b, cells) && TableRow(b, i) == Some(Row(h.name, Collect(b, cells)))
  {
    hide HeaderOf, Collect, Cells, Readable;
    h := HeaderOf(b).value;
    cells := RowCells(b, h, i).value;
  }

  /**
   Whatever row is accepted, from byte 32 on the schema consists of as many entries as the table has columns, each
   of a known type and storage class, and the per-row values follow each other from the start of that row.
   */
  lemma AcceptedIsDeclared(b: bytes, i: nat) returns (h: Header, at: seq<nat>, values: seq<nat>, cells: seq<Cell>)
    requires TableRow(b, i).Some?
    ensures HeaderOf(b) == Some(h) && i < h.count && |cells| == h.columns
    ensures AllDeclared(b, h, at, values, cells) && at[0] == 32 && values[0] == h.rows + i * h.stride
    ensures Readable(b, cells) && TableRow(b, i) == Some(Row(h.name, Collect(b, cells)))
  {
    hide *;
    h, cells := AcceptedCells(b, i);
    var start := h.rows + i * h.stride;
    CellsInRegions(b, h, 32, start, start + h.stride, h.columns);
    at, values := CellsDeclared(b, h, 32, start, start + h.stride, h.columns);
    DeclaredSize(b, h, at, values, cells);
  }

  lemma DeclaredSize(b: bytes, h: Header, at: seq<nat>, values: seq<nat>, cells: seq<Cell>)
    requires AllDeclared(b, h, at, values, cells)
    ensures |at| == |values| == |cells| + 1
  {
    hide Declares;
  }
}
