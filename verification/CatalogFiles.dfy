/** Whole catalog files: what they show, and that parsing gives exactly that. */
module CatalogFiles {
  import opened Bytes
  import opened Numbers
  import opened Graph
  import opened CatalogReader
  import opened CatalogImages
  import opened Catalogs

  // ----- the key table

  /** Two words: where the key stands, and where the list of its locations does. */
  ghost predicate ShowsRow(types: Types, d: bytes, o: u32, row: Row)
  {
    exists key: u32, ids: u32 ::
      Holds(d, o, PrintWords([key, ids])) && ShowsKey(types, d, key, row.key) && ShowsArray(d, ids, row.ids)
  }

  ghost predicate ShowsRows(types: Types, d: bytes, o: int, rows: seq<Row>)
  {
    forall i :: 0 <= i < |rows| ==> 0 <= o + 8 * i < 0x1_0000_0000 && ShowsRow(types, d, o + 8 * i, rows[i])
  }

  /** The three words at the front of a file, and a table of rows behind its length in bytes. */
  ghost predicate ShowsTable(types: Types, d: bytes, rows: seq<Row>)
  {
    |d| >= 32 && exists at: u32 ::
      Holds(d, 0, PrintWords([0x0DE3_8942, 2, at])) &&
      if at == 0xFFFF_FFFF then rows == []
      else
        && 4 <= at && |rows| <= 200_000 && Holds(d, at - 4, ToLe(8 * |rows|, 4)) && at + 8 * |rows| <= |d|
        && ShowsRows(types, d, at, rows)
  }

  lemma IdsExact(d: bytes, o: u32, ids: seq<u32>)
    requires |d| <= MAX_CATALOG && o + 8 <= |d|
    ensures IdsAt(d, o) == Some(ids) <==> ShowsArray(d, WordIn(d, o + 4), ids)
  {
    hide WordArray, ShowsArray;
    ArrayExact(d, WordIn(d, o + 4), ids);
  }

  lemma RowExact(types: Types, d: bytes, o: u32, row: Row)
    requires |d| <= MAX_CATALOG
    ensures RowAt(types, d, o) == Some(row) <==> ShowsRow(types, d, o, row)
  {
    hide Le, KeyAt, IdsAt, Holds, PrintWords, ShowsKey, ShowsArray;
    if o + 8 <= |d| {
      var key, ids := WordIn(d, o), WordIn(d, o + 4);
      PairHeld(d, o, key, ids);
      KeyExact(types, d, key, row.key);
      IdsExact(d, o, row.ids);
    }
    forall key: u32, ids: u32 | Holds(d, o, PrintWords([key, ids]))
      ensures o + 8 <= |d| && key == WordIn(d, o) && ids == WordIn(d, o + 4)
    {
      PairHeld(d, o, key, ids);
    }
  }

  lemma {:induction false} RowsRead(types: Types, d: bytes, at: seq<u32>, rows: seq<Row>)
    requires |d| <= MAX_CATALOG
    ensures Rows(types, d, at) == Some(rows) <==>
      |rows| == |at| && forall i :: 0 <= i < |at| ==> RowAt(types, d, at[i]) == Some(rows[i])
  {
    hide RowAt;
    if at == [] {
    } else if rows == [] {
      assert Rows(types, d, at).Some? ==> |Rows(types, d, at).value| > 0;
    } else {
      var front, last := at[..|at| - 1], at[|at| - 1];
      var before, row := rows[..|rows| - 1], rows[|rows| - 1];
      RowsRead(types, d, front, before);
      assert rows == before + [row];
      if |rows| == |at| && forall i :: 0 <= i < |at| ==> RowAt(types, d, at[i]) == Some(rows[i]) {
        assert forall i :: 0 <= i < |front| ==> front[i] == at[i] && before[i] == rows[i];
        assert RowAt(types, d, at[|front|]) == Some(rows[|front|]);
      }
      if Rows(types, d, at) == Some(rows) {
        assert Rows(types, d, front).value + [RowAt(types, d, last).value] == rows;
        assert Rows(types, d, front).value == before;
        assert forall i :: 0 <= i < |front| ==> front[i] == at[i] && before[i] == rows[i];
      }
    }
  }

  lemma TableRows(types: Types, d: bytes, o: u32, rows: seq<Row>)
    requires |d| <= MAX_CATALOG && o + 8 * |rows| <= |d|
    ensures Rows(types, d, Items(o, 8, |rows|)) == Some(rows) <==> ShowsRows(types, d, o, rows)
  {
    hide RowAt, ShowsRow, Rows, Items;
    var at := Items(o, 8, |rows|);
    RowsRead(types, d, at, rows);
    assert |at| == |rows| && forall i :: 0 <= i < |rows| ==> at[i] == o + i * 8;
    forall i | 0 <= i < |rows| ensures RowAt(types, d, at[i]) == Some(rows[i]) <==> ShowsRow(types, d, at[i], rows[i]) {
      RowExact(types, d, at[i], rows[i]);
    }
    RowsAtItems(types, d, o, at, rows);
  }

  lemma RowsAtItems(types: Types, d: bytes, o: u32, at: seq<u32>, rows: seq<Row>)
    requires |at| == |rows| && forall i :: 0 <= i < |rows| ==> at[i] == o + i * 8
    ensures (forall i :: 0 <= i < |rows| ==> ShowsRow(types, d, at[i], rows[i])) <==> ShowsRows(types, d, o, rows)
  {
    hide ShowsRow;
    if ShowsRows(types, d, o, rows) {
      forall i | 0 <= i < |rows| ensures ShowsRow(types, d, at[i], rows[i]) {
        assert ShowsRow(types, d, o + 8 * i, rows[i]);
      }
    }
    if forall i :: 0 <= i < |rows| ==> ShowsRow(types, d, at[i], rows[i]) {
      forall i | 0 <= i < |rows| ensures 0 <= o + 8 * i < 0x1_0000_0000 && ShowsRow(types, d, o + 8 * i, rows[i]) {
        assert at[i] == o + 8 * i;
      }
    }
  }

  lemma ThreeHeld(d: bytes, a: u32, b: u32, c: u32)
    ensures Holds(d, 0, PrintWords([a, b, c])) <==>
      12 <= |d| && Le(d[0..4]) == a && Le(d[4..8]) == b && Le(d[8..12]) == c
  {
    var ws: seq<u32> := [a, b, c];
    WordsHeld(d, 0, ws);
    hide Holds, PrintWords, Le;
    assert ws[0] == a && ws[1] == b && ws[2] == c;
    if 12 <= |d| && forall i :: 0 <= i < |ws| ==> Le(d[0 + 4 * i..0 + 4 * i + 4]) == ws[i] {
      assert Le(d[0 + 4 * 0..0 + 4 * 0 + 4]) == ws[0] && Le(d[0 + 4 * 1..0 + 4 * 1 + 4]) == ws[1];
      assert Le(d[0 + 4 * 2..0 + 4 * 2 + 4]) == ws[2];
    }
  }

  /** The rows behind the length in front of the table. */
  lemma TableBehind(types: Types, d: bytes, at: u32, rows: seq<Row>)
    requires |d| <= MAX_CATALOG && at != NULL
    ensures (Array(d, at, 8).Some? && Rows(types, d, Array(d, at, 8).value) == Some(rows)) <==>
      && 4 <= at && |rows| <= 200_000 && Holds(d, at - 4, ToLe(8 * |rows|, 4)) && at + 8 * |rows| <= |d|
      && ShowsRows(types, d, at, rows)
  {
    hide Le, ToLe, Holds, Rows, Items, ShowsRows;
    if 4 <= at {
      if |rows| <= 200_000 {
        NumberHeld(d, at - 4, 8 * |rows|);
        if at + 8 * |rows| <= |d| {
          TableRows(types, d, at, rows);
        }
      }
      if Array(d, at, 8).Some? {
        var at_ := Array(d, at, 8).value;
        RowsRead(types, d, at_, rows);
      }
    }
  }

  /** The rows are read exactly as the file shows them. */
  lemma TableExact(types: Types, d: bytes, rows: seq<Row>)
    requires |d| <= MAX_CATALOG
    ensures Table(types, d) == Some(rows) <==> ShowsTable(types, d, rows)
  {
    hide Le, ToLe, Holds, PrintWords, Rows, ShowsRows, Array;
    if |d| >= 32 {
      var at := WordIn(d, 8);
      ThreeHeld(d, 0x0DE3_8942, 2, at);
      NoTable(types, d);
      if at != NULL {
        TableBehind(types, d, at, rows);
      }
      forall a: u32 | Holds(d, 0, PrintWords([0x0DE3_8942, 2, a])) ensures a == at {
        ThreeHeld(d, 0x0DE3_8942, 2, a);
      }
    }
  }

  lemma NoTable(types: Types, d: bytes)
    requires |d| <= MAX_CATALOG
    ensures Array(d, NULL, 8) == Some([]) && Rows(types, d, []) == Some([])
  {
  }

  // ----- keys and locations

  /** The text keys of the rows, each once, with the locations of its row. */
  ghost predicate NamesRows(rows: seq<Row>, keys: map<bytes, seq<u32>>)
  {
    && (forall i, j :: 0 <= i < j < |rows| && rows[i].key.Some? ==> rows[i].key != rows[j].key)
    && (forall i :: 0 <= i < |rows| && rows[i].key.Some? ==>
          rows[i].key.value in keys && keys[rows[i].key.value] == rows[i].ids)
    && forall k :: k in keys ==> exists i :: 0 <= i < |rows| && rows[i].key == Some(k)
  }

  lemma {:induction false} KeysName(rows: seq<Row>)
    requires Keys(rows).Some?
    ensures NamesRows(rows, Keys(rows).value)
  {
    if rows != [] {
      var front, last := rows[..|rows| - 1], rows[|rows| - 1];
      AppendRow(front, last);
      assert rows == front + [last];
      hide Keys, Roots, References, KeyMaterial;
      KeysName(front);
      NamesOneMore(front, last, Keys(front).value);
    }
  }

  lemma NamesOneMore(front: seq<Row>, last: Row, before: map<bytes, seq<u32>>)
    requires NamesRows(front, before) && (last.key.Some? ==> last.key.value !in before)
    ensures NamesRows(front + [last], if last.key.None? then before else before[last.key.value := last.ids])
  {
    var rows, keys := front + [last], if last.key.None? then before else before[last.key.value := last.ids];
    forall k | k in keys ensures exists i :: 0 <= i < |rows| && rows[i].key == Some(k) {
      if k in before {
        var i :| 0 <= i < |front| && front[i].key == Some(k);
        assert rows[i].key == Some(k);
      } else {
        assert rows[|front|].key == Some(k);
      }
    }
  }

  lemma NamesOneLess(front: seq<Row>, last: Row, keys: map<bytes, seq<u32>>)
    requires NamesRows(front + [last], keys)
    ensures var before := if last.key.Some? then keys - {last.key.value} else keys;
      && NamesRows(front, before) && (last.key.Some? ==> last.key.value !in before)
      && keys == if last.key.None? then before else before[last.key.value := last.ids]
  {
    var rows, before := front + [last], if last.key.Some? then keys - {last.key.value} else keys;
    assert rows[|front|] == last && forall i :: 0 <= i < |front| ==> front[i] == rows[i];
    forall k | k in before ensures exists i :: 0 <= i < |front| && front[i].key == Some(k) {
      var i :| 0 <= i < |rows| && rows[i].key == Some(k);
      assert front[i].key == Some(k);
    }
    if last.key.Some? {
      assert keys == before[last.key.value := last.ids];
    }
  }

  lemma {:induction false} NamedKeys(rows: seq<Row>, keys: map<bytes, seq<u32>>)
    requires NamesRows(rows, keys)
    ensures Keys(rows) == Some(keys)
  {
    if rows == [] {
      assert keys == map[];
    } else {
      var front, last := rows[..|rows| - 1], rows[|rows| - 1];
      assert rows == front + [last];
      hide NamesRows, Keys, Roots, References, KeyMaterial;
      NamesOneLess(front, last, keys);
      NamedKeys(front, if last.key.Some? then keys - {last.key.value} else keys);
      AppendRow(front, last);
    }
  }

  function EdgesOf(locations: map<u32, Location>): u32 -> seq<u32>
  {
    id => if id in locations then locations[id].dependencies else []
  }

  function IdsOf(rows: seq<Row>): set<u32>
  {
    set i, j | 0 <= i < |rows| && 0 <= j < |rows[i].ids| :: rows[i].ids[j]
  }

  /** The locations are those that the rows lead to, and nothing that they lead to is missing; each is shown. */
  ghost predicate ShowsLocations(types: Types, d: bytes, rows: seq<Row>, locations: map<u32, Location>)
  {
    && (forall id :: id in locations <==> Reached(EdgesOf(locations), IdsOf(rows), id))
    && forall id :: id in locations ==> ShowsLocation(types, d, id, locations[id])
  }

  /** A file of at most 32 MiB with a table of rows, distinct text keys, and all locations that the rows lead to. */
  ghost predicate ShowsCatalog(types: Types, d: bytes, c: Catalog)
  {
    |d| <= 32 * 1024 * 1024 && exists rows ::
      ShowsTable(types, d, rows) && NamesRows(rows, c.keys) && ShowsLocations(types, d, rows, c.locations)
  }

  lemma {:induction false} PathElsewhere<T(!new)>(f: T -> seq<T>, g: T -> seq<T>, roots: set<T>, p: seq<T>, n: nat)
    requires forall x :: Reached(f, roots, x) ==> f(x) == g(x)
    requires p != [] && p[0] in roots && n < |p|
    requires Path(f, p) || Path(g, p)
    ensures Reached(f, roots, p[n]) && Reached(g, roots, p[n])
  {
    if n == 0 {
      RootReached(f, roots, p[0]);
      RootReached(g, roots, p[0]);
    } else {
      PathElsewhere(f, g, roots, p, n - 1);
      assert p[n - 1 + 1] in f(p[n - 1]);
      NextReached(f, roots, p[n - 1], p[n]);
      NextReached(g, roots, p[n - 1], p[n]);
    }
  }

  /** Two graphs that agree wherever the first one leads reach the same. */
  lemma ReachedElsewhere<T(!new)>(f: T -> seq<T>, g: T -> seq<T>, roots: set<T>, x: T)
    requires forall x :: Reached(f, roots, x) ==> f(x) == g(x)
    ensures Reached(f, roots, x) <==> Reached(g, roots, x)
  {
    if Reached(f, roots, x) {
      var p :| Joins(f, roots, p, x);
      PathElsewhere(f, g, roots, p, |p| - 1);
    }
    if Reached(g, roots, x) {
      var p :| Joins(g, roots, p, x);
      PathElsewhere(f, g, roots, p, |p| - 1);
    }
  }

  lemma RootsAreIds(rows: seq<Row>)
    ensures Roots(rows) == IdsOf(rows)
  {
    forall id ensures id in Roots(rows) <==> id in IdsOf(rows) {
      if id in Roots(rows) {
        var r :| r in rows && id in r.ids;
        var i :| 0 <= i < |rows| && rows[i] == r;
        var j :| 0 <= j < |r.ids| && r.ids[j] == id;
        assert rows[i].ids[j] == id;
      }
      if id in IdsOf(rows) {
        var i, j :| 0 <= i < |rows| && 0 <= j < |rows[i].ids| && rows[i].ids[j] == id;
        assert rows[i] in rows && id in rows[i].ids;
      }
    }
  }

  lemma LocationsExact(types: Types, d: bytes, rows: seq<Row>, locations: map<u32, Location>)
    requires |d| <= MAX_CATALOG
    ensures EveryLocationReads(types, d, rows) && Exact(types, d, rows, locations) <==>
      ShowsLocations(types, d, rows, locations)
  {
    RootsAreIds(rows);
    forall id | id in locations
      ensures LocationAt(types, d, id) == Some(locations[id]) <==> ShowsLocation(types, d, id, locations[id])
    {
      LocationExact(types, d, id, locations[id]);
    }
    hide LocationAt, ShowsLocation, Roots, IdsOf;
    ShownFromRead(types, d, rows, locations);
    ReadFromShown(types, d, rows, locations);
    hide EveryLocationReads, Exact, ShowsLocations;
  }

  lemma ShownFromRead(types: Types, d: bytes, rows: seq<Row>, locations: map<u32, Location>)
    requires |d| <= MAX_CATALOG && Roots(rows) == IdsOf(rows)
    requires forall id :: id in locations ==>
      (LocationAt(types, d, id) == Some(locations[id]) <==> ShowsLocation(types, d, id, locations[id]))
    ensures EveryLocationReads(types, d, rows) && Exact(types, d, rows, locations) ==>
      ShowsLocations(types, d, rows, locations)
  {
    var f, g, roots := Depends(types, d), EdgesOf(locations), Roots(rows);
    hide LocationAt, ShowsLocation, Reached, Roots, IdsOf;
    if EveryLocationReads(types, d, rows) && Exact(types, d, rows, locations) {
      assert forall id :: id in locations ==> f(id) == g(id);
      hide Depends, EdgesOf;
      forall id ensures Reached(f, roots, id) <==> Reached(g, roots, id) {
        ReachedElsewhere(f, g, roots, id);
      }
    }
  }

  lemma ReadFromShown(types: Types, d: bytes, rows: seq<Row>, locations: map<u32, Location>)
    requires |d| <= MAX_CATALOG && Roots(rows) == IdsOf(rows)
    requires forall id :: id in locations ==>
      (LocationAt(types, d, id) == Some(locations[id]) <==> ShowsLocation(types, d, id, locations[id]))
    ensures ShowsLocations(types, d, rows, locations) ==>
      EveryLocationReads(types, d, rows) && Exact(types, d, rows, locations)
  {
    var f, g, roots := Depends(types, d), EdgesOf(locations), Roots(rows);
    hide LocationAt, ShowsLocation, Reached, Roots, IdsOf;
    if ShowsLocations(types, d, rows, locations) {
      assert forall id :: id in locations ==> f(id) == g(id);
      hide Depends, EdgesOf;
      forall id ensures Reached(g, roots, id) <==> Reached(f, roots, id) {
        ReachedElsewhere(g, f, roots, id);
      }
    }
  }

  /** What a file means is exactly what it shows. */
  lemma MeaningExact(types: Types, d: bytes, c: Catalog)
    requires |d| <= MAX_CATALOG
    ensures Meaning(types, d, c) <==> ShowsCatalog(types, d, c)
  {
    hide Table, Keys, ShowsTable, NamesRows, EveryLocationReads, Exact, ShowsLocations;
    if Meaning(types, d, c) {
      var rows := Table(types, d).value;
      TableExact(types, d, rows);
      KeysName(rows);
      LocationsExact(types, d, rows, c.locations);
    }
    if ShowsCatalog(types, d, c) {
      var rows :| ShowsTable(types, d, rows) && NamesRows(rows, c.keys) && ShowsLocations(types, d, rows, c.locations);
      TableExact(types, d, rows);
      NamedKeys(rows, c.keys);
      LocationsExact(types, d, rows, c.locations);
    }
  }

  /** What a location counts for in the limits is the length of its texts and dependencies when written down. */
  lemma MaterialIsLength(l: Location)
    ensures Material(l) ==
      |l.key + l.internal + l.provider + l.resourceType + PrintWords(l.dependencies)| +
      |if l.options.Some? then l.options.value.bundleName + l.options.value.hash else []|
  {
  }

  /**
   Total on every byte string: a catalog exactly when the bytes are well-formed and nothing in them exceeds a limit,
   and then the one catalog that the file shows.
   */
  method Parse(types: Types, data: bytes) returns (r: Parsed)
    ensures r.Parsed? <==> |data| <= MAX_CATALOG && WellFormed(types, data) && !Oversized(types, data)
    ensures r.Parsed? ==> Meaning(types, data, r.catalog) && WithinLimits(types, data, r.catalog)
    ensures r.Parsed? ==> ShowsCatalog(types, data, r.catalog)
    ensures forall c :: ShowsCatalog(types, data, c) ==>
      (r.Parsed? && r.catalog == c) || (r.TooLarge? && Oversized(types, data))
    ensures r.Malformed? ==> |data| <= MAX_CATALOG && !WellFormed(types, data)
    ensures r.TooLarge? ==> Oversized(types, data)
  {
    if |data| > MAX_CATALOG {
      return TooLarge;
    }
    forall c ensures Meaning(types, data, c) <==> ShowsCatalog(types, data, c) {
      MeaningExact(types, data, c);
    }
    forall a, b | Meaning(types, data, a) && Meaning(types, data, b) ensures a == b {
      MeaningIsUnique(types, data, a, b);
    }
    hide ShowsCatalog;
    hide Table, Roots, Keys, KeyMaterial, References, Exact, EveryLocationReads, Honest, Known, Oversized,
      LocationsWithin;
    var reader := new Reader(types, data);
    var status, keys, pending, materialized, rows := ReadTable(reader);
    if status.Bad? {
      return Malformed;
    }
    if status.Big? {
      return TooLarge;
    }
    var closed, locations := Close(reader, pending, materialized, rows);
    if closed.Bad? {
      return Malformed;
    }
    if closed.Big? {
      return TooLarge;
    }
    NothingExceeds(types, data, rows, locations, reader.decoded);
    return Parsed(Catalog(keys, locations));
  }
}
