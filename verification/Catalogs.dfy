/**
 The catalog: the key table, the worklist that closes the location graph, and the limits on both.  A file becomes a
 catalog exactly when it is well formed and nothing that parsing asks of it exceeds a limit.
 */
module Catalogs {
  import opened Bytes
  import opened Graph
  import opened Sets
  import opened Sums
  import opened CatalogReader

  const MAGIC: u32 := 0x0DE3_8942
  const VERSION: u32 := 2
  const MAX_REFERENCES := 1_000_000
  const MAX_EDGES := 1_000_000
  const MAX_LOCATIONS := 200_000
  const MAX_MATERIAL := 0x800_0000

  datatype Catalog = Catalog(keys: map<bytes, seq<u32>>, locations: map<u32, Location>)

  /** One row of the key table; the key is None for a number. */
  datatype Row = Row(key: Option<bytes>, ids: seq<u32>)

  datatype Parsed = Parsed(catalog: Catalog) | Malformed | TooLarge

  // ----- what the bytes mean

  function TableAt(d: bytes): Option<seq<u32>>
    requires |d| <= MAX_CATALOG
  {
    if |d| < 32 || WordIn(d, 0) != MAGIC || WordIn(d, 4) != VERSION then None else Array(d, WordIn(d, 8), 8)
  }

  function IdsAt(d: bytes, a: u32): Option<seq<u32>>
    requires |d| <= MAX_CATALOG
  {
    if a + 8 > |d| then None else WordArray(d, WordIn(d, a + 4))
  }

  function RowAt(types: Types, d: bytes, a: u32): Option<Row>
    requires |d| <= MAX_CATALOG
  {
    if a + 8 > |d| then None else
      var ids :- IdsAt(d, a);
      var key :- KeyAt(types, d, WordIn(d, a));
      Some(Row(key, ids))
  }

  function Rows(types: Types, d: bytes, at: seq<u32>): Option<seq<Row>>
    requires |d| <= MAX_CATALOG
  {
    if at == [] then Some([]) else
      var front :- Rows(types, d, at[..|at| - 1]);
      var row :- RowAt(types, d, at[|at| - 1]);
      Some(front + [row])
  }

  function Table(types: Types, d: bytes): Option<seq<Row>>
    requires |d| <= MAX_CATALOG
  {
    var at :- TableAt(d);
    Rows(types, d, at)
  }

  /** The text keys; None when one comes twice. */
  function Keys(rows: seq<Row>): Option<map<bytes, seq<u32>>>
  {
    if rows == [] then Some(map[]) else
      var keys :- Keys(rows[..|rows| - 1]);
      var row := rows[|rows| - 1];
      if row.key.None? then Some(keys)
      else if row.key.value in keys then None
      else Some(keys[row.key.value := row.ids])
  }

  function AsSet(ids: seq<u32>): set<u32>
  {
    set id | id in ids
  }

  /** Every id that any row lists, a number's row included. */
  function Roots(rows: seq<Row>): set<u32>
  {
    set r, id | r in rows && id in r.ids :: id
  }

  function Depends(types: Types, d: bytes): u32 -> seq<u32>
  {
    id => if |d| > MAX_CATALOG then [] else
      match LocationAt(types, d, id) case None => [] case Some(l) => l.dependencies
  }

  ghost predicate EveryLocationReads(types: Types, d: bytes, rows: seq<Row>)
    requires |d| <= MAX_CATALOG
  {
    forall id :: Reached(Depends(types, d), Roots(rows), id) ==> LocationAt(types, d, id).Some?
  }

  ghost predicate WellFormed(types: Types, d: bytes)
    requires |d| <= MAX_CATALOG
  {
    && Table(types, d).Some? && Keys(Table(types, d).value).Some?
    && EveryLocationReads(types, d, Table(types, d).value)
  }

  /** The locations are exactly those reached from the listed ids, each as its bytes say. */
  ghost predicate Exact(types: Types, d: bytes, rows: seq<Row>, locations: map<u32, Location>)
    requires |d| <= MAX_CATALOG
  {
    && (forall id :: id in locations <==> Reached(Depends(types, d), Roots(rows), id))
    && forall id :: id in locations ==> LocationAt(types, d, id) == Some(locations[id])
  }

  ghost predicate Meaning(types: Types, d: bytes, c: Catalog)
    requires |d| <= MAX_CATALOG
  {
    && WellFormed(types, d) && Keys(Table(types, d).value) == Some(c.keys)
    && Exact(types, d, Table(types, d).value, c.locations)
  }

  // ----- the budgets

  function References(rows: seq<Row>): nat
  {
    if rows == [] then 0 else References(rows[..|rows| - 1]) + |rows[|rows| - 1].ids|
  }

  function KeyMaterial(rows: seq<Row>): nat
  {
    if rows == [] then 0 else
      var row := rows[|rows| - 1];
      KeyMaterial(rows[..|rows| - 1]) + if row.key.None? then 0 else |row.key.value| + 4 * |row.ids|
  }

  function Material(l: Location): nat
  {
    |l.key| + |l.internal| + |l.provider| + |l.resourceType| + 4 * |l.dependencies| +
    match l.options case None => 0 case Some(o) => |o.bundleName| + |o.hash|
  }

  function EdgeCount(l: Location): nat
  {
    |l.dependencies|
  }

  function RowAsks(types: Types, d: bytes, a: u32): set<Ask>
    requires |d| <= MAX_CATALOG
  {
    if a + 8 > |d| then {} else KeyAsks(types, d, WordIn(d, a))
  }

  /** The strings that reading these rows asks for. */
  function RowsAsks(types: Types, d: bytes, at: seq<u32>): set<Ask>
    requires |d| <= MAX_CATALOG
  {
    if at == [] then {} else RowsAsks(types, d, at[..|at| - 1]) + RowAsks(types, d, at[|at| - 1])
  }

  /** The strings that reading these locations asks for. */
  function LocationsAsks(types: Types, d: bytes, ids: set<u32>): set<Ask>
    requires |d| <= MAX_CATALOG
  {
    set id, k | id in ids && k in LocationAsks(types, d, id) :: k
  }

  /** The first `n` rows and the one after them, if there is one. */
  function Begun(table: seq<u32>, n: nat): seq<u32>
  {
    if n < |table| then table[..n + 1] else table
  }

  /**
   Things that the bytes really hold: a start of the key table with the ids of the row after it, some locations
   reached from there, further ids reached, and decoded strings that these rows and reached locations ask for.
   */
  datatype Evidence = Evidence(
    at: seq<u32>, rows: seq<Row>, ids: seq<u32>, locations: map<u32, Location>, further: set<u32>, strings: Memo)

  ghost predicate Present(types: Types, d: bytes, e: Evidence)
    requires |d| <= MAX_CATALOG
  {
    && TableAt(d).Some? && TablePart(types, d, e.at, e.rows, e.ids)
    && LocationPart(types, d, e.rows, e.locations, e.further)
    && Honest(d, e.strings) && Asked(types, d, e)
  }

  ghost predicate TablePart(types: Types, d: bytes, at: seq<u32>, rows: seq<Row>, ids: seq<u32>)
    requires |d| <= MAX_CATALOG && TableAt(d).Some?
  {
    && at <= TableAt(d).value && Rows(types, d, at) == Some(rows)
    && (ids == [] || (|at| < |TableAt(d).value| && IdsAt(d, TableAt(d).value[|at|]) == Some(ids)))
  }

  ghost predicate LocationPart(
    types: Types, d: bytes, rows: seq<Row>, locations: map<u32, Location>, further: set<u32>)
    requires |d| <= MAX_CATALOG
  {
    && (forall id :: id in locations ==> LocationAt(types, d, id) == Some(locations[id]))
    && (forall id :: id in locations || id in further ==> Reached(Depends(types, d), Roots(rows), id))
    && locations.Keys !! further
  }

  /** Every decoded string is one that a row begun or a reached location asks for. */
  ghost predicate Asked(types: Types, d: bytes, e: Evidence)
    requires |d| <= MAX_CATALOG && TableAt(d).Some?
  {
    forall k :: k in e.strings ==>
      || k in RowsAsks(types, d, Begun(TableAt(d).value, |e.at|))
      || exists id :: Reached(Depends(types, d), Roots(e.rows), id) && k in LocationAsks(types, d, id)
  }

  ghost predicate OverBudget(e: Evidence)
  {
    || References(e.rows) + |e.ids| > MAX_REFERENCES
    || KeyMaterial(e.rows) + Sum(e.locations, Material) > MAX_MATERIAL
    || Sum(e.locations, EdgeCount) > MAX_EDGES
    || |e.locations| + |e.further| > MAX_LOCATIONS
    || Sum(e.strings, Size) > STRING_BUDGET
  }

  ghost predicate Oversized(types: Types, d: bytes)
  {
    |d| > MAX_CATALOG || exists e :: Present(types, d, e) && OverBudget(e)
  }

  /** The limits that concern the locations. */
  ghost predicate LocationsWithin(rows: seq<Row>, locations: map<u32, Location>)
  {
    && KeyMaterial(rows) + Sum(locations, Material) <= MAX_MATERIAL
    && Sum(locations, EdgeCount) <= MAX_EDGES && |locations| <= MAX_LOCATIONS
  }

  // ----- lemmas about the parts

  lemma {:induction false} RowsPrefix(types: Types, d: bytes, at: seq<u32>, i: nat)
    requires |d| <= MAX_CATALOG && i <= |at| && Rows(types, d, at).Some?
    ensures Rows(types, d, at[..i]).Some? && Rows(types, d, at[..i]).value <= Rows(types, d, at).value
    ensures |Rows(types, d, at).value| == |at|
    decreases |at|
  {
    hide RowAt;
    if at != [] {
      var front := at[..|at| - 1];
      if i < |at| {
        assert front[..i] == at[..i];
        RowsPrefix(types, d, front, i);
      } else {
        assert at[..i] == at;
        RowsPrefix(types, d, front, |front|);
      }
    }
  }

  lemma RowsStep(types: Types, d: bytes, at: seq<u32>, i: nat)
    requires |d| <= MAX_CATALOG && i < |at|
    ensures Rows(types, d, at[..i + 1]) ==
      match Rows(types, d, at[..i]) case None => None case Some(front) =>
      match RowAt(types, d, at[i]) case None => None case Some(row) => Some(front + [row])
  {
    assert at[..i + 1][..i] == at[..i];
    hide RowAt;
  }

  lemma {:induction false} KeysPrefix(rows: seq<Row>, front: seq<Row>)
    requires front <= rows && Keys(rows).Some?
    ensures Keys(front).Some?
    decreases |rows|
  {
    if |front| < |rows| {
      assert front <= rows[..|rows| - 1];
      KeysPrefix(rows[..|rows| - 1], front);
    } else {
      assert front == rows;
    }
  }

  lemma AppendRow(rows: seq<Row>, row: Row)
    ensures Roots(rows + [row]) == Roots(rows) + AsSet(row.ids)
    ensures References(rows + [row]) == References(rows) + |row.ids|
    ensures KeyMaterial(rows + [row]) ==
      KeyMaterial(rows) + if row.key.None? then 0 else |row.key.value| + 4 * |row.ids|
    ensures Keys(rows + [row]) ==
      match Keys(rows) case None => None case Some(keys) =>
      if row.key.None? then Some(keys) else if row.key.value in keys then None else Some(keys[row.key.value := row.ids])
  {
    assert (rows + [row])[..|rows|] == rows;
    forall id ensures id in Roots(rows + [row]) <==> id in Roots(rows) || id in row.ids {
      if id in row.ids {
        assert row in rows + [row];
      }
      if id in Roots(rows) {
        var r :| r in rows && id in r.ids;
        assert r in rows + [row];
      }
    }
  }

  // ----- parsing

  /** The invariant of the worklist. */
  ghost predicate Pending(types: Types, d: bytes, rows: seq<Row>, locations: map<u32, Location>, pending: set<u32>)
    requires |d| <= MAX_CATALOG
  {
    && (forall id :: id in locations ==>
          Reached(Depends(types, d), Roots(rows), id) && LocationAt(types, d, id) == Some(locations[id]))
    && (forall id :: id in pending ==> Reached(Depends(types, d), Roots(rows), id))
    && (forall id :: id in Roots(rows) ==> id in locations || id in pending)
    && forall id, to :: id in locations && to in locations[id].dependencies ==> to in locations || to in pending
  }

  lemma TakeLocation(types: Types, d: bytes, rows: seq<Row>, locations: map<u32, Location>, pending: set<u32>, id: u32)
    requires |d| <= MAX_CATALOG && Pending(types, d, rows, locations, pending) && id in pending
    requires LocationAt(types, d, id).Some?
    ensures var l := LocationAt(types, d, id).value;
      Pending(types, d, rows, locations[id := l],
        pending - {id} + set to | to in l.dependencies && to !in locations)
  {
    hide LocationAt, Roots;
    var l := LocationAt(types, d, id).value;
    forall to | to in l.dependencies ensures Reached(Depends(types, d), Roots(rows), to) {
      NextReached(Depends(types, d), Roots(rows), id, to);
    }
  }

  datatype Status = Fine | Bad | Big

  lemma BadRow(types: Types, d: bytes, at: seq<u32>, i: nat)
    requires |d| <= MAX_CATALOG && TableAt(d) == Some(at) && i < |at| && RowAt(types, d, at[i]).None?
    ensures Table(types, d).None?
  {
    if Rows(types, d, at).Some? {
      RowsPrefix(types, d, at, i + 1);
      RowsStep(types, d, at, i);
    }
  }

  lemma BadKeys(types: Types, d: bytes, at: seq<u32>, i: nat)
    requires |d| <= MAX_CATALOG && TableAt(d) == Some(at) && i <= |at|
    requires Rows(types, d, at[..i]).Some? && Keys(Rows(types, d, at[..i]).value).None?
    ensures Table(types, d).None? || Keys(Table(types, d).value).None?
  {
    hide Keys, TableAt;
    if Rows(types, d, at).Some? && Keys(Rows(types, d, at).value).Some? {
      RowsPrefix(types, d, at, i);
      KeysPrefix(Rows(types, d, at).value, Rows(types, d, at[..i]).value);
    }
  }

  /** What the first `i` rows of the table have put into the local variables. */
  ghost predicate Gathered(
    types: Types, d: bytes, at: seq<u32>, i: nat, rows: seq<Row>, keys: map<bytes, seq<u32>>, pending: set<u32>,
    references: nat, materialized: nat)
    requires |d| <= MAX_CATALOG
  {
    && TableAt(d) == Some(at) && i <= |at| && Rows(types, d, at[..i]) == Some(rows) && Keys(rows) == Some(keys)
    && pending == Roots(rows) && references == References(rows) && materialized == KeyMaterial(rows)
  }

  lemma GatherRow(
    types: Types, d: bytes, at: seq<u32>, i: nat, rows: seq<Row>, keys: map<bytes, seq<u32>>, pending: set<u32>,
    references: nat, materialized: nat, row: Row)
    requires |d| <= MAX_CATALOG && Gathered(types, d, at, i, rows, keys, pending, references, materialized)
    requires i < |at| && RowAt(types, d, at[i]) == Some(row)
    ensures Rows(types, d, at[..i + 1]) == Some(rows + [row])
    ensures row.key.None? ==> Gathered(types, d, at, i + 1, rows + [row], keys, pending + AsSet(row.ids),
      references + |row.ids|, materialized)
    ensures row.key.Some? && row.key.value !in keys ==> Gathered(types, d, at, i + 1, rows + [row],
      keys[row.key.value := row.ids], pending + AsSet(row.ids), references + |row.ids|,
      materialized + |row.key.value| + 4 * |row.ids|)
    ensures row.key.Some? && row.key.value in keys ==> Keys(rows + [row]).None?
  {
    RowsStep(types, d, at, i);
    AppendRow(rows, row);
    hide Rows, Keys, Roots, References, KeyMaterial, RowAt, TableAt;
  }

  /** One row: its ids first, against the reference budget, then its key. */
  method ReadRow(reader: Reader, a: u32, references: nat) returns (status: Status, key: Option<bytes>, ids: seq<u32>)
    requires reader.Valid() && reader.InBudget()
    modifies reader
    ensures reader.Valid()
    ensures Grew(old(reader.decoded.Keys), reader.decoded.Keys, RowAsks(reader.types, reader.data, a), status.Fine?)
    ensures status.Fine? ==> reader.InBudget() && references + |ids| <= MAX_REFERENCES
    ensures status.Fine? ==> RowAt(reader.types, reader.data, a) == Some(Row(key, ids))
    ensures status.Bad? ==> RowAt(reader.types, reader.data, a).None?
    ensures status.Big? && reader.InBudget() ==>
      IdsAt(reader.data, a) == Some(ids) && references + |ids| > MAX_REFERENCES
  {
    hide KeyAt, KeyAsks, IdsAt, WordIn;
    key, ids := None, [];
    if a + 8 > |reader.data| {
      return Bad, key, ids;
    }
    var list := IdsAt(reader.data, a);
    if list.None? {
      return Bad, key, ids;
    }
    ids := list.value;
    if references + |ids| > MAX_REFERENCES {
      return Big, key, ids;
    }
    var k := reader.Key(WordIn(reader.data, a));
    if k.None? {
      return if reader.InBudget() then Bad else Big, key, ids;
    }
    return Fine, k.value, ids;
  }

  lemma RowsAsksStep(types: Types, d: bytes, at: seq<u32>, i: nat)
    requires |d| <= MAX_CATALOG && i < |at|
    ensures RowsAsks(types, d, at[..i + 1]) == RowsAsks(types, d, at[..i]) + RowAsks(types, d, at[i])
  {
    assert at[..i + 1][..i] == at[..i];
    hide RowAsks;
  }

  /** The memo holds what the whole key table and these locations ask for. */
  ghost predicate Known(types: Types, d: bytes, known: set<Ask>, ids: set<u32>)
    requires |d| <= MAX_CATALOG
  {
    TableAt(d).Some? && known == RowsAsks(types, d, TableAt(d).value) + LocationsAsks(types, d, ids)
  }

  lemma TableKnown(types: Types, d: bytes, at: seq<u32>, known: set<Ask>)
    requires |d| <= MAX_CATALOG && TableAt(d) == Some(at) && known == RowsAsks(types, d, at[..|at|])
    ensures Known(types, d, known, {})
  {
    hide TableAt, RowsAsks, LocationAsks;
    assert at[..|at|] == at;
    assert LocationsAsks(types, d, {}) == {};
  }

  lemma LocationKnown(types: Types, d: bytes, before: set<Ask>, ids: set<u32>, id: u32, after: set<Ask>)
    requires |d| <= MAX_CATALOG && Known(types, d, before, ids)
    requires Grew(before, after, LocationAsks(types, d, id), true)
    ensures Known(types, d, after, ids + {id})
  {
    hide TableAt, RowsAsks, LocationAsks;
    assert LocationsAsks(types, d, ids + {id}) == LocationsAsks(types, d, ids) + LocationAsks(types, d, id);
  }

  /** Evidence that concerns the key table alone. */
  lemma RowsPresent(types: Types, d: bytes, at: seq<u32>, i: nat, rows: seq<Row>, ids: seq<u32>)
    requires |d| <= MAX_CATALOG && TableAt(d) == Some(at) && i <= |at| && Rows(types, d, at[..i]) == Some(rows)
    requires ids == [] || (i < |at| && IdsAt(d, at[i]) == Some(ids))
    ensures Present(types, d, Evidence(at[..i], rows, ids, map[], {}, map[]))
  {
    hide Rows, TableAt, IdsAt, LocationAt, LocationAsks, RowsAsks, Begun, Roots, Decode;
    assert at[..i] <= at && |at[..i]| == i;
  }

  lemma BigRow(types: Types, d: bytes, at: seq<u32>, i: nat, rows: seq<Row>, ids: seq<u32>)
    requires |d| <= MAX_CATALOG && TableAt(d) == Some(at) && i < |at| && Rows(types, d, at[..i]) == Some(rows)
    requires IdsAt(d, at[i]) == Some(ids) && References(rows) + |ids| > MAX_REFERENCES
    ensures Oversized(types, d)
  {
    hide Rows, TableAt, IdsAt, References, Present, Sum;
    RowsPresent(types, d, at, i, rows, ids);
    assert OverBudget(Evidence(at[..i], rows, ids, map[], {}, map[]));
  }

  lemma BigKeys(types: Types, d: bytes, at: seq<u32>, i: nat, rows: seq<Row>)
    requires |d| <= MAX_CATALOG && TableAt(d) == Some(at) && i <= |at| && Rows(types, d, at[..i]) == Some(rows)
    requires KeyMaterial(rows) > MAX_MATERIAL
    ensures Oversized(types, d)
  {
    hide Rows, TableAt, KeyMaterial, Present, Sum, IdsAt;
    RowsPresent(types, d, at, i, rows, []);
    assert OverBudget(Evidence(at[..i], rows, [], map[], {}, map[]));
  }

  /** Too much text by the row that is being read. */
  lemma BigRowStrings(types: Types, d: bytes, at: seq<u32>, i: nat, rows: seq<Row>, strings: Memo)
    requires |d| <= MAX_CATALOG && TableAt(d) == Some(at) && i < |at| && Rows(types, d, at[..i]) == Some(rows)
    requires Honest(d, strings) && strings.Keys <= RowsAsks(types, d, at[..i + 1])
    requires Sum(strings, Size) > STRING_BUDGET
    ensures Oversized(types, d)
  {
    hide TableAt, Honest, Rows, RowsAsks, LocationAt, LocationAsks, Roots, IdsAt, References, KeyMaterial, Sum;
    var e := Evidence(at[..i], rows, [], map[], {}, strings);
    assert at[..i] <= at && |at[..i]| == i;
    assert TablePart(types, d, at[..i], rows, []);
    assert LocationPart(types, d, rows, map[], {});
    assert Asked(types, d, e);
    hide TablePart, LocationPart, Asked;
    assert Present(types, d, e) && OverBudget(e);
  }

  datatype Listing = Listing(keys: map<bytes, seq<u32>>, pending: set<u32>, references: nat, materialized: nat)

  /** What the first `i` rows have put into a listing, within the limits. */
  ghost predicate Listed(types: Types, d: bytes, at: seq<u32>, i: nat, rows: seq<Row>, l: Listing)
    requires |d| <= MAX_CATALOG
  {
    && Gathered(types, d, at, i, rows, l.keys, l.pending, l.references, l.materialized)
    && l.references <= MAX_REFERENCES && l.materialized <= MAX_MATERIAL
  }

  /** Why a row that was not read ends the loop. */
  lemma RowStops(types: Types, d: bytes, at: seq<u32>, i: nat, rows: seq<Row>, l: Listing, status: Status,
    ids: seq<u32>, decoded: Memo, budget: bool)
    requires |d| <= MAX_CATALOG && Listed(types, d, at, i, rows, l) && i < |at|
    requires status.Bad? ==> RowAt(types, d, at[i]).None?
    requires status.Big? && budget ==> IdsAt(d, at[i]) == Some(ids) && l.references + |ids| > MAX_REFERENCES
    requires !budget ==> Sum(decoded, Size) > STRING_BUDGET
    requires Honest(d, decoded)
    requires Grew(RowsAsks(types, d, at[..i]), decoded.Keys, RowAsks(types, d, at[i]), false)
    ensures status.Bad? ==> Table(types, d).None? || Keys(Table(types, d).value).None?
    ensures status.Big? ==> Oversized(types, d)
  {
    hide TableAt, Rows, RowAt, IdsAt, Oversized, Honest, Keys, Roots, References, KeyMaterial, RowAsks, RowsAsks, Sum;
    RowsAsksStep(types, d, at, i);
    if status.Bad? {
      BadRow(types, d, at, i);
    } else if status.Big? && budget {
      BigRow(types, d, at, i, rows, ids);
    } else if status.Big? {
      BigRowStrings(types, d, at, i, rows, decoded);
    }
  }

  /** One row of the key table joins the listing. */
  method TakeRow(reader: Reader, at: seq<u32>, i: nat, l: Listing, ghost rows: seq<Row>)
    returns (status: Status, next: Listing, ghost more: seq<Row>)
    requires reader.Valid() && reader.InBudget() && i < |at|
    requires Listed(reader.types, reader.data, at, i, rows, l)
    requires reader.decoded.Keys == RowsAsks(reader.types, reader.data, at[..i])
    modifies reader
    ensures reader.Valid()
    ensures status.Fine? ==> reader.InBudget() && Listed(reader.types, reader.data, at, i + 1, more, next)
    ensures status.Fine? ==> reader.decoded.Keys == RowsAsks(reader.types, reader.data, at[..i + 1])
    ensures status.Bad? ==>
      Table(reader.types, reader.data).None? || Keys(Table(reader.types, reader.data).value).None?
    ensures status.Big? ==> Oversized(reader.types, reader.data)
  {
    hide TableAt, Rows, RowAt, IdsAt, Oversized, Honest, Keys, Roots, References, KeyMaterial, RowAsks, RowsAsks, Sum,
      Whole, Table;
    var types, d := reader.types, reader.data;
    next, more := l, rows;
    RowsAsksStep(types, d, at, i);
    var row, key, ids := ReadRow(reader, at[i], l.references);
    if !row.Fine? {
      RowStops(types, d, at, i, rows, l, row, ids, reader.decoded, reader.InBudget());
      return row, next, more;
    }
    GatherRow(types, d, at, i, rows, l.keys, l.pending, l.references, l.materialized, Row(key, ids));
    more := rows + [Row(key, ids)];
    next := Listing(l.keys, l.pending + AsSet(ids), l.references + |ids|, l.materialized);
    if key.Some? {
      next := next.(materialized := l.materialized + |key.value| + 4 * |ids|);
      if next.materialized > MAX_MATERIAL {
        AppendMaterial(rows, Row(key, ids));
        BigKeys(types, d, at, i + 1, more);
        return Big, next, more;
      }
      if key.value in l.keys {
        BadKeys(types, d, at, i + 1);
        return Bad, next, more;
      }
      next := next.(keys := l.keys[key.value := ids]);
    }
    return Fine, next, more;
  }

  lemma AppendMaterial(rows: seq<Row>, row: Row)
    requires row.key.Some?
    ensures KeyMaterial(rows + [row]) == KeyMaterial(rows) + |row.key.value| + 4 * |row.ids|
  {
    AppendRow(rows, row);
    hide KeyMaterial;
  }

  lemma ListingBegins(types: Types, d: bytes, at: seq<u32>)
    requires |d| <= MAX_CATALOG && TableAt(d) == Some(at)
    ensures Listed(types, d, at, 0, [], Listing(map[], {}, 0, 0)) && RowsAsks(types, d, at[..0]) == {}
  {
    hide TableAt;
    assert at[..0] == [];
  }

  /** The loop over the key table. */
  method ReadTable(reader: Reader)
    returns (status: Status, keys: map<bytes, seq<u32>>, pending: set<u32>, materialized: nat, ghost rows: seq<Row>)
    requires reader.Valid() && reader.InBudget() && reader.decoded == map[]
    modifies reader
    ensures reader.Valid()
    ensures status.Fine? ==>
      && reader.InBudget() && Table(reader.types, reader.data) == Some(rows) && Keys(rows) == Some(keys)
      && pending == Roots(rows) && materialized == KeyMaterial(rows)
    ensures status.Fine? ==> References(rows) <= MAX_REFERENCES && materialized <= MAX_MATERIAL
    ensures status.Fine? ==> Known(reader.types, reader.data, reader.decoded.Keys, {})
    ensures status.Bad? ==>
      Table(reader.types, reader.data).None? || Keys(Table(reader.types, reader.data).value).None?
    ensures status.Big? ==> Oversized(reader.types, reader.data)
  {
    hide TableAt, Rows, Oversized, Honest, Keys, Roots, References, KeyMaterial, RowsAsks, Known, Whole, Sum;
    var types, d := reader.types, reader.data;
    var l := Listing(map[], {}, 0, 0);
    rows := [];
    var table := TableAt(d);
    if table.None? {
      return Bad, l.keys, l.pending, l.materialized, rows;
    }
    var at := table.value;
    ListingBegins(types, d, at);
    for i := 0 to |at|
      invariant reader.Valid() && reader.InBudget() && Listed(types, d, at, i, rows, l)
      invariant reader.decoded.Keys == RowsAsks(types, d, at[..i])
    {
      status, l, rows := TakeRow(reader, at, i, l, rows);
      if !status.Fine? {
        return status, l.keys, l.pending, l.materialized, rows;
      }
    }
    assert at[..|at|] == at;
    TableKnown(types, d, at, reader.decoded.Keys);
    return Fine, l.keys, l.pending, l.materialized, rows;
  }

  /** The worklist with its running totals. */
  ghost predicate Work(types: Types, d: bytes, rows: seq<Row>, locations: map<u32, Location>, pending: set<u32>,
    materialized: nat, edges: nat)
    requires |d| <= MAX_CATALOG
  {
    && Table(types, d) == Some(rows) && Pending(types, d, rows, locations, pending)
    && materialized == KeyMaterial(rows) + Sum(locations, Material) && edges == Sum(locations, EdgeCount)
  }

  lemma WorkBegins(types: Types, d: bytes, rows: seq<Row>)
    requires |d| <= MAX_CATALOG && Table(types, d) == Some(rows)
    ensures Work(types, d, rows, map[], Roots(rows), KeyMaterial(rows), 0)
  {
    forall id | id in Roots(rows) ensures Reached(Depends(types, d), Roots(rows), id) {
      RootReached(Depends(types, d), Roots(rows), id);
    }
  }

  /** The ids that a taken location leaves to be visited. */
  function Remaining(locations: map<u32, Location>, pending: set<u32>, id: u32, l: Location): set<u32>
  {
    pending - {id} + set to | to in l.dependencies && to !in locations
  }

  lemma WorkGrows(types: Types, d: bytes, rows: seq<Row>, locations: map<u32, Location>, pending: set<u32>,
    materialized: nat, edges: nat, id: u32, l: Location)
    requires |d| <= MAX_CATALOG && Work(types, d, rows, locations, pending, materialized, edges)
    requires id in pending && id !in locations && LocationAt(types, d, id) == Some(l)
    ensures Work(types, d, rows, locations[id := l], Remaining(locations, pending, id, l),
      materialized + Material(l), edges + |l.dependencies|)
  {
    TakeLocation(types, d, rows, locations, pending, id);
    hide Table, Pending, KeyMaterial, LocationAt;
    SumAdd(locations, Material, id, l);
    SumAdd(locations, EdgeCount, id, l);
  }

  lemma TooMuchWork(types: Types, d: bytes, rows: seq<Row>, locations: map<u32, Location>, pending: set<u32>,
    materialized: nat, edges: nat, further: set<u32>)
    requires |d| <= MAX_CATALOG && Work(types, d, rows, locations, pending, materialized, edges)
    requires further <= pending && locations.Keys !! further
    requires materialized > MAX_MATERIAL || edges > MAX_EDGES || |locations| + |further| > MAX_LOCATIONS
    ensures Oversized(types, d)
  {
    hide TableAt, Rows, LocationAt, LocationAsks, RowsAsks, References, KeyMaterial, Roots, Sum, Decode, IdsAt;
    var at := TableAt(d).value;
    var e := Evidence(at, rows, [], locations, further, map[]);
    assert TablePart(types, d, at, rows, []);
    assert LocationPart(types, d, rows, locations, further);
    assert Asked(types, d, e) && Honest(d, e.strings);
    hide TablePart, LocationPart, Asked, Honest;
    assert Present(types, d, e) && OverBudget(e);
  }

  lemma NotAllRead(types: Types, d: bytes, rows: seq<Row>, locations: map<u32, Location>, pending: set<u32>,
    materialized: nat, edges: nat, id: u32)
    requires |d| <= MAX_CATALOG && Work(types, d, rows, locations, pending, materialized, edges) && id in pending
    requires LocationAt(types, d, id).None?
    ensures !EveryLocationReads(types, d, rows)
  {
    hide LocationAt, Table, KeyMaterial;
  }

  lemma LocationsAsked(types: Types, d: bytes, rows: seq<Row>, locations: map<u32, Location>, pending: set<u32>,
    id: u32, before: set<Ask>, e: Evidence)
    requires |d| <= MAX_CATALOG && Pending(types, d, rows, locations, pending) && id in pending
    requires Known(types, d, before, locations.Keys)
    requires Grew(before, e.strings.Keys, LocationAsks(types, d, id), false)
    requires TableAt(d) == Some(e.at) && e.rows == rows
    ensures Asked(types, d, e)
  {
    hide TableAt, Rows, RowsAsks, LocationAsks, LocationAt, Roots;
    forall k | k in e.strings && k !in RowsAsks(types, d, Begun(e.at, |e.at|))
      ensures exists id :: Reached(Depends(types, d), Roots(rows), id) && k in LocationAsks(types, d, id)
    {
      if k in LocationAsks(types, d, id) {
        assert Reached(Depends(types, d), Roots(rows), id);
      } else {
        assert k in LocationsAsks(types, d, locations.Keys);
        var of :| of in locations.Keys && k in LocationAsks(types, d, of);
        assert Reached(Depends(types, d), Roots(rows), of);
      }
    }
  }

  /** Too much text by the location that is being read. */
  lemma BigLocationStrings(types: Types, d: bytes, rows: seq<Row>, locations: map<u32, Location>, pending: set<u32>,
    materialized: nat, edges: nat, id: u32, before: set<Ask>, strings: Memo)
    requires |d| <= MAX_CATALOG && Work(types, d, rows, locations, pending, materialized, edges) && id in pending
    requires Known(types, d, before, locations.Keys)
    requires Grew(before, strings.Keys, LocationAsks(types, d, id), false)
    requires Honest(d, strings) && Sum(strings, Size) > STRING_BUDGET
    ensures Oversized(types, d)
  {
    hide TableAt, Honest, Rows, Pending, LocationAsks, LocationAt, Roots, IdsAt, References, KeyMaterial, Sum, RowsAsks;
    var at := TableAt(d).value;
    var e := Evidence(at, rows, [], map[], {}, strings);
    assert TablePart(types, d, at, rows, []);
    assert LocationPart(types, d, rows, map[], {});
    LocationsAsked(types, d, rows, locations, pending, id, before, e);
    hide TablePart, LocationPart, Asked, Work, Known, Grew;
    assert Present(types, d, e) && OverBudget(e);
  }

  datatype Progress = Progress(locations: map<u32, Location>, pending: set<u32>, materialized: nat, edges: nat)

  ghost predicate Underway(types: Types, d: bytes, rows: seq<Row>, p: Progress)
    requires |d| <= MAX_CATALOG
  {
    && Work(types, d, rows, p.locations, p.pending, p.materialized, p.edges)
    && |p.locations| <= MAX_LOCATIONS && p.materialized <= MAX_MATERIAL && p.edges <= MAX_EDGES
  }

  lemma Begin(types: Types, d: bytes, rows: seq<Row>, start: set<u32>, material: nat)
    requires |d| <= MAX_CATALOG && Table(types, d) == Some(rows) && start == Roots(rows)
    requires material == KeyMaterial(rows) && material <= MAX_MATERIAL
    ensures Underway(types, d, rows, Progress(map[], start, material, 0))
  {
    hide Work, Table, Roots, KeyMaterial;
    WorkBegins(types, d, rows);
  }

  lemma Skip(types: Types, d: bytes, rows: seq<Row>, p: Progress, id: u32)
    requires |d| <= MAX_CATALOG && Underway(types, d, rows, p) && id in p.locations
    ensures Underway(types, d, rows, p.(pending := p.pending - {id}))
  {
    hide LocationAt, Roots, Table, KeyMaterial, Sum;
  }

  lemma Finish(types: Types, d: bytes, rows: seq<Row>, p: Progress)
    requires |d| <= MAX_CATALOG && Underway(types, d, rows, p) && p.pending == {}
    ensures Exact(types, d, rows, p.locations) && EveryLocationReads(types, d, rows)
    ensures LocationsWithin(rows, p.locations)
  {
    hide Pending, Table, KeyMaterial, Sum, Exact, EveryLocationReads;
    NothingPending(types, d, rows, p.locations);
  }

  lemma NothingPending(types: Types, d: bytes, rows: seq<Row>, locations: map<u32, Location>)
    requires |d| <= MAX_CATALOG && Pending(types, d, rows, locations, {})
    ensures Exact(types, d, rows, locations) && EveryLocationReads(types, d, rows)
  {
    hide LocationAt, Roots, Reached, Joins;
    var next, roots, s := Depends(types, d), Roots(rows), locations.Keys;
    assert Closed(next, s);
    hide Depends, Closed;
    assert roots <= s;
    forall id | Reached(next, roots, id) ensures id in s {
      ReachedInside(next, roots, s, id);
    }
  }

  /** An id that has not been read yet, within the budgets. */
  method Visit(reader: Reader, id: u32, p: Progress, ghost rows: seq<Row>) returns (status: Status, q: Progress)
    requires reader.Valid() && reader.InBudget() && Underway(reader.types, reader.data, rows, p)
    requires id in p.pending && id !in p.locations
    requires Known(reader.types, reader.data, reader.decoded.Keys, p.locations.Keys)
    modifies reader
    ensures reader.Valid()
    ensures status.Fine? ==> reader.InBudget() && Underway(reader.types, reader.data, rows, q)
    ensures status.Fine? ==> Known(reader.types, reader.data, reader.decoded.Keys, q.locations.Keys)
    ensures status.Fine? ==> |q.locations| == |p.locations| + 1 <= MAX_LOCATIONS
    ensures status.Bad? ==> !EveryLocationReads(reader.types, reader.data, rows)
    ensures status.Big? ==> Oversized(reader.types, reader.data)
  {
    hide Table, TableAt, Roots, LocationAt, LocationAsks, Oversized, Work, EveryLocationReads, Remaining, Material,
      Known, Grew, Honest, Whole, Sum;
    var types, d := reader.types, reader.data;
    if |p.locations| >= MAX_LOCATIONS {
      TooMuchWork(types, d, rows, p.locations, p.pending, p.materialized, p.edges, {id});
      return Big, p;
    }
    ghost var before := reader.decoded.Keys;
    var l := reader.ReadLocation(id);
    if l.None? {
      if reader.InBudget() {
        NotAllRead(types, d, rows, p.locations, p.pending, p.materialized, p.edges, id);
        return Bad, p;
      }
      BigLocationStrings(types, d, rows, p.locations, p.pending, p.materialized, p.edges, id, before, reader.decoded);
      return Big, p;
    }
    LocationKnown(types, d, before, p.locations.Keys, id, reader.decoded.Keys);
    WorkGrows(types, d, rows, p.locations, p.pending, p.materialized, p.edges, id, l.value);
    q := Progress(p.locations[id := l.value], Remaining(p.locations, p.pending, id, l.value),
      p.materialized + Material(l.value), p.edges + |l.value.dependencies|);
    if q.materialized > MAX_MATERIAL || q.edges > MAX_EDGES {
      TooMuchWork(types, d, rows, q.locations, q.pending, q.materialized, q.edges, {});
      return Big, q;
    }
    assert q.locations.Keys == p.locations.Keys + {id};
    return Fine, q;
  }

  /** The worklist; the order in which ids are taken does not matter. */
  method Close(reader: Reader, start: set<u32>, material: nat, ghost rows: seq<Row>)
    returns (status: Status, locations: map<u32, Location>)
    requires reader.Valid() && reader.InBudget() && Table(reader.types, reader.data) == Some(rows)
    requires start == Roots(rows) && material == KeyMaterial(rows) && material <= MAX_MATERIAL
    requires Known(reader.types, reader.data, reader.decoded.Keys, {})
    modifies reader
    ensures reader.Valid()
    ensures status.Fine? ==> reader.InBudget() && Known(reader.types, reader.data, reader.decoded.Keys, locations.Keys)
    ensures status.Fine? ==> LocationsWithin(rows, locations)
    ensures status.Fine? ==> Exact(reader.types, reader.data, rows, locations)
    ensures status.Fine? ==> EveryLocationReads(reader.types, reader.data, rows)
    ensures status.Bad? ==> !EveryLocationReads(reader.types, reader.data, rows)
    ensures status.Big? ==> Oversized(reader.types, reader.data)
  {
    hide Table, Roots, Oversized, Exact, EveryLocationReads, Known, Underway, LocationsWithin, Pending, KeyMaterial;
    ghost var types, d := reader.types, reader.data;
    var p := Progress(map[], start, material, 0);
    Begin(types, d, rows, start, material);
    while p.pending != {}
      invariant reader.Valid() && reader.InBudget() && Underway(types, d, rows, p) && |p.locations| <= MAX_LOCATIONS
      invariant Known(types, d, reader.decoded.Keys, p.locations.Keys)
      decreases MAX_LOCATIONS - |p.locations|, |p.pending|
    {
      var id :| id in p.pending;
      if id in p.locations {
        Skip(types, d, rows, p, id);
        p := p.(pending := p.pending - {id});
      } else {
        status, p := Visit(reader, id, p, rows);
        if !status.Fine? {
          return status, p.locations;
        }
      }
    }
    Finish(types, d, rows, p);
    return Fine, p.locations;
  }

  lemma {:induction false} RowsAsksPrefix(types: Types, d: bytes, at: seq<u32>, i: nat)
    requires |d| <= MAX_CATALOG && i <= |at|
    ensures RowsAsks(types, d, at[..i]) <= RowsAsks(types, d, at)
    decreases |at|
  {
    hide RowAsks;
    if i < |at| {
      var front := at[..|at| - 1];
      assert front[..i] == at[..i];
      RowsAsksPrefix(types, d, front, i);
    } else {
      assert at[..i] == at;
    }
  }

  lemma {:induction false} CountsPrefix(rows: seq<Row>, front: seq<Row>)
    requires front <= rows
    ensures References(front) <= References(rows) && KeyMaterial(front) <= KeyMaterial(rows)
    ensures Roots(front) <= Roots(rows)
    decreases |rows|
  {
    if |front| < |rows| {
      var before := rows[..|rows| - 1];
      assert front <= before;
      CountsPrefix(before, front);
      AppendRow(before, rows[|rows| - 1]);
      assert before + [rows[|rows| - 1]] == rows;
    } else {
      assert front == rows;
    }
  }

  /** No start of the key table lists more ids than the whole table, the row after it included. */
  lemma TablePartWithin(types: Types, d: bytes, rows: seq<Row>, e: Evidence)
    requires |d| <= MAX_CATALOG && Table(types, d) == Some(rows) && Present(types, d, e)
    ensures References(e.rows) + |e.ids| <= References(rows) && KeyMaterial(e.rows) <= KeyMaterial(rows)
    ensures Roots(e.rows) <= Roots(rows)
  {
    hide TableAt, KeyAt, LocationAt, Honest, Asked, Roots, KeyMaterial, References;
    var at, n := TableAt(d).value, |e.at|;
    assert e.at == at[..n];
    RowsPrefix(types, d, at, n);
    CountsPrefix(rows, e.rows);
    if e.ids != [] {
      RowsPrefix(types, d, at, n + 1);
      RowsStep(types, d, at, n);
      var row := RowAt(types, d, at[n]).value;
      AppendRow(e.rows, row);
      CountsPrefix(rows, e.rows + [row]);
    }
  }

  lemma LocationPartWithin(types: Types, d: bytes, rows: seq<Row>, locations: map<u32, Location>, e: Evidence)
    requires |d| <= MAX_CATALOG && Table(types, d) == Some(rows) && Exact(types, d, rows, locations)
    requires Present(types, d, e)
    ensures Sums.Within(e.locations, locations) && e.locations.Keys + e.further <= locations.Keys
  {
    TablePartWithin(types, d, rows, e);
    hide TableAt, LocationAt, Honest, Asked, Roots, Rows, IdsAt;
    forall id | id in e.locations || id in e.further ensures id in locations {
      ReachedFromMore(Depends(types, d), Roots(e.rows), Roots(rows), id);
    }
  }

  lemma AskIsKnown(types: Types, d: bytes, rows: seq<Row>, locations: map<u32, Location>, e: Evidence, known: set<Ask>,
    k: Ask)
    requires |d| <= MAX_CATALOG && TableAt(d).Some? && Known(types, d, known, locations.Keys)
    requires forall id :: Reached(Depends(types, d), Roots(e.rows), id) ==> id in locations
    requires |e.at| <= |TableAt(d).value|
    requires k in RowsAsks(types, d, Begun(TableAt(d).value, |e.at|)) ||
      exists id :: Reached(Depends(types, d), Roots(e.rows), id) && k in LocationAsks(types, d, id)
    ensures k in known
  {
    hide TableAt, LocationAsks, Roots, RowsAsks, Depends, Reached;
    var at := TableAt(d).value;
    if |e.at| < |at| {
      RowsAsksPrefix(types, d, at, |e.at| + 1);
    }
    if id :| Reached(Depends(types, d), Roots(e.rows), id) && k in LocationAsks(types, d, id) {
      assert id in locations.Keys;
    }
  }

  lemma TextPartWithin(types: Types, d: bytes, rows: seq<Row>, locations: map<u32, Location>, e: Evidence, memo: Memo)
    requires |d| <= MAX_CATALOG && Table(types, d) == Some(rows) && Exact(types, d, rows, locations)
    requires Present(types, d, e) && Honest(d, memo) && Known(types, d, memo.Keys, locations.Keys)
    ensures Sums.Within(e.strings, memo)
  {
    hide TableAt, LocationAt, LocationAsks, Roots, Rows, RowsAsks, IdsAt, Decode, Known, Begun, References, KeyMaterial,
      Reached, LocationPart, Depends;
    TablePartWithin(types, d, rows, e);
    forall id | Reached(Depends(types, d), Roots(e.rows), id) ensures id in locations {
      ReachedFromMore(Depends(types, d), Roots(e.rows), Roots(rows), id);
    }
    forall k | k in e.strings ensures k in memo {
      AskIsKnown(types, d, rows, locations, e, memo.Keys, k);
    }
  }

  /** When the totals of the whole parse keep within the limits, nothing that the bytes hold exceeds them. */
  lemma NothingExceeds(types: Types, d: bytes, rows: seq<Row>, locations: map<u32, Location>, memo: Memo)
    requires |d| <= MAX_CATALOG && Table(types, d) == Some(rows) && Exact(types, d, rows, locations)
    requires References(rows) <= MAX_REFERENCES && LocationsWithin(rows, locations)
    requires Honest(d, memo) && Known(types, d, memo.Keys, locations.Keys) && Sum(memo, Size) <= STRING_BUDGET
    ensures !Oversized(types, d)
  {
    hide Table, Exact, References, KeyMaterial, Present, Honest, Known, Sum;
    forall e | Present(types, d, e) ensures !OverBudget(e) {
      TablePartWithin(types, d, rows, e);
      LocationPartWithin(types, d, rows, locations, e);
      TextPartWithin(types, d, rows, locations, e, memo);
      SumWithin(e.locations, locations, Material);
      SumWithin(e.locations, locations, EdgeCount);
      SumWithin(e.strings, memo, Size);
      PresentApart(types, d, e);
      SubsetSize(e.locations.Keys + e.further, locations.Keys);
    }
  }

  lemma PresentApart(types: Types, d: bytes, e: Evidence)
    requires |d| <= MAX_CATALOG && Present(types, d, e)
    ensures |e.locations.Keys + e.further| == |e.locations| + |e.further|
  {
    assert |e.locations.Keys| == |e.locations|;
  }

  /** A parsed catalog keeps within every limit. */
  ghost predicate WithinLimits(types: Types, d: bytes, c: Catalog)
    requires |d| <= MAX_CATALOG && Table(types, d).Some?
  {
    References(Table(types, d).value) <= MAX_REFERENCES && LocationsWithin(Table(types, d).value, c.locations)
  }

  /** The bytes leave no freedom: any two readings of the same file agree. */
  lemma MeaningIsUnique(types: Types, d: bytes, a: Catalog, b: Catalog)
    requires |d| <= MAX_CATALOG && Meaning(types, d, a) && Meaning(types, d, b)
    ensures a == b
  {
    hide Table, Keys, Roots, LocationAt, EveryLocationReads;
    assert a.locations.Keys == b.locations.Keys;
    forall x | x in a.locations ensures a.locations[x] == b.locations[x] {
      assert LocationAt(types, d, x) == Some(a.locations[x]) && LocationAt(types, d, x) == Some(b.locations[x]);
    }
    assert a.locations == b.locations;
  }
}
