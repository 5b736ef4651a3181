/** A printer of whole catalog files: one key and one downloadable location that depends on itself. */
module CatalogPrinter {
  import opened Bytes
  import opened Numbers
  import opened Graph
  import opened CatalogReader
  import opened CatalogImages
  import opened Catalogs
  import opened CatalogFiles
  import Text

  /** The texts of the file in the order in which they stand, and the numbers of the request. */
  datatype Entry = Entry(
    textType: bytes, name: bytes, key: bytes, internal: bytes, provider: bytes, resourceType: bytes,
    requestType: bytes, bundle: bytes, hash: bytes, crc: u32, size: u32)

  function Texts(e: Entry): (r: seq<bytes>)
    ensures |r| == 8
  {
    [e.textType, e.name, e.key, e.internal, e.provider, e.resourceType, e.requestType, e.bundle]
  }

  predicate Good(e: Entry)
  {
    && |e.hash| == 16 && e.internal != [] && e.provider != []
    && forall i :: 0 <= i < 8 ==> Text.Ascii(Texts(e)[i]) && |Texts(e)[i]| <= 0x1_0000
  }

  function Blocks(ts: seq<bytes>): bytes
  {
    if ts == [] then [] else
      var last := ts[|ts| - 1];
      Blocks(ts[..|ts| - 1]) + (ToLe(|last|, 4) + last)
  }

  lemma {:induction false} BlocksBound(ts: seq<bytes>)
    requires forall i :: 0 <= i < |ts| ==> |ts[i]| <= 0x1_0000
    ensures |Blocks(ts)| <= 0x1_0004 * |ts|
  {
    if ts != [] {
      BlocksBound(ts[..|ts| - 1]);
    }
  }

  /** Where text `i` stands, behind its length; the texts come after 144 bytes. */
  function Place(e: Entry, i: nat): u32
    requires Good(e) && i < 8
  {
    BlocksBound(Texts(e)[..i]);
    148 + |Blocks(Texts(e)[..i])|
  }

  function Words(e: Entry): (r: seq<u32>)
    requires Good(e)
    ensures |r| == 32
  {
    [0x0DE3_8942, 2, 16, 8, 24, 52, 32, 40, 0, Place(e, 0), Place(e, 1), 0, 4, 56,
     Place(e, 2), Place(e, 3), Place(e, 4), 52, 0, 92, 84, 0, Place(e, 5), 100, 108, 0, Place(e, 6),
     128, Place(e, 7), e.crc, e.size, 0]
  }

  function Print(e: Entry): bytes
    requires Good(e)
  {
    PrintWords(Words(e)) + e.hash + Blocks(Texts(e))
  }

  function Printed(e: Entry, hash: bytes): Catalog
  {
    Catalog(map[e.name := [56]], map[56 := Location(56, e.key, e.internal, e.provider, e.resourceType, [56],
      Some(Options(hash, e.bundle, e.crc, e.size)))])
  }

  // ----- what stands where

  lemma {:induction false} BlocksPrefix(ts: seq<bytes>, i: nat)
    requires i <= |ts|
    ensures Blocks(ts[..i]) <= Blocks(ts)
    decreases |ts|
  {
    if i < |ts| {
      BlocksPrefix(ts[..|ts| - 1], i);
      assert ts[..|ts| - 1][..i] == ts[..i];
    } else {
      assert ts[..i] == ts;
    }
  }

  lemma PrintParts(e: Entry)
    requires Good(e)
    ensures var d := Print(e);
      && Holds(d, 0, PrintWords(Words(e))) && Holds(d, 128, e.hash) && Holds(d, 144, Blocks(Texts(e)))
      && 144 <= |d| <= 144 + 8 * 0x1_0004
  {
    BlocksBound(Texts(e));
    hide Words, Blocks, PrintWords, Texts;
    var p, q, r := PrintWords(Words(e)), e.hash, Blocks(Texts(e));
    assert Print(e) == p + (q + r) && p + (q + r) == (p + q) + r;
    HeldWhole(Print(e));
    HeldParts(Print(e), 0, p, q + r);
    HeldParts(Print(e), 128, q, r);
  }

  lemma HeldWhole(d: bytes)
    ensures Holds(d, 0, d)
  {
    assert d[0..0 + |d|] == d;
  }

  lemma BlockStands(e: Entry, i: nat)
    requires Good(e) && i < 8
    ensures var text := Texts(e)[i]; Holds(Print(e), Place(e, i) as int - 4, ToLe(|text|, 4) + text)
  {
    PrintParts(e);
    BlockInside(Print(e), Texts(e), i);
  }

  lemma BlockInside(d: bytes, ts: seq<bytes>, i: nat)
    requires i < |ts| && Holds(d, 144, Blocks(ts))
    ensures Holds(d, 144 + |Blocks(ts[..i])|, ToLe(|ts[i]|, 4) + ts[i])
  {
    var before, block, whole := Blocks(ts[..i]), ToLe(|ts[i]|, 4) + ts[i], Blocks(ts);
    BlocksPrefix(ts, i + 1);
    assert ts[..i + 1][..i] == ts[..i] && Blocks(ts[..i + 1]) == before + block;
    hide Blocks, Holds, ToLe;
    var rest := whole[|before + block|..];
    assert whole == (before + block) + rest;
    HeldParts(d, 144, before + block, rest);
    HeldParts(d, 144, before, block);
  }

  lemma TextStands(e: Entry, i: nat)
    requires Good(e) && i < 8
    ensures ShowsPlain(Print(e), Place(e, i), Texts(e)[i])
  {
    BlockStands(e, i);
    BlocksBound(Texts(e)[..i]);
    hide Blocks, Print, Texts, Holds, ToLe, ShowsWide, Text.Ascii;
  }

  lemma TextShown(e: Entry, i: nat, sep: Char)
    requires Good(e) && i < 8
    ensures ShowsText(Print(e), Place(e, i), sep, Texts(e)[i])
  {
    TextStands(e, i);
    hide ShowsPlain, ShowsLinked;
  }

  /** Some of the words stand where they belong. */
  lemma WordsStand(e: Entry, i: nat, ws: seq<u32>)
    requires Good(e) && i + |ws| <= 32 && Words(e)[i..i + |ws|] == ws
    ensures Holds(Print(e), 4 * i, PrintWords(ws))
  {
    PrintParts(e);
    SomeWords(Print(e), Words(e), i, ws);
  }

  lemma SomeWords(d: bytes, all: seq<u32>, i: nat, ws: seq<u32>)
    requires Holds(d, 0, PrintWords(all)) && i + |ws| <= |all| && all[i..i + |ws|] == ws
    ensures Holds(d, 4 * i, PrintWords(ws))
  {
    hide Le, PrintWords, Holds;
    WordsHeld(d, 0, all);
    WordsHeld(d, 4 * i, ws);
    forall k | 0 <= k < |ws| ensures Le(d[4 * i + 4 * k..4 * i + 4 * k + 4]) == ws[k] {
      assert ws[k] == all[i + k] && 4 * i + 4 * k == 0 + 4 * (i + k);
    }
  }

  lemma OneWord(n: u32)
    ensures PrintWords([n]) == ToLe(n, 4)
  {
    assert [n][..0] == [] && [] + ToLe(n, 4) == ToLe(n, 4);
  }

  lemma TwoWords(a: u32, b: u32)
    ensures PrintWords([a, b]) == ToLe(a, 4) + ToLe(b, 4)
  {
    OneWord(a);
    assert [a, b][..1] == [a];
  }

  /** Every slice of the words that makes up a record. */
  lemma TableWords(e: Entry)
    requires Good(e)
    ensures var w := Words(e); w[0..3] == [0x0DE3_8942, 2, 16] && w[3..4] == [8] && w[4..6] == [24, 52]
  {
    hide Place;
    var w := Words(e);
    assert w[0..3] == [w[0], w[1], w[2]];
    assert w[3..4] == [w[3]];
    assert w[4..6] == [w[4], w[5]];
  }

  lemma KeyWords(e: Entry)
    requires Good(e)
    ensures var w := Words(e);
      && w[6..8] == [32, 40] && w[8..10] == [0, Place(e, 0)] && w[10..12] == [Place(e, 1), 0] && w[12..14] == [4, 56]
  {
    hide Place;
    var w := Words(e);
    assert w[6..8] == [w[6], w[7]];
    assert w[8..10] == [w[8], w[9]];
    assert w[10..12] == [w[10], w[11]];
    assert w[12..14] == [w[12], w[13]];
  }

  lemma LocationSlice(e: Entry)
    requires Good(e)
    ensures var w := Words(e);
      w[14..21] == [Place(e, 2), Place(e, 3), Place(e, 4), 52, 0, 92, 84] && w[21..23] == [0, Place(e, 5)]
  {
    hide Place;
    var w := Words(e);
    assert w[14..21] == [w[14], w[15], w[16], w[17], w[18], w[19], w[20]];
    assert w[21..23] == [w[21], w[22]];
  }

  lemma RequestWords(e: Entry)
    requires Good(e)
    ensures var w := Words(e);
      && w[23..25] == [100, 108] && w[25..27] == [0, Place(e, 6)] && w[27..32] == [128, Place(e, 7), e.crc, e.size, 0]
  {
    hide Place;
    var w := Words(e);
    assert w[23..25] == [w[23], w[24]];
    assert w[25..27] == [w[25], w[26]];
    assert w[27..32] == [w[27], w[28], w[29], w[30], w[31]];
  }

  // ----- the records

  lemma TypeShown(e: Entry, i: nat, text: nat)
    requires Good(e) && i + 2 <= 32 && text < 8 && Words(e)[i..i + 2] == [0, Place(e, text)]
    ensures ShowsType(Print(e), 4 * i, Texts(e)[text])
  {
    WordsStand(e, i, [0, Place(e, text)]);
    TextShown(e, text, 0x2E);
    hide Words, Print, Holds, PrintWords, ShowsText, Place, Texts;
  }

  lemma ListShown(e: Entry)
    requires Good(e)
    ensures ShowsArray(Print(e), 52, [56])
  {
    KeyWords(e);
    hide Words;
    WordsStand(e, 12, [4, 56]);
    TwoWords(4, 56);
    OneWord(56);
    hide Print, Words, Holds, PrintWords, ToLe;
  }

  lemma KeyShown(types: Types, e: Entry)
    requires Good(e) && types.text == e.textType
    ensures ShowsKey(types, Print(e), 24, Some(e.name))
  {
    KeyWords(e);
    hide Words, Place, Print;
    var d := Print(e);
    WordsStand(e, 6, [32, 40]);
    WordsStand(e, 10, [Place(e, 1), 0]);
    TypeShown(e, 8, 0);
    TextShown(e, 1, 0);
    TwoWords(Place(e, 1), 0);
    assert ToLe(0, 4) == ToLe(0, 2) + [0, 0];
    var front, ref := ToLe(Place(e, 1), 4), ToLe(0, 2);
    assert front + ToLe(0, 4) == (front + ref) + [0, 0];
    HeldParts(d, 40, front + ref, [0, 0]);
    hide Print, Words, Place, Holds, PrintWords, ToLe, ShowsText, ShowsType;
    assert ShowsTextKey(d, 40, e.name);
    hide ShowsTextKey;
    assert KeyIs(types, d, e.textType, 40, Some(e.name));
  }

  lemma RequestShown(types: Types, e: Entry, hash: bytes)
    requires Good(e) && types.requestOptions == e.requestType && HexText(hash, e.hash)
    ensures ShowsOptions(types, Print(e), 92, Some(Options(hash, e.bundle, e.crc, e.size)))
  {
    RequestWords(e);
    hide Words, Place, Print;
    var d := Print(e);
    PrintParts(e);
    WordsStand(e, 23, [100, 108]);
    WordsStand(e, 27, [128, Place(e, 7), e.crc, e.size, 0]);
    TypeShown(e, 25, 6);
    TextShown(e, 7, 0x5F);
    hide Print, Words, Place, Holds, PrintWords, ShowsText, ShowsType, HexText;
    assert ShowsHash(d, 128, hash);
    hide ShowsHash;
    assert ShowsRequest(d, 108, Options(hash, e.bundle, e.crc, e.size));
  }

  lemma LocationShown(types: Types, e: Entry, hash: bytes)
    requires Good(e) && types.requestOptions == e.requestType && HexText(hash, e.hash)
    ensures ShowsLocation(types, Print(e), 56, Printed(e, hash).locations[56])
  {
    LocationSlice(e);
    hide Words, Place, Print;
    var w := LocationWords(Place(e, 2), Place(e, 3), Place(e, 4), 52, 0, 92, 84);
    WordsStand(e, 14, [w.key, w.internal, w.provider, w.dependencies, w.spare, w.options, w.resourceType]);
    TextShown(e, 2, 0x2F);
    TextShown(e, 3, 0x2F);
    TextShown(e, 4, 0x2E);
    ListShown(e);
    TypeShown(e, 21, 5);
    RequestShown(types, e, hash);
    hide Print, Words, Place, Holds, PrintWords, ShowsText, ShowsType, ShowsArray, ShowsOptions;
    assert Holds(Print(e), 56, PrintLocation(w));
  }

  lemma RowShown(types: Types, e: Entry)
    requires Good(e) && types.text == e.textType
    ensures ShowsRow(types, Print(e), 16, Row(Some(e.name), [56]))
  {
    TableWords(e);
    hide Words, Print;
    WordsStand(e, 4, [24, 52]);
    KeyShown(types, e);
    ListShown(e);
    hide Holds, PrintWords, ToLe, ShowsKey, ShowsArray;
  }

  lemma TableStands(e: Entry)
    requires Good(e)
    ensures Holds(Print(e), 0, PrintWords([0x0DE3_8942, 2, 16])) && Holds(Print(e), 12, ToLe(8, 4))
  {
    TableWords(e);
    hide Words, Print;
    WordsStand(e, 0, [0x0DE3_8942, 2, 16]);
    WordsStand(e, 3, [8]);
    OneWord(8);
  }

  lemma TableShown(types: Types, e: Entry)
    requires Good(e) && types.text == e.textType
    ensures ShowsTable(types, Print(e), [Row(Some(e.name), [56])])
  {
    hide ShowsRow, Print, PrintWords, Holds, ToLe, Good, Words, Blocks;
    PrintParts(e);
    TableStands(e);
    RowShown(types, e);
    assert ShowsRows(types, Print(e), 16, [Row(Some(e.name), [56])]);
  }

  lemma RowsName(e: Entry, hash: bytes)
    ensures NamesRows([Row(Some(e.name), [56])], Printed(e, hash).keys)
  {
    assert [Row(Some(e.name), [56])][0].key == Some(e.name);
  }

  lemma OneRoot(key: Option<bytes>)
    ensures IdsOf([Row(key, [56])]) == {56}
  {
    assert [Row(key, [56])][0].ids[0] == 56;
  }

  lemma Alone(types: Types, d: bytes, rows: seq<Row>, locations: map<u32, Location>)
    requires IdsOf(rows) == {56} == locations.Keys && locations[56].dependencies == [56]
    requires ShowsLocation(types, d, 56, locations[56])
    ensures ShowsLocations(types, d, rows, locations)
  {
    hide ShowsLocation, Reached, EdgesOf, IdsOf;
    OnlyLocation(locations, IdsOf(rows));
  }

  lemma OneLocation(types: Types, e: Entry, hash: bytes)
    requires Good(e) && types.requestOptions == e.requestType && HexText(hash, e.hash)
    ensures ShowsLocations(types, Print(e), [Row(Some(e.name), [56])], Printed(e, hash).locations)
  {
    hide ShowsLocation, ShowsLocations, Good, HexText, Print, IdsOf;
    LocationShown(types, e, hash);
    OneRoot(Some(e.name));
    Alone(types, Print(e), [Row(Some(e.name), [56])], Printed(e, hash).locations);
  }

  /** Every printed file shows the catalog that was printed. */
  lemma PrintShows(types: Types, e: Entry, hash: bytes)
    requires Good(e) && types.text == e.textType && types.requestOptions == e.requestType && HexText(hash, e.hash)
    ensures ShowsCatalog(types, Print(e), Printed(e, hash))
  {
    hide ShowsTable, ShowsLocations, NamesRows, Good, HexText, Print, Printed, Holds, PrintWords, Blocks;
    PrintParts(e);
    TableShown(types, e);
    RowsName(e, hash);
    OneLocation(types, e, hash);
  }

  lemma OnlyLocation(locations: map<u32, Location>, roots: set<u32>)
    requires locations.Keys == {56} == roots && locations[56].dependencies == [56]
    ensures forall id :: id in locations <==> Reached(EdgesOf(locations), roots, id)
  {
    RootReached(EdgesOf(locations), roots, 56);
    assert Closed(EdgesOf(locations), roots);
    forall id | Reached(EdgesOf(locations), roots, id) ensures id == 56 {
      ReachedInside(EdgesOf(locations), roots, roots, id);
    }
  }
}
