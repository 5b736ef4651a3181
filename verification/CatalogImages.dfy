/**
 What a catalog file shows, in terms of the bytes that stand in it: words, texts, records and tables as they are
 printed.
 A file is read as a catalog exactly when it shows that catalog.
 */
module CatalogImages {
  import opened Bytes
  import opened Numbers
  import opened Tables
  import opened CatalogReader
  import Text

  /** These bytes stand at this place. */
  predicate Holds(d: bytes, at: int, s: bytes)
  {
    0 <= at && at + |s| <= |d| && d[at..at + |s|] == s
  }

  function PrintWords(ws: seq<u32>): (r: bytes)
    ensures |r| == 4 * |ws|
  {
    PrintTable(ws, 4)
  }

  /** Words stand at a place exactly when reading gives each of them. */
  lemma WordsHeld(d: bytes, at: nat, ws: seq<u32>)
    ensures Holds(d, at, PrintWords(ws)) <==>
      at + 4 * |ws| <= |d| && forall i :: 0 <= i < |ws| ==> Le(d[at + 4 * i..at + 4 * i + 4]) == ws[i]
  {
    Powers();
    hide Le, PrintTable;
    if at + 4 * |ws| <= |d| {
      var s := d[at..at + 4 * |ws|];
      assert Small(ws, 4);
      forall i | 0 <= i < |ws| ensures Le(PrintTable(ws, 4)[4 * i..4 * i + 4]) == ws[i] {
        TableEntry(ws, 4, i);
      }
      var read := TableRead(s, |ws|, 4);
      forall i | 0 <= i < |ws|
        ensures Le(s[4 * i..4 * i + 4]) == read[i] && s[4 * i..4 * i + 4] == d[at + 4 * i..at + 4 * i + 4]
      {
        TableEntry(read, 4, i);
        Section(d, at, s, 4 * i, 4 * i + 4);
      }
      if forall i :: 0 <= i < |ws| ==> Le(d[at + 4 * i..at + 4 * i + 4]) == ws[i] {
        assert read == ws;
      }
    }
  }

  // ----- texts

  /** A text without links: nothing at all, ASCII behind its length, or UTF-16 behind its length. */
  ghost predicate ShowsPlain(d: bytes, o: u32, text: bytes)
  {
    || (o == 0xFFFF_FFFF && text == [])
    || (4 <= o < 0x4000_0000 && |text| <= 0x1_0000 && Text.Ascii(text) && Holds(d, o - 4, ToLe(|text|, 4) + text))
    || (0x8000_0004 <= o < 0xC000_0000 && ShowsWide(d, o as int - 0x8000_0000, text))
  }

  ghost predicate ShowsWide(d: bytes, at: int, text: bytes)
  {
    exists cs :: Utf16Stands(d, at, cs) && text == Text.Utf8(cs)
  }

  predicate Utf16Stands(d: bytes, at: int, cs: seq<Char>)
  {
    |Text.Utf16(cs)| <= 0x1_0000 && Holds(d, at - 4, ToLe(|Text.Utf16(cs)|, 4) + Text.Utf16(cs))
  }

  /** Nodes from `p` on, each a part and the next node, up to the end marker. */
  ghost predicate ShowsNodes(d: bytes, p: u32, places: seq<u32>, parts: seq<bytes>)
    requires |places| == |parts|
    decreases |places|
  {
    if places == [] then p == 0xFFFF_FFFF
    else
      && p != 0xFFFF_FFFF && p % 0x4000_0000 == places[0]
      && exists next :: ShowsNode(d, places[0], parts[0], next) && ShowsNodes(d, next, places[1..], parts[1..])
  }

  /** The parts from the last to the first, with the separator between them. */
  function Backwards(parts: seq<bytes>, sep: bytes): bytes
  {
    if parts == [] then [] else if |parts| == 1 then parts[0] else Backwards(parts[1..], sep) + sep + parts[0]
  }

  /** A linked text of at most 4096 different nodes and fewer than 64 KiB of parts. */
  ghost predicate ShowsLinked(d: bytes, o: u32, sep: Char, text: bytes)
  {
    && o != 0xFFFF_FFFF && o / 0x4000_0000 % 2 == 1 && sep != 0
    && exists places: seq<u32>, parts: seq<bytes> ::
      && |places| == |parts| <= 4096 && ShowsNodes(d, o, places, parts) && Distinct(places) && Length(parts) < 0x1_0000
      && text == Backwards(parts, Text.EncodeChar(sep))
  }

  ghost predicate ShowsText(d: bytes, o: u32, sep: Char, text: bytes)
  {
    ShowsPlain(d, o, text) || ShowsLinked(d, o, sep, text)
  }

  lemma HeldParts(d: bytes, at: int, p: bytes, q: bytes)
    ensures Holds(d, at, p + q) <==> Holds(d, at, p) && Holds(d, at + |p|, q)
  {
    if 0 <= at && at + |p| + |q| <= |d| {
      var s := d[at..at + |p| + |q|];
      assert s[..|p|] == d[at..at + |p|] && s[|p|..] == d[at + |p|..at + |p| + |q|];
      assert s == s[..|p|] + s[|p|..];
      assert (p + q)[..|p|] == p && (p + q)[|p|..] == q;
    }
  }

  /** A length in front of its text. */
  lemma LengthHeld(d: bytes, at: nat, s: bytes)
    requires 4 <= at && |s| < 0x1_0000_0000
    ensures Holds(d, at - 4, ToLe(|s|, 4) + s) <==>
      at <= |d| && Le(d[at - 4..at]) == |s| && at + |s| <= |d| && d[at..at + |s|] == s
  {
    hide Le, ToLe, Holds;
    HeldParts(d, at - 4, ToLe(|s|, 4), s);
    NumberHeld(d, at - 4, |s|);
    SliceHeld(d, at, s);
  }

  lemma NumberHeld(d: bytes, at: nat, n: nat)
    requires n < 0x1_0000_0000
    ensures Holds(d, at, ToLe(n, 4)) <==> at + 4 <= |d| && Le(d[at..at + 4]) == n
  {
    Powers();
    LeToLe(n, 4);
    if at + 4 <= |d| {
      ToLeLe(d[at..at + 4]);
    }
    hide Le, ToLe;
  }

  lemma SliceHeld(d: bytes, at: nat, s: bytes)
    ensures Holds(d, at, s) <==> at + |s| <= |d| && d[at..at + |s|] == s
  {
  }

  lemma AsciiExact(d: bytes, o: u32, text: bytes)
    requires o < 0x4000_0000
    ensures Static(d, o) == Some(text) <==>
      4 <= o && |text| <= 0x1_0000 && Text.Ascii(text) && Holds(d, o - 4, ToLe(|text|, 4) + text)
  {
    hide Le, ToLe, Text.Ascii, Holds;
    assert Address(o) == o;
    if 4 <= o {
      if |text| <= 0x1_0000 {
        LengthHeld(d, o, text);
      }
    }
  }

  lemma WideExact(d: bytes, o: u32, text: bytes)
    requires 0x8000_0000 <= o < 0xC000_0000
    ensures Static(d, o) == Some(text) <==>
      0x8000_0004 <= o && ShowsWide(d, o as int - 0x8000_0000, text)
  {
    hide Le, ToLe, Text.Ascii, Text.DecodeUtf16, Text.Utf16, Text.Utf8, Holds;
    var a := o as int - 0x8000_0000;
    assert Address(o) == a;
    if 4 <= a {
      forall cs | |Text.Utf16(cs)| <= 0x1_0000
        ensures Utf16Stands(d, a, cs) <==>
          a <= |d| && Le(d[a - 4..a]) == |Text.Utf16(cs)| && a + |Text.Utf16(cs)| <= |d| &&
          d[a..a + |Text.Utf16(cs)|] == Text.Utf16(cs)
        ensures Text.DecodeUtf16(Text.Utf16(cs)) == Some(Text.Utf8(cs))
      {
        LengthHeld(d, a, Text.Utf16(cs));
        Text.Utf16Decodes(cs);
      }
      if Static(d, o) == Some(text) {
        var n := Le(d[a - 4..a]);
        var cs := Text.DecodedUtf16(d[a..a + n]);
        assert Utf16Stands(d, a, cs);
      }
    }
  }

  lemma PlainExact(d: bytes, o: u32, sep: Char, text: bytes)
    requires o == NULL || !Dynamic(o)
    ensures Decode(d, o, sep) == Some(text) <==> ShowsPlain(d, o, text)
  {
    hide Static, Links, Holds, ShowsWide, Text.Ascii, ToLe;
    if o != NULL {
      assert Decode(d, o, sep) == Static(d, o);
      assert o < 0x4000_0000 || 0x8000_0000 <= o < 0xC000_0000;
      if o < 0x4000_0000 {
        AsciiExact(d, o, text);
      } else {
        WideExact(d, o, text);
      }
    }
  }

  /** One node: its part may not be linked itself. */
  ghost predicate ShowsNode(d: bytes, at: u32, part: bytes, next: u32)
  {
    exists ref: u32 :: Holds(d, at, PrintWords([ref, next])) && ShowsPlain(d, ref, part)
  }

  lemma PairHeld(d: bytes, at: nat, a: u32, b: u32)
    ensures Holds(d, at, PrintWords([a, b])) <==>
      at + 8 <= |d| && Le(d[at..at + 4]) == a && Le(d[at + 4..at + 8]) == b
  {
    WordsHeld(d, at, [a, b]);
    hide Holds, PrintWords, Le;
    assert [a, b][0] == a && [a, b][1] == b;
  }

  lemma PlainIsStraight(d: bytes, o: u32, text: bytes)
    requires ShowsPlain(d, o, text)
    ensures o == NULL || !Dynamic(o)
  {
    hide Holds, ShowsWide, ToLe, Text.Ascii;
  }

  lemma PartExact(d: bytes, at: u32, part: bytes, next: u32)
    requires at < 0x4000_0000
    ensures Part(d, at) == Some(part) && Next(d, at) == Some(next) <==> ShowsNode(d, at, part, next)
  {
    hide Static, Links, ShowsPlain, PrintWords, Le, Holds, Dynamic;
    if at + 8 <= |d| {
      var ref := WordIn(d, at);
      PairHeld(d, at, ref, next);
      PartDecodes(d, at);
      if ref == NULL || !Dynamic(ref) {
        PlainExact(d, ref, 0, part);
      }
    }
    forall ref: u32 | Holds(d, at, PrintWords([ref, next])) && ShowsPlain(d, ref, part)
      ensures at + 8 <= |d| && ref == WordIn(d, at) && next == WordIn(d, at + 4) && (ref == NULL || !Dynamic(ref))
    {
      PairHeld(d, at, ref, next);
      PlainIsStraight(d, ref, part);
    }
  }

  lemma {:induction false} NodesExact(d: bytes, p: u32, places: seq<u32>, parts: seq<bytes>)
    requires |places| == |parts|
    ensures ShowsNodes(d, p, places, parts) <==> Chain(d, p, places) && PartsOf(d, places) == parts
    decreases |places|
  {
    hide Part, Next, ShowsNode;
    if places != [] && p != NULL && places[0] == Address(p) {
      var at, rest, more := places[0], places[1..], parts[1..];
      forall next: u32
        ensures Part(d, at) == Some(parts[0]) && Next(d, at) == Some(next) <==> ShowsNode(d, at, parts[0], next)
        ensures ShowsNodes(d, next, rest, more) <==> Chain(d, next, rest) && PartsOf(d, rest) == more
      {
        PartExact(d, at, parts[0], next);
        NodesExact(d, next, rest, more);
      }
      assert parts == [parts[0]] + more;
      if Part(d, at).Some? {
        assert PartsOf(d, places) == [Part(d, at).value] + PartsOf(d, rest);
        assert PartsOf(d, places)[1..] == PartsOf(d, rest);
      }
    }
  }

  lemma {:induction false} PartsCount(d: bytes, p: u32, nodes: seq<u32>)
    requires Chain(d, p, nodes)
    ensures |PartsOf(d, nodes)| == |nodes|
    decreases |nodes|
  {
    hide Part, Next;
    if nodes != [] {
      PartsCount(d, Next(d, nodes[0]).value, nodes[1..]);
    }
  }

  lemma {:induction false} JoinLast(parts: seq<bytes>, last: bytes, sep: bytes)
    ensures Join(parts + [last], sep) == if parts == [] then last else Join(parts, sep) + sep + last
  {
    if parts == [] {
    } else {
      var all := parts + [last];
      assert all[1..] == parts[1..] + [last];
      JoinLast(parts[1..], last, sep);
      if |parts| > 1 {
        assert Join(all, sep) == parts[0] + sep + (Join(parts[1..], sep) + sep + last);
        assert Join(parts, sep) == parts[0] + sep + Join(parts[1..], sep);
      } else {
        assert parts == [parts[0]];
      }
    }
  }

  lemma {:induction false} BackwardsJoined(parts: seq<bytes>, sep: bytes)
    ensures Join(Reverse(parts), sep) == Backwards(parts, sep)
    ensures Reverse(parts) == [] <==> parts == []
  {
    if parts != [] {
      BackwardsJoined(parts[1..], sep);
      JoinLast(Reverse(parts[1..]), parts[0], sep);
    }
  }

  lemma LinkedExact(d: bytes, o: u32, sep: Char, text: bytes)
    requires o != NULL && Dynamic(o)
    ensures Decode(d, o, sep) == Some(text) <==> ShowsLinked(d, o, sep, text)
  {
    if sep == 0 {
      return;
    }
    DynamicDecodes(d, o, sep);
    hide Decode, Chain, PartsOf, ShowsNodes, Distinct, Length, Backwards, Join, Reverse, Text.EncodeChar;
    forall places: seq<u32>, parts: seq<bytes> | |places| == |parts|
      ensures ShowsNodes(d, o, places, parts) <==> Chain(d, o, places) && PartsOf(d, places) == parts
      ensures Join(Reverse(parts), Text.EncodeChar(sep)) == Backwards(parts, Text.EncodeChar(sep))
    {
      NodesExact(d, o, places, parts);
      BackwardsJoined(parts, Text.EncodeChar(sep));
    }
    if Decode(d, o, sep) == Some(text) {
      var nodes :| Linked(d, o, nodes);
      PartsCount(d, o, nodes);
      assert ShowsNodes(d, o, nodes, PartsOf(d, nodes));
    }
    if ShowsLinked(d, o, sep, text) {
      var places: seq<u32>, parts: seq<bytes> :|
        && |places| == |parts| <= 4096 && ShowsNodes(d, o, places, parts) && Distinct(places)
        && Length(parts) < 0x1_0000 && text == Backwards(parts, Text.EncodeChar(sep));
      assert Linked(d, o, places);
    }
  }

  /** Reading a text gives exactly the text that the file shows there. */
  lemma TextExact(d: bytes, o: u32, sep: Char, text: bytes)
    ensures Decode(d, o, sep) == Some(text) <==> ShowsText(d, o, sep, text)
  {
    if o == NULL || !Dynamic(o) {
      PlainExact(d, o, sep, text);
    } else {
      LinkedExact(d, o, sep, text);
      if ShowsPlain(d, o, text) {
        PlainIsStraight(d, o, text);
      }
    }
    hide Decode, ShowsPlain, ShowsNodes, Distinct, Length;
  }

  // ----- records

  /** A type: the reference to its name is the second of two words. */
  ghost predicate ShowsType(d: bytes, o: u32, name: bytes)
  {
    o != 0xFFFF_FFFF && exists first: u32, ref: u32 ::
      Holds(d, o, PrintWords([first, ref])) && ShowsText(d, ref, 0x2E, name)
  }

  /** A list of words behind its length in bytes, or no list at all. */
  ghost predicate ShowsArray(d: bytes, o: u32, values: seq<u32>)
  {
    if o == 0xFFFF_FFFF then values == []
    else 4 <= o && |values| <= 200_000 && Holds(d, o - 4, ToLe(4 * |values|, 4) + PrintWords(values))
  }

  const DIGITS: bytes := [
    0x30, 0x31, 0x32, 0x33, 0x34, 0x35, 0x36, 0x37, 0x38, 0x39, 0x61, 0x62, 0x63, 0x64, 0x65, 0x66]

  /** Two lower-case hexadecimal digits for each byte. */
  predicate HexText(text: bytes, raw: bytes)
  {
    && |text| == 2 * |raw|
    && forall i :: 0 <= i < |raw| ==> text[2 * i] == DIGITS[raw[i] / 16] && text[2 * i + 1] == DIGITS[raw[i] % 16]
  }

  ghost predicate ShowsHash(d: bytes, o: u32, text: bytes)
  {
    exists raw :: |raw| == 16 && Holds(d, o, raw) && HexText(text, raw)
  }

  /** Five words: where the hash stands, the bundle's name, the checksum, the size, and one that is not used. */
  ghost predicate ShowsRequest(d: bytes, o: u32, v: Options)
  {
    exists hash: u32, name: u32, spare: u32 ::
      && v.size < 0x1_0000_0000 && Holds(d, o, PrintWords([hash, name, v.crc, v.size, spare]))
      && ShowsHash(d, hash, v.hash) && ShowsText(d, name, 0x5F, v.bundleName)
  }

  ghost predicate ShowsOptions(types: Types, d: bytes, o: u32, v: Option<Options>)
  {
    if o == 0xFFFF_FFFF then v == None
    else v.Some? && exists kind: u32, at: u32 ::
      && Holds(d, o, PrintWords([kind, at])) && ShowsType(d, kind, types.requestOptions)
      && ShowsRequest(d, at, v.value)
  }

  /** The seven words of a location, in the order in which they stand. */
  datatype LocationWords = LocationWords(
    key: u32, internal: u32, provider: u32, dependencies: u32, spare: u32, options: u32, resourceType: u32)

  function PrintLocation(w: LocationWords): bytes
  {
    PrintWords([w.key, w.internal, w.provider, w.dependencies, w.spare, w.options, w.resourceType])
  }

  /** A location at its id, each field where its word points. */
  ghost predicate ShowsLocation(types: Types, d: bytes, id: u32, l: Location)
  {
    && l.id == id && l.internal != [] && l.provider != []
    && exists w ::
      && Holds(d, id, PrintLocation(w))
      && ShowsText(d, w.key, 0x2F, l.key) && ShowsText(d, w.internal, 0x2F, l.internal)
      && ShowsText(d, w.provider, 0x2E, l.provider) && ShowsArray(d, w.dependencies, l.dependencies)
      && ShowsType(d, w.resourceType, l.resourceType) && ShowsOptions(types, d, w.options, l.options)
  }

  lemma TypeExact(d: bytes, o: u32, name: bytes)
    requires |d| <= MAX_CATALOG
    ensures TypeNameAt(d, o) == Some(name) <==> ShowsType(d, o, name)
  {
    hide Decode, ShowsText, Holds, PrintWords, Le;
    if o != NULL {
      if o + 8 <= |d| {
        var first, ref := WordIn(d, o), WordIn(d, o + 4);
        PairHeld(d, o, first, ref);
        TextExact(d, ref, DOT, name);
      }
      forall first: u32, ref: u32 | Holds(d, o, PrintWords([first, ref]))
        ensures o + 8 <= |d| && ref == WordIn(d, o + 4)
      {
        PairHeld(d, o, first, ref);
      }
    }
  }

  lemma {:induction false} WordsRead(d: bytes, at: seq<u32>, values: seq<u32>)
    ensures Words(d, at) == Some(values) <==>
      |values| == |at| && forall i :: 0 <= i < |at| ==> Word(d, at[i]) == Some(values[i])
  {
    hide Word;
    if at == [] {
    } else if values == [] {
      assert Words(d, at).Some? ==> |Words(d, at).value| > 0;
    } else {
      var front, last := at[..|at| - 1], at[|at| - 1];
      var before, value := values[..|values| - 1], values[|values| - 1];
      WordsRead(d, front, before);
      assert values == before + [value];
      if |values| == |at| && forall i :: 0 <= i < |at| ==> Word(d, at[i]) == Some(values[i]) {
        assert forall i :: 0 <= i < |front| ==> front[i] == at[i] && before[i] == values[i];
        assert Word(d, at[|front|]) == Some(values[|front|]);
      }
      if Words(d, at) == Some(values) {
        assert Words(d, front).value + [Word(d, last).value] == values;
        assert Words(d, front).value == before;
        assert forall i :: 0 <= i < |front| ==> front[i] == at[i] && before[i] == values[i];
      }
    }
  }

  lemma ListHeld(d: bytes, o: nat, values: seq<u32>)
    requires 4 <= o && |values| <= 200_000
    ensures Holds(d, o - 4, ToLe(4 * |values|, 4) + PrintWords(values)) <==>
      && o + 4 * |values| <= |d| && Le(d[o - 4..o]) == 4 * |values|
      && forall i :: 0 <= i < |values| ==> Le(d[o + 4 * i..o + 4 * i + 4]) == values[i]
  {
    hide Le, ToLe, Holds, PrintWords;
    HeldParts(d, o - 4, ToLe(4 * |values|, 4), PrintWords(values));
    NumberHeld(d, o - 4, 4 * |values|);
    WordsHeld(d, o, values);
  }

  /** The count that the length in front gives. */
  lemma ArrayCount(d: bytes, o: u32, values: seq<u32>)
    requires |d| <= MAX_CATALOG && o != NULL && 4 <= o <= |d|
    ensures var size := Le(d[o - 4..o]);
      WordArray(d, o) == Some(values) <==>
        && size % 4 == 0 && size / 4 <= 200_000 && o + size <= |d| && |values| == size / 4
        && forall i :: 0 <= i < |values| ==> Le(d[o + 4 * i..o + 4 * i + 4]) == values[i]
  {
    hide Le, Words, Items;
    var size := WordIn(d, o - 4);
    if size % 4 == 0 && size / 4 <= MAX_ITEMS && o + size <= |d| {
      WordsRead(d, Items(o, 4, size / 4), values);
      ItemsRead(d, o, values, size / 4);
    }
  }

  lemma ArrayExact(d: bytes, o: u32, values: seq<u32>)
    requires |d| <= MAX_CATALOG
    ensures WordArray(d, o) == Some(values) <==> ShowsArray(d, o, values)
  {
    if o == NULL {
      return;
    }
    if 4 <= o {
      if |values| <= 200_000 {
        ListHeld(d, o, values);
      }
      if o <= |d| {
        ArrayCount(d, o, values);
        hide WordArray;
      }
    }
    hide Le, ToLe, Holds, PrintWords, Words, Items;
  }

  lemma ItemsRead(d: bytes, o: u32, values: seq<u32>, n: nat)
    requires o + 4 * n <= |d| <= MAX_CATALOG
    ensures (|values| == n && forall i :: 0 <= i < n ==> Word(d, Items(o, 4, n)[i]) == Some(values[i])) <==>
      (|values| == n && forall i :: 0 <= i < n ==> Le(d[o + 4 * i..o + 4 * i + 4]) == values[i])
  {
    hide Le;
    assert forall i :: 0 <= i < n ==> Items(o, 4, n)[i] == o + i * 4;
  }

  lemma DigitIs(n: nat)
    requires n < 16
    ensures HexDigit(n) == DIGITS[n]
  {
  }

  lemma {:induction false} HexDigits(raw: bytes)
    ensures HexText(Hex(raw), raw)
  {
    hide HexDigit;
    if raw != [] {
      var rest, hex := Hex(raw[1..]), Hex(raw);
      HexDigits(raw[1..]);
      DigitIs(raw[0] / 16);
      DigitIs(raw[0] % 16);
      assert hex == [HexDigit(raw[0] / 16), HexDigit(raw[0] % 16)] + rest;
      hide Hex;
      forall i | 0 <= i < |raw|
        ensures hex[2 * i] == DIGITS[raw[i] / 16] && hex[2 * i + 1] == DIGITS[raw[i] % 16]
      {
        if i > 0 {
          var j := i - 1;
          assert hex[2 * i] == rest[2 * j] && hex[2 * i + 1] == rest[2 * j + 1] && raw[1..][j] == raw[i];
        }
      }
    }
  }

  lemma HexUnique(a: bytes, b: bytes, raw: bytes)
    requires HexText(a, raw) && HexText(b, raw)
    ensures a == b
  {
    forall j | 0 <= j < |a| ensures a[j] == b[j] {
      var i := j / 2;
      assert a[2 * i] == b[2 * i] && a[2 * i + 1] == b[2 * i + 1];
      assert j == 2 * i || j == 2 * i + 1;
    }
  }

  lemma HexExact(raw: bytes, text: bytes)
    ensures Hex(raw) == text <==> HexText(text, raw)
  {
    HexDigits(raw);
    hide Hex;
    if HexText(text, raw) {
      HexUnique(Hex(raw), text, raw);
    }
  }

  lemma HashExact(d: bytes, o: u32, text: bytes)
    ensures (Take(d, o, 16).Some? && Hex(Take(d, o, 16).value) == text) <==> ShowsHash(d, o, text)
  {
    hide Hex, HexText;
    if o + 16 <= |d| {
      HexExact(d[o..o + 16], text);
      assert Holds(d, o, d[o..o + 16]);
    }
    forall raw | |raw| == 16 && Holds(d, o, raw) ensures o + 16 <= |d| && raw == d[o..o + 16] {
    }
  }

  lemma FiveHeld(d: bytes, o: nat, a: u32, b: u32, c: u32, e: u32, f: u32)
    ensures Holds(d, o, PrintWords([a, b, c, e, f])) <==>
      && o + 20 <= |d| && Le(d[o..o + 4]) == a && Le(d[o + 4..o + 8]) == b && Le(d[o + 8..o + 12]) == c
      && Le(d[o + 12..o + 16]) == e && Le(d[o + 16..o + 20]) == f
  {
    var ws: seq<u32> := [a, b, c, e, f];
    WordsHeld(d, o, ws);
    hide Holds, PrintWords, Le;
    assert ws[0] == a && ws[1] == b && ws[2] == c && ws[3] == e && ws[4] == f;
    if o + 20 <= |d| && forall i :: 0 <= i < |ws| ==> Le(d[o + 4 * i..o + 4 * i + 4]) == ws[i] {
      assert Le(d[o + 4 * 0..o + 4 * 0 + 4]) == ws[0] && Le(d[o + 4 * 1..o + 4 * 1 + 4]) == ws[1];
      assert Le(d[o + 4 * 2..o + 4 * 2 + 4]) == ws[2] && Le(d[o + 4 * 3..o + 4 * 3 + 4]) == ws[3];
      assert Le(d[o + 4 * 4..o + 4 * 4 + 4]) == ws[4];
    }
  }

  /** The request options at an offset, without what leads there. */
  function RequestAt(d: bytes, a: u32): Option<Options>
    requires |d| <= MAX_CATALOG
  {
    if a + 20 > |d| then None else
      var hash :- Take(d, WordIn(d, a), 16);
      var name :- Decode(d, WordIn(d, a + 4), UNDERSCORE);
      Some(Options(Hex(hash), name, WordIn(d, a + 8), WordIn(d, a + 12)))
  }

  lemma RequestExact(d: bytes, o: u32, v: Options)
    requires |d| <= MAX_CATALOG
    ensures RequestAt(d, o) == Some(v) <==> ShowsRequest(d, o, v)
  {
    hide Decode, ShowsText, Holds, PrintWords, Le, Take, Hex, ShowsHash;
    if o + 20 <= |d| {
      var hash, name, spare := WordIn(d, o), WordIn(d, o + 4), WordIn(d, o + 16);
      HashExact(d, hash, v.hash);
      TextExact(d, name, UNDERSCORE, v.bundleName);
      if v.size < 0x1_0000_0000 {
        FiveHeld(d, o, hash, name, v.crc, v.size, spare);
      }
    }
    forall hash: u32, name: u32, spare: u32 |
      v.size < 0x1_0000_0000 && Holds(d, o, PrintWords([hash, name, v.crc, v.size, spare]))
      ensures o + 20 <= |d| && hash == WordIn(d, o) && name == WordIn(d, o + 4)
      ensures v.crc == WordIn(d, o + 8) && v.size == WordIn(d, o + 12)
    {
      FiveHeld(d, o, hash, name, v.crc, v.size, spare);
    }
  }

  lemma OptionsExact(types: Types, d: bytes, o: u32, v: Option<Options>)
    requires |d| <= MAX_CATALOG
    ensures OptionsAt(types, d, o) == Some(v) <==> ShowsOptions(types, d, o, v)
  {
    hide Decode, Holds, PrintWords, Le, Take, Hex, ShowsType, ShowsRequest, TypeNameAt;
    if o != NULL {
      if o + 8 <= |d| {
        var kind, at := WordIn(d, o), WordIn(d, o + 4);
        PairHeld(d, o, kind, at);
        TypeExact(d, kind, types.requestOptions);
        if v.Some? {
          RequestExact(d, at, v.value);
        }
        assert OptionsAt(types, d, o) ==
          if TypeNameAt(d, kind) != Some(types.requestOptions) || RequestAt(d, at).None? then None
          else Some(RequestAt(d, at));
      }
      forall kind: u32, at: u32 | Holds(d, o, PrintWords([kind, at]))
        ensures o + 8 <= |d| && kind == WordIn(d, o) && at == WordIn(d, o + 4)
      {
        PairHeld(d, o, kind, at);
      }
    }
  }

  lemma SevenHeld(d: bytes, o: nat, w: LocationWords)
    ensures Holds(d, o, PrintLocation(w)) <==>
      && o + 28 <= |d| && Le(d[o..o + 4]) == w.key && Le(d[o + 4..o + 8]) == w.internal
      && Le(d[o + 8..o + 12]) == w.provider && Le(d[o + 12..o + 16]) == w.dependencies
      && Le(d[o + 16..o + 20]) == w.spare && Le(d[o + 20..o + 24]) == w.options
      && Le(d[o + 24..o + 28]) == w.resourceType
  {
    var ws: seq<u32> := [w.key, w.internal, w.provider, w.dependencies, w.spare, w.options, w.resourceType];
    WordsHeld(d, o, ws);
    hide Holds, PrintWords, Le;
    assert ws[0] == w.key && ws[1] == w.internal && ws[2] == w.provider && ws[3] == w.dependencies;
    assert ws[4] == w.spare && ws[5] == w.options && ws[6] == w.resourceType;
    if o + 28 <= |d| && forall i :: 0 <= i < |ws| ==> Le(d[o + 4 * i..o + 4 * i + 4]) == ws[i] {
      assert Le(d[o + 4 * 0..o + 4 * 0 + 4]) == ws[0] && Le(d[o + 4 * 1..o + 4 * 1 + 4]) == ws[1];
      assert Le(d[o + 4 * 2..o + 4 * 2 + 4]) == ws[2] && Le(d[o + 4 * 3..o + 4 * 3 + 4]) == ws[3];
      assert Le(d[o + 4 * 4..o + 4 * 4 + 4]) == ws[4] && Le(d[o + 4 * 5..o + 4 * 5 + 4]) == ws[5];
      assert Le(d[o + 4 * 6..o + 4 * 6 + 4]) == ws[6];
    }
  }

  lemma NamesExact(d: bytes, id: u32, names: Names, w: LocationWords)
    requires |d| <= MAX_CATALOG && Holds(d, id, PrintLocation(w))
    ensures id + 28 <= |d|
    ensures NamesAt(d, id) == Some(names) <==>
      && ShowsText(d, w.key, 0x2F, names.key) && ShowsText(d, w.internal, 0x2F, names.internal)
      && ShowsText(d, w.provider, 0x2E, names.provider)
  {
    SevenHeld(d, id, w);
    hide Decode, ShowsText, Holds, PrintLocation, Le;
    TextExact(d, w.key, SLASH, names.key);
    TextExact(d, w.internal, SLASH, names.internal);
    TextExact(d, w.provider, DOT, names.provider);
  }

  lemma LocationOfWords(types: Types, d: bytes, id: u32, l: Location, w: LocationWords)
    requires |d| <= MAX_CATALOG && Holds(d, id, PrintLocation(w))
    ensures LocationAt(types, d, id) == Some(l) <==>
      && l.id == id && l.internal != [] && l.provider != []
      && ShowsText(d, w.key, 0x2F, l.key) && ShowsText(d, w.internal, 0x2F, l.internal)
      && ShowsText(d, w.provider, 0x2E, l.provider) && ShowsArray(d, w.dependencies, l.dependencies)
      && ShowsType(d, w.resourceType, l.resourceType) && ShowsOptions(types, d, w.options, l.options)
  {
    SevenHeld(d, id, w);
    NamesExact(d, id, Names(l.key, l.internal, l.provider), w);
    ArrayExact(d, w.dependencies, l.dependencies);
    TypeExact(d, w.resourceType, l.resourceType);
    OptionsExact(types, d, w.options, l.options);
    hide Decode, ShowsText, Holds, PrintLocation, Le, NamesAt, WordArray, ShowsArray, TypeNameAt, ShowsType, OptionsAt,
      ShowsOptions;
  }

  /** A location is read exactly as the file shows it. */
  lemma LocationExact(types: Types, d: bytes, id: u32, l: Location)
    requires |d| <= MAX_CATALOG
    ensures LocationAt(types, d, id) == Some(l) <==> ShowsLocation(types, d, id, l)
  {
    hide LocationAt, ShowsText, Holds, PrintLocation, Le, ShowsArray, ShowsType, ShowsOptions;
    if LocationAt(types, d, id) == Some(l) {
      LocationInside(types, d, id);
      var w := LocationWords(WordIn(d, id), WordIn(d, id + 4), WordIn(d, id + 8), WordIn(d, id + 12),
        WordIn(d, id + 16), WordIn(d, id + 20), WordIn(d, id + 24));
      SevenHeld(d, id, w);
      LocationOfWords(types, d, id, l, w);
    }
    forall w | Holds(d, id, PrintLocation(w))
      ensures LocationAt(types, d, id) == Some(l) <==>
        && l.id == id && l.internal != [] && l.provider != []
        && ShowsText(d, w.key, 0x2F, l.key) && ShowsText(d, w.internal, 0x2F, l.internal)
        && ShowsText(d, w.provider, 0x2E, l.provider) && ShowsArray(d, w.dependencies, l.dependencies)
        && ShowsType(d, w.resourceType, l.resourceType) && ShowsOptions(types, d, w.options, l.options)
    {
      LocationOfWords(types, d, id, l, w);
    }
  }

  lemma LocationInside(types: Types, d: bytes, id: u32)
    requires |d| <= MAX_CATALOG && LocationAt(types, d, id).Some?
    ensures id + 28 <= |d|
  {
    hide NamesAt, WordArray, TypeNameAt, OptionsAt;
  }

  // ----- keys

  /** A text key: the reference to its text, and the separator as a character of 16 bits. */
  ghost predicate ShowsTextKey(d: bytes, o: u32, text: bytes)
  {
    exists ref: u32, sep: Char ::
      sep < 0x1_0000 && Holds(d, o, ToLe(ref, 4) + ToLe(sep, 2)) && ShowsText(d, ref, sep, text)
  }

  /** What a key of this type is: a text, or a number, which has none. */
  ghost predicate KeyIs(types: Types, d: bytes, name: bytes, at: u32, key: Option<bytes>)
  {
    if name == types.text then key.Some? && ShowsTextKey(d, at, key.value)
    else key == None && name in {types.int32, types.int64, types.boolean}
  }

  /** A key: its type, and what the type makes of the second word. */
  ghost predicate ShowsKey(types: Types, d: bytes, o: u32, key: Option<bytes>)
  {
    exists kind: u32, at: u32, name ::
      Holds(d, o, PrintWords([kind, at])) && ShowsType(d, kind, name) && KeyIs(types, d, name, at, key)
  }

  lemma ShortHeld(d: bytes, at: nat, n: nat)
    requires n < 0x1_0000
    ensures Holds(d, at, ToLe(n, 2)) <==> at + 2 <= |d| && Le(d[at..at + 2]) == n
  {
    Powers();
    LeToLe(n, 2);
    if at + 2 <= |d| {
      ToLeLe(d[at..at + 2]);
    }
    hide Le, ToLe;
  }

  lemma SixHeld(d: bytes, at: nat, ref: u32, sep: nat)
    requires sep < 0x1_0000
    ensures Holds(d, at, ToLe(ref, 4) + ToLe(sep, 2)) <==>
      at + 6 <= |d| && Le(d[at..at + 4]) == ref && Le(d[at + 4..at + 6]) == sep
  {
    hide Holds, Le, ToLe;
    HeldParts(d, at, ToLe(ref, 4), ToLe(sep, 2));
    NumberHeld(d, at, ref);
    ShortHeld(d, at + 4, sep);
  }

  /** A text key at an offset, without what leads there. */
  function TextKeyAt(d: bytes, at: u32): Option<bytes>
    requires |d| <= MAX_CATALOG
  {
    if at + 6 > |d| then None else
      var sep := Le(d[at + 4..at + 6]);
      if sep >= 0x11_0000 || 0xD800 <= sep < 0xE000 then None else Decode(d, WordIn(d, at), sep)
  }

  lemma TextKeyExact(d: bytes, o: u32, text: bytes)
    requires |d| <= MAX_CATALOG
    ensures TextKeyAt(d, o) == Some(text) <==> ShowsTextKey(d, o, text)
  {
    if o + 6 <= |d| {
      Powers();
      LeRange(d[o + 4..o + 6]);
    }
    hide Decode, ShowsText, Holds, Le, ToLe;
    if o + 6 <= |d| {
      var ref, sep := WordIn(d, o), Le(d[o + 4..o + 6]);
      SixHeld(d, o, ref, sep);
      if !(0xD800 <= sep < 0xE000) {
        TextExact(d, ref, sep, text);
      }
    }
    forall ref: u32, sep: Char | sep < 0x1_0000 && Holds(d, o, ToLe(ref, 4) + ToLe(sep, 2))
      ensures o + 6 <= |d| && ref == WordIn(d, o) && sep == Le(d[o + 4..o + 6])
    {
      SixHeld(d, o, ref, sep);
    }
  }

  lemma KeyUnfolds(types: Types, d: bytes, o: u32)
    requires |d| <= MAX_CATALOG
    ensures KeyAt(types, d, o) ==
      if o + 8 > |d| then None else
      match TypeNameAt(d, WordIn(d, o))
      case None => None
      case Some(name) =>
        if name == types.text then
          match TextKeyAt(d, WordIn(d, o + 4)) case None => None case Some(text) => Some(Some(text))
        else if name == types.int32 || name == types.int64 || name == types.boolean then Some(None)
        else None
  {
    hide Decode, TypeNameAt, Le;
  }

  lemma KeyOfWords(types: Types, d: bytes, o: u32, key: Option<bytes>, kind: u32, at: u32, name: bytes)
    requires |d| <= MAX_CATALOG && Holds(d, o, PrintWords([kind, at])) && ShowsType(d, kind, name)
    ensures KeyAt(types, d, o) == Some(key) <==> KeyIs(types, d, name, at, key)
  {
    hide Decode, TypeNameAt, Le, KeyAt, TextKeyAt, ShowsTextKey, Holds, PrintWords, ShowsType;
    PairHeld(d, o, kind, at);
    TypeExact(d, kind, name);
    KeyUnfolds(types, d, o);
    if key.Some? {
      TextKeyExact(d, at, key.value);
    }
  }

  /** A key is read exactly as the file shows it. */
  lemma KeyExact(types: Types, d: bytes, o: u32, key: Option<bytes>)
    requires |d| <= MAX_CATALOG
    ensures KeyAt(types, d, o) == Some(key) <==> ShowsKey(types, d, o, key)
  {
    hide Decode, TypeNameAt, Le, KeyAt, TextKeyAt, KeyIs, Holds, PrintWords, ShowsType;
    if KeyAt(types, d, o) == Some(key) {
      KeyUnfolds(types, d, o);
      var kind, at := WordIn(d, o), WordIn(d, o + 4);
      var name := TypeNameAt(d, kind).value;
      PairHeld(d, o, kind, at);
      TypeExact(d, kind, name);
      KeyOfWords(types, d, o, key, kind, at, name);
    }
    forall kind: u32, at: u32, name | Holds(d, o, PrintWords([kind, at])) && ShowsType(d, kind, name)
      ensures KeyAt(types, d, o) == Some(key) <==> KeyIs(types, d, name, at, key)
    {
      KeyOfWords(types, d, o, key, kind, at, name);
    }
  }
}
