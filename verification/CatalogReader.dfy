/**
 The binary catalog: bounds-checked reads at 32-bit offsets, and the string decoder over possibly cyclic linked
 lists.  The memoising reader is proved against the decoder that remembers nothing.
 */
module CatalogReader {
  import opened Bytes
  import opened Numbers
  import opened Sums
  import Text

  const NULL: u32 := 0xFFFF_FFFF
  const MAX_CATALOG := 0x200_0000
  const MAX_ITEMS := 200_000
  const MAX_TEXT := 0x1_0000
  const MAX_LINKS := 4096
  const STRING_BUDGET := 0x400_0000

  /** A Unicode scalar value; 0 stands for "no separator". */
  type Char = Text.Char

  const SLASH: Char := 0x2F
  const DOT: Char := 0x2E
  const UNDERSCORE: Char := 0x5F

  datatype Options = Options(hash: bytes, bundleName: bytes, crc: u32, size: nat)

  datatype Location = Location(
    id: u32, key: bytes, internal: bytes, provider: bytes, resourceType: bytes, dependencies: seq<u32>,
    options: Option<Options>)

  /** The type names of the format; everything below holds for any choice of them. */
  datatype Types = Types(text: bytes, int32: bytes, int64: bytes, boolean: bytes, requestOptions: bytes)

  const FORMAT := Types(
    Text.Literal("System.String"), Text.Literal("System.Int32"), Text.Literal("System.Int64"),
    Text.Literal("System.Boolean"),
    Text.Literal("UnityEngine.ResourceManagement.ResourceProviders.AssetBundleRequestOptions"))

  // ----- reads at an offset

  function Take(d: bytes, o: u32, n: nat): Option<bytes>
  {
    if o + n <= |d| then Some(d[o..o + n]) else None
  }

  /** The word at an offset that is known to be inside. */
  function WordIn(d: bytes, o: u32): u32
    requires o + 4 <= |d|
  {
    LeRange(d[o..o + 4]);
    Powers();
    Le(d[o..o + 4])
  }

  function Word(d: bytes, o: u32): Option<u32>
  {
    if o + 4 > |d| then None else Some(WordIn(d, o))
  }

  /** The offsets of the items of a length-prefixed array; none of them overflows 32 bits. */
  function Items(o: u32, stride: nat, n: nat): (r: seq<u32>)
    requires o + n * stride < 0x1_0000_0000
    ensures |r| == n
    ensures forall i :: 0 <= i < n ==> r[i] == o + i * stride
  {
    if n == 0 then [] else
      assert (n - 1) * stride == n * stride - stride;
      Items(o, stride, n - 1) + [o + (n - 1) * stride]
  }

  function Array(d: bytes, o: u32, stride: nat): Option<seq<u32>>
    requires stride > 0 && |d| <= MAX_CATALOG
  {
    if o == NULL then Some([]) else
    if o < 4 then None else
      var size :- Word(d, o - 4);
      if size % stride != 0 || size / stride > MAX_ITEMS || o + size > |d| then None else
        assert size / stride * stride == size;
        Some(Items(o, stride, size / stride))
  }

  lemma Steps(i: nat, n: nat, stride: nat)
    requires i < n
    ensures i * stride + stride <= n * stride
  {
    assert n * stride == i * stride + (n - i) * stride;
    assert (n - i) * stride == stride + (n - i - 1) * stride;
  }

  /** Every item of an accepted array lies inside the data. */
  lemma ArrayInside(d: bytes, o: u32, stride: nat, i: nat)
    requires stride > 0 && |d| <= MAX_CATALOG && Array(d, o, stride).Some? && i < |Array(d, o, stride).value|
    ensures Array(d, o, stride).value[i] + stride <= |d|
  {
    var size := Word(d, o - 4).value;
    var n := size / stride;
    assert n * stride == size;
    hide Word;
    var items := Items(o, stride, n);
    assert items[i] == o + i * stride;
    Steps(i, n, stride);
  }

  /** The words that an accepted array of offsets points at. */
  function Words(d: bytes, at: seq<u32>): Option<seq<u32>>
  {
    if at == [] then Some([]) else
      var front :- Words(d, at[..|at| - 1]);
      var last :- Word(d, at[|at| - 1]);
      Some(front + [last])
  }

  function WordArray(d: bytes, o: u32): Option<seq<u32>>
    requires |d| <= MAX_CATALOG
  {
    var at :- Array(d, o, 4);
    Words(d, at)
  }

  // ----- strings

  predicate Dynamic(o: u32)
  {
    o / 0x4000_0000 % 2 == 1
  }

  function Address(o: u32): (a: u32)
    ensures a < 0x4000_0000
  {
    o % 0x4000_0000
  }

  /** A length-prefixed run of ASCII or UTF-16 text. */
  function Static(d: bytes, o: u32): Option<bytes>
  {
    if Address(o) < 4 then None else
      var n :- Word(d, Address(o) - 4);
      if n > MAX_TEXT then None else
        var b :- Take(d, Address(o), n);
        if o >= 0x8000_0000 then if n % 2 == 0 then Text.DecodeUtf16(b) else None
        else if Text.Ascii(b) then Some(b) else None
  }

  /** A part of a linked string, which may not itself be linked. */
  function Part(d: bytes, a: u32): Option<bytes>
  {
    var s :- Word(d, a);
    if s == NULL then Some([]) else if Dynamic(s) then None else Static(d, s)
  }

  function Next(d: bytes, a: u32): Option<u32>
    requires a < 0x4000_0000
  {
    Word(d, a + 4)
  }

  /** The parts from node `p` on, given the nodes already passed and the bytes already gathered. */
  function Links(d: bytes, p: u32, seen: set<u32>, total: nat): Option<seq<bytes>>
    decreases MAX_LINKS - |seen|
  {
    if p == NULL then Some([]) else
      var a := Address(p);
      if a in seen || |seen| >= MAX_LINKS then None else
        var part :- Part(d, a);
        if total + |part| >= MAX_TEXT then None else
          var next :- Next(d, a);
          var rest :- Links(d, next, seen + {a}, total + |part|);
          Some([part] + rest)
  }

  function After(parts: seq<bytes>, rest: Option<seq<bytes>>): Option<seq<bytes>>
  {
    var more :- rest;
    Some(parts + more)
  }

  lemma AfterNothing(rest: Option<seq<bytes>>)
    ensures After([], rest) == rest
  {
    if rest.Some? {
      assert [] + rest.value == rest.value;
    }
  }

  predicate Refused(d: bytes, a: u32, seen: set<u32>, total: nat)
    requires a < 0x4000_0000
  {
    || a in seen || |seen| >= MAX_LINKS || Part(d, a).None? || total + |Part(d, a).value| >= MAX_TEXT
    || Next(d, a).None?
  }

  lemma LinkRefused(d: bytes, p: u32, seen: set<u32>, total: nat, parts: seq<bytes>)
    requires p != NULL
    ensures Refused(d, Address(p), seen, total) <==>
      Address(p) in seen || |seen| >= MAX_LINKS || Refused(d, Address(p), {}, total)
    ensures Refused(d, Address(p), seen, total) ==> After(parts, Links(d, p, seen, total)) == None
  {
    hide Part, Next, Address;
  }

  /** An accepted node moves its part from what is still to come to what has been gathered. */
  lemma LinkTaken(d: bytes, p: u32, seen: set<u32>, total: nat, parts: seq<bytes>, part: bytes, next: u32)
    requires p != NULL && !Refused(d, Address(p), seen, total)
    requires Part(d, Address(p)) == Some(part) && Next(d, Address(p)) == Some(next)
    ensures After(parts, Links(d, p, seen, total)) ==
            After(parts + [part], Links(d, next, seen + {Address(p)}, total + |part|))
  {
    hide Part, Next, Address;
    var rest := Links(d, next, seen + {Address(p)}, total + |part|);
    if rest.Some? {
      assert parts + ([part] + rest.value) == (parts + [part]) + rest.value;
    }
  }

  function Reverse(parts: seq<bytes>): seq<bytes>
  {
    if parts == [] then [] else Reverse(parts[1..]) + [parts[0]]
  }

  function Join(parts: seq<bytes>, sep: bytes): bytes
  {
    if parts == [] then [] else if |parts| == 1 then parts[0] else parts[0] + sep + Join(parts[1..], sep)
  }

  /** The decoder that remembers nothing. */
  function Decode(d: bytes, o: u32, sep: Char): Option<bytes>
  {
    if o == NULL then Some([])
    else if Dynamic(o) then
      if sep == 0 then None else
        var parts :- Links(d, o, {}, 0);
        Some(Join(Reverse(parts), Text.EncodeChar(sep)))
    else Static(d, o)
  }

  lemma PartDecodes(d: bytes, a: u32)
    ensures var s := Word(d, a);
      Part(d, a) == if s.None? || (Dynamic(s.value) && s.value != NULL) then None else Decode(d, s.value, 0)
  {
    hide Word, Static, Links;
  }

  lemma LinksEnd(d: bytes, parts: seq<bytes>, seen: set<u32>, total: nat)
    ensures After(parts, Links(d, NULL, seen, total)) == Some(parts)
  {
    assert parts + [] == parts;
  }

  // ----- the strings that a read asks for

  /** An offset with the separator under which it is decoded: the key of the string memo. */
  type Ask = (u32, Char)

  function NodeAsks(d: bytes, a: u32): set<Ask>
  {
    match Word(d, a)
    case None => {}
    case Some(s) => if s == NULL || Dynamic(s) then {} else {(s, 0)}
  }

  /** The parts that the walk along the nodes of a linked string asks for, up to the node that it refuses. */
  function LinkAsks(d: bytes, p: u32, seen: set<u32>, total: nat): set<Ask>
    decreases MAX_LINKS - |seen|
  {
    if p == NULL || Address(p) in seen || |seen| >= MAX_LINKS then {} else
      var a := Address(p);
      NodeAsks(d, a) +
      if Refused(d, a, seen, total) then {} else
        LinkAsks(d, Next(d, a).value, seen + {a}, total + |Part(d, a).value|)
  }

  function StringAsks(d: bytes, o: u32, sep: Char): set<Ask>
  {
    if o == NULL || (Dynamic(o) && sep == 0) then {}
    else if Dynamic(o) then {(o, sep)} + LinkAsks(d, o, {}, 0)
    else {(o, sep)}
  }

  lemma {:induction false} PartsAskedPlain(d: bytes, p: u32, seen: set<u32>, total: nat)
    ensures forall k :: k in LinkAsks(d, p, seen, total) ==> k.1 == 0
    decreases MAX_LINKS - |seen|
  {
    hide Part, Next, Address, Word, Dynamic;
    if p != NULL && Address(p) !in seen && |seen| < MAX_LINKS && !Refused(d, Address(p), seen, total) {
      var a := Address(p);
      PartsAskedPlain(d, Next(d, a).value, seen + {a}, total + |Part(d, a).value|);
    }
  }

  /** Whatever is remembered, all that it asked for is remembered too. */
  ghost predicate Whole(d: bytes, known: set<Ask>)
  {
    forall k :: k in known ==> StringAsks(d, k.0, k.1) <= known
  }

  lemma KnownWhole(d: bytes, known: set<Ask>, k: Ask)
    requires Whole(d, known) && k in known
    ensures Grew(known, known, StringAsks(d, k.0, k.1), true)
  {
    hide StringAsks;
  }

  /** What a read adds to the memo: nothing but what it asks for, and all of that if it succeeds. */
  ghost predicate Grew(before: set<Ask>, after: set<Ask>, asks: set<Ask>, done: bool)
  {
    before <= after <= before + asks && (done ==> after == before + asks)
  }

  // ----- linked strings and chains of nodes

  /** `nodes` are the addresses met from `p` until the end marker. */
  predicate Chain(d: bytes, p: u32, nodes: seq<u32>)
    decreases |nodes|
  {
    if nodes == [] then p == NULL
    else
      && p != NULL && nodes[0] == Address(p)
      && Part(d, nodes[0]).Some? && Next(d, nodes[0]).Some?
      && Chain(d, Next(d, nodes[0]).value, nodes[1..])
  }

  predicate Distinct(nodes: seq<u32>)
  {
    forall i, j :: 0 <= i < j < |nodes| ==> nodes[i] != nodes[j]
  }

  function PartsOf(d: bytes, nodes: seq<u32>): seq<bytes>
  {
    if nodes == [] then [] else (match Part(d, nodes[0]) case None => [] case Some(p) => [p]) + PartsOf(d, nodes[1..])
  }

  function Length(parts: seq<bytes>): nat
  {
    if parts == [] then 0 else |parts[0]| + Length(parts[1..])
  }

  predicate Apart(nodes: seq<u32>, seen: set<u32>)
  {
    forall i :: 0 <= i < |nodes| ==> nodes[i] !in seen
  }

  lemma {:induction false} LinksGiveChain(d: bytes, p: u32, seen: set<u32>, total: nat) returns (nodes: seq<u32>)
    requires Links(d, p, seen, total).Some? && |seen| <= MAX_LINKS
    ensures Chain(d, p, nodes) && Distinct(nodes) && Apart(nodes, seen) && |seen| + |nodes| <= MAX_LINKS
    ensures PartsOf(d, nodes) == Links(d, p, seen, total).value
    ensures nodes != [] ==> total + Length(PartsOf(d, nodes)) < MAX_TEXT
    decreases MAX_LINKS - |seen|
  {
    hide Part, Word, Address;
    nodes := [];
    if p != NULL {
      var a := Address(p);
      var rest := LinksGiveChain(d, Next(d, a).value, seen + {a}, total + |Part(d, a).value|);
      nodes := [a] + rest;
      assert nodes[1..] == rest;
      assert PartsOf(d, nodes) == [Part(d, a).value] + PartsOf(d, rest);
      assert PartsOf(d, nodes)[1..] == PartsOf(d, rest);
    }
  }

  lemma {:induction false} ChainGivesLinks(d: bytes, p: u32, seen: set<u32>, total: nat, nodes: seq<u32>)
    requires Chain(d, p, nodes) && Distinct(nodes) && Apart(nodes, seen) && |seen| + |nodes| <= MAX_LINKS
    requires nodes != [] ==> total + Length(PartsOf(d, nodes)) < MAX_TEXT
    ensures Links(d, p, seen, total) == Some(PartsOf(d, nodes))
    decreases |nodes|
  {
    hide Part, Word, Address;
    if nodes != [] {
      var a, rest := nodes[0], nodes[1..];
      var part := Part(d, a).value;
      assert PartsOf(d, nodes) == [part] + PartsOf(d, rest);
      assert PartsOf(d, nodes)[1..] == PartsOf(d, rest);
      assert Apart(rest, seen + {a});
      ChainGivesLinks(d, Next(d, a).value, seen + {a}, total + |part|, rest);
    }
  }

  /** A string of at most 4096 nodes, no node twice, under 64 KiB of parts. */
  ghost predicate Linked(d: bytes, o: u32, nodes: seq<u32>)
  {
    Chain(d, o, nodes) && Distinct(nodes) && |nodes| <= MAX_LINKS && Length(PartsOf(d, nodes)) < MAX_TEXT
  }

  /**
   A linked string decodes exactly when its nodes run to the end marker without a repetition and within the bounds;
   the value is the parts from the last node to the first, joined by the separator.
   */
  lemma DynamicDecodes(d: bytes, o: u32, sep: Char)
    requires o != NULL && Dynamic(o) && sep != 0
    ensures Decode(d, o, sep).Some? <==> exists nodes :: Linked(d, o, nodes)
    ensures forall nodes :: Linked(d, o, nodes) ==>
      Decode(d, o, sep) == Some(Join(Reverse(PartsOf(d, nodes)), Text.EncodeChar(sep)))
  {
    if Decode(d, o, sep).Some? {
      var nodes := LinksGiveChain(d, o, {}, 0);
      assert Linked(d, o, nodes);
    }
    forall nodes | Linked(d, o, nodes)
      ensures Decode(d, o, sep) == Some(Join(Reverse(PartsOf(d, nodes)), Text.EncodeChar(sep)))
    {
      ChainGivesLinks(d, o, {}, 0, nodes);
    }
  }

  // ----- records

  function TypeNameAt(d: bytes, o: u32): Option<bytes>
    requires |d| <= MAX_CATALOG
  {
    if o == NULL || o + 8 > |d| then None else
      Decode(d, WordIn(d, o + 4), DOT)
  }

  /** A text key, or None inside for a key of a number type. */
  function KeyAt(types: Types, d: bytes, o: u32): Option<Option<bytes>>
    requires |d| <= MAX_CATALOG
  {
    if o + 8 > |d| then None else
      var kind :- TypeNameAt(d, WordIn(d, o));
      var at := WordIn(d, o + 4);
      if kind == types.text then
        if at + 6 > |d| then None else
          var sep := Le(d[at + 4..at + 6]);
          if sep >= 0x11_0000 || 0xD800 <= sep < 0xE000 then None else
            var value :- Decode(d, WordIn(d, at), sep);
            Some(Some(value))
      else if kind == types.int32 || kind == types.int64 || kind == types.boolean then Some(None)
      else None
  }

  function HexDigit(n: nat): byte
    requires n < 16
  {
    if n < 10 then 0x30 + n else 0x57 + n
  }

  function Hex(b: bytes): (r: bytes)
    ensures |r| == 2 * |b|
  {
    if b == [] then [] else [HexDigit(b[0] / 16), HexDigit(b[0] % 16)] + Hex(b[1..])
  }

  function TypeNameAsks(d: bytes, o: u32): set<Ask>
    requires |d| <= MAX_CATALOG
  {
    if o == NULL || o + 8 > |d| then {} else StringAsks(d, WordIn(d, o + 4), DOT)
  }

  /** A text key is asked for under the separator that stands behind it. */
  function TextAsks(d: bytes, at: u32): set<Ask>
  {
    if at + 6 > |d| then {} else
      var sep := Le(d[at + 4..at + 6]);
      if sep >= 0x11_0000 || 0xD800 <= sep < 0xE000 then {} else StringAsks(d, WordIn(d, at), sep)
  }

  function KeyAsks(types: Types, d: bytes, o: u32): set<Ask>
    requires |d| <= MAX_CATALOG
  {
    if o + 8 > |d| then {} else
      TypeNameAsks(d, WordIn(d, o)) +
      if TypeNameAt(d, WordIn(d, o)) == Some(types.text) then TextAsks(d, WordIn(d, o + 4)) else {}
  }

  function OptionsAsks(types: Types, d: bytes, extra: u32): set<Ask>
    requires |d| <= MAX_CATALOG
  {
    if extra == NULL || extra + 8 > |d| then {} else
      TypeNameAsks(d, WordIn(d, extra)) +
      if TypeNameAt(d, WordIn(d, extra)) != Some(types.requestOptions) then {} else
        var a := WordIn(d, extra + 4);
        if a + 20 > |d| then {} else StringAsks(d, WordIn(d, a + 4), UNDERSCORE)
  }

  function NamesAsks(d: bytes, id: u32): set<Ask>
    requires |d| <= MAX_CATALOG && id + 28 <= |d|
  {
    StringAsks(d, WordIn(d, id), SLASH) + StringAsks(d, WordIn(d, id + 4), SLASH) +
    StringAsks(d, WordIn(d, id + 8), DOT)
  }

  function LocationAsks(types: Types, d: bytes, id: u32): set<Ask>
    requires |d| <= MAX_CATALOG
  {
    if id + 28 > |d| then {} else
      NamesAsks(d, id) + TypeNameAsks(d, WordIn(d, id + 24)) + OptionsAsks(types, d, WordIn(d, id + 20))
  }

  function OptionsAt(types: Types, d: bytes, extra: u32): Option<Option<Options>>
    requires |d| <= MAX_CATALOG
  {
    if extra == NULL then Some(None) else
    if extra + 8 > |d| then None else
      var kind :- TypeNameAt(d, WordIn(d, extra));
      if kind != types.requestOptions then None else
        var a := WordIn(d, extra + 4);
        if a + 20 > |d| then None else
          var hash :- Take(d, WordIn(d, a), 16);
          var name :- Decode(d, WordIn(d, a + 4), UNDERSCORE);
          Some(Some(Options(Hex(hash), name, WordIn(d, a + 8), WordIn(d, a + 12))))
  }

  datatype Names = Names(key: bytes, internal: bytes, provider: bytes)

  function NamesAt(d: bytes, id: u32): Option<Names>
    requires |d| <= MAX_CATALOG && id + 28 <= |d|
  {
    var key :- Decode(d, WordIn(d, id), SLASH);
    var internal :- Decode(d, WordIn(d, id + 4), SLASH);
    var provider :- Decode(d, WordIn(d, id + 8), DOT);
    Some(Names(key, internal, provider))
  }

  function LocationAt(types: Types, d: bytes, id: u32): Option<Location>
    requires |d| <= MAX_CATALOG
  {
    if id + 28 > |d| then None else
      var names :- NamesAt(d, id);
      var dependencies :- WordArray(d, WordIn(d, id + 12));
      var resourceType :- TypeNameAt(d, WordIn(d, id + 24));
      var options :- OptionsAt(types, d, WordIn(d, id + 20));
      if names.internal == [] || names.provider == [] then None else
      Some(Location(id, names.key, names.internal, names.provider, resourceType, dependencies, options))
  }

  // ----- the memoising reader

  type Memo = map<Ask, bytes>

  function Size(text: bytes): nat
  {
    |text|
  }

  /** Every remembered value is what the plain decoder gives. */
  ghost predicate Honest(d: bytes, m: Memo)
  {
    forall k :: k in m ==> Decode(d, k.0, k.1) == Some(m[k])
  }

  /** The walk has remembered all that it asks for up to the node where it stands. */
  ghost predicate Ahead(before: set<Ask>, now: set<Ask>, asks: set<Ask>, rest: set<Ask>)
  {
    before <= now && now + rest == before + asks
  }

  lemma AheadBegins(before: set<Ask>, asks: set<Ask>)
    ensures Ahead(before, before, asks, asks)
  {
  }

  lemma AheadGrew(d: bytes, p: u32, seen: set<u32>, total: nat, before: set<Ask>, now: set<Ask>, asks: set<Ask>)
    requires Ahead(before, now, asks, LinkAsks(d, p, seen, total))
    ensures Grew(before, now, asks, p == NULL)
  {
    hide Part, Next, Address, NodeAsks;
  }

  lemma AheadStep(d: bytes, p: u32, seen: set<u32>, total: nat, start: set<Ask>, before: set<Ask>, now: set<Ask>,
    asks: set<Ask>, done: bool)
    requires p != NULL && Address(p) !in seen && |seen| < MAX_LINKS
    requires Ahead(start, before, asks, LinkAsks(d, p, seen, total))
    requires Grew(before, now, NodeAsks(d, Address(p)), done)
    ensures Grew(start, now, asks, false)
    ensures done && !Refused(d, Address(p), seen, total) ==>
      Ahead(start, now, asks,
        LinkAsks(d, Next(d, Address(p)).value, seen + {Address(p)}, total + |Part(d, Address(p)).value|))
  {
    hide Part, Next, Address, NodeAsks;
  }

  class Reader {
    const types: Types
    const data: bytes
    var strings: Memo
    var stringBytes: nat
    /** Every value decoded so far, the one that broke the budget included. */
    ghost var decoded: Memo

    ghost predicate Valid()
      reads this
    {
      && |data| <= MAX_CATALOG && Honest(data, decoded) && Sum(decoded, Size) == stringBytes
      && (InBudget() ==> strings == decoded) && Whole(data, decoded.Keys)
    }

    predicate InBudget()
      reads this
    {
      stringBytes <= STRING_BUDGET
    }

    constructor (types: Types, data: bytes)
      requires |data| <= MAX_CATALOG
      ensures Valid() && InBudget() && this.types == types && this.data == data && decoded == map[]
    {
      this.types := types;
      this.data := data;
      strings := map[];
      stringBytes := 0;
      decoded := map[];
    }

    method Remember(o: u32, sep: Char, value: bytes) returns (r: Option<bytes>)
      requires Valid() && InBudget() && (o, sep) !in strings && Decode(data, o, sep) == Some(value)
      requires StringAsks(data, o, sep) <= strings.Keys + {(o, sep)}
      modifies this
      ensures Valid() && (r.Some? <==> InBudget()) && (r.Some? ==> r == Some(value))
      ensures decoded.Keys == old(decoded.Keys) + {(o, sep)}
    {
      hide Decode, StringAsks;
      SumAdd(strings, Size, (o, sep), value);
      stringBytes := stringBytes + |value|;
      decoded := strings[(o, sep) := value];
      if stringBytes > STRING_BUDGET {
        return None;
      }
      strings := strings[(o, sep) := value];
      return Some(value);
    }

    /**
     The decreases clause bounds the recursion at two levels: a linked string calls itself only on parts that are
     not linked, and those call nothing.
     */
    method String(o: u32, sep: Char) returns (r: Option<bytes>)
      requires Valid() && InBudget()
      modifies this
      ensures Valid()
      ensures r.Some? ==> r == Decode(data, o, sep)
      ensures r.Some? <==> Decode(data, o, sep).Some? && InBudget()
      ensures Grew(old(decoded.Keys), decoded.Keys, StringAsks(data, o, sep), r.Some?)
      decreases if o != NULL && Dynamic(o) then 1 else 0, 3
    {
      hide Links, LinkAsks, Static, Dynamic, Whole;
      if o == NULL {
        return Some([]);
      }
      if (o, sep) in strings {
        KnownWhole(data, decoded.Keys, (o, sep));
        return Some(strings[(o, sep)]);
      }
      if Dynamic(o) {
        if sep == 0 {
          return None;
        }
        r := LinkedString(o, sep);
      } else {
        var text :- Static(data, o);
        r := Remember(o, sep, text);
      }
    }

    method LinkedString(o: u32, sep: Char) returns (r: Option<bytes>)
      requires Valid() && InBudget() && o != NULL && Dynamic(o) && sep != 0 && (o, sep) !in strings
      modifies this
      ensures Valid()
      ensures r.Some? ==> r == Decode(data, o, sep)
      ensures r.Some? <==> Decode(data, o, sep).Some? && InBudget()
      ensures Grew(old(decoded.Keys), decoded.Keys, StringAsks(data, o, sep), r.Some?)
      decreases 1, 2
    {
      hide Links, LinkAsks, Dynamic, Whole, Honest;
      PartsAskedPlain(data, o, {}, 0);
      var parts :- Gather(o, sep);
      r := Remember(o, sep, Join(Reverse(parts), Text.EncodeChar(sep)));
    }

    /** One node of a linked string: its part and the node after it. */
    method Visit(a: u32, total: nat) returns (r: Option<(bytes, u32)>)
      requires Valid() && InBudget() && a < 0x4000_0000
      modifies this
      ensures Valid()
      ensures r.Some? ==> Part(data, a) == Some(r.value.0) && Next(data, a) == Some(r.value.1)
      ensures r.Some? <==> InBudget() && !Refused(data, a, {}, total)
      ensures Grew(old(decoded.Keys), decoded.Keys, NodeAsks(data, a), r.Some?)
      decreases 1, 0
    {
      PartDecodes(data, a);
      hide Part, Decode;
      var s :- Word(data, a);
      if Dynamic(s) && s != NULL {
        return None;
      }
      var part :- String(s, 0);
      if total + |part| >= MAX_TEXT {
        return None;
      }
      var next :- Word(data, a + 4);
      return Some((part, next));
    }

    /** The walk along the nodes of a linked string. */
    method Gather(o: u32, sep: Char) returns (r: Option<seq<bytes>>)
      requires Valid() && InBudget() && o != NULL && Dynamic(o) && sep != 0
      modifies this
      ensures Valid()
      ensures r.Some? ==> r == Links(data, o, {}, 0)
      ensures r.Some? <==> Links(data, o, {}, 0).Some? && InBudget()
      ensures Grew(old(decoded.Keys), decoded.Keys, LinkAsks(data, o, {}, 0), r.Some?)
      decreases 1, 1
    {
      hide Links, LinkAsks, NodeAsks, Grew, Ahead, Refused, Word, Part, After, Address, Next, Valid, InBudget, Dynamic;
      var p, parts: seq<bytes> := o, [];
      var seen: set<u32>, total: nat := {}, 0;
      ghost var whole := Links(data, o, {}, 0);
      AfterNothing(whole);
      ghost var start, asks := decoded.Keys, LinkAsks(data, o, {}, 0);
      AheadBegins(start, asks);
      while p != NULL
        invariant Valid() && InBudget() && |seen| <= MAX_LINKS
        invariant whole == After(parts, Links(data, p, seen, total))
        invariant Ahead(start, decoded.Keys, asks, LinkAsks(data, p, seen, total))
        decreases MAX_LINKS - |seen|
      {
        var a := Address(p);
        AheadGrew(data, p, seen, total, start, decoded.Keys, asks);
        LinkRefused(data, p, seen, total, parts);
        if a in seen || |seen| >= MAX_LINKS {
          return None;
        }
        ghost var before := decoded.Keys;
        var link := Visit(a, total);
        AheadStep(data, p, seen, total, start, before, decoded.Keys, asks, link.Some?);
        if link.None? {
          return None;
        }
        var (part, next) := link.value;
        LinkTaken(data, p, seen, total, parts, part, next);
        p, seen, parts, total := next, seen + {a}, parts + [part], total + |part|;
      }
      LinksEnd(data, parts, seen, total);
      AheadGrew(data, NULL, seen, total, start, decoded.Keys, asks);
      return Some(parts);
    }

    method TypeName(o: u32) returns (r: Option<bytes>)
      requires Valid() && InBudget()
      modifies this
      ensures Valid()
      ensures r.Some? ==> r == TypeNameAt(data, o)
      ensures r.Some? <==> TypeNameAt(data, o).Some? && InBudget()
      ensures Grew(old(decoded.Keys), decoded.Keys, TypeNameAsks(data, o), r.Some?)
    {
      if o == NULL || o + 8 > |data| {
        return None;
      }
      r := String(WordIn(data, o + 4), DOT);
    }

    method Key(o: u32) returns (r: Option<Option<bytes>>)
      requires Valid() && InBudget()
      modifies this
      ensures Valid()
      ensures r.Some? ==> r == KeyAt(types, data, o)
      ensures r.Some? <==> KeyAt(types, data, o).Some? && InBudget()
      ensures Grew(old(decoded.Keys), decoded.Keys, KeyAsks(types, data, o), r.Some?)
    {
      hide Decode, StringAsks;
      if o + 8 > |data| {
        return None;
      }
      var kind :- TypeName(WordIn(data, o));
      var at := WordIn(data, o + 4);
      if kind == types.text {
        if at + 6 > |data| {
          return None;
        }
        var sep := Le(data[at + 4..at + 6]);
        if sep >= 0x11_0000 || 0xD800 <= sep < 0xE000 {
          return None;
        }
        var value :- String(WordIn(data, at), sep);
        return Some(Some(value));
      } else if kind == types.int32 || kind == types.int64 || kind == types.boolean {
        return Some(None);
      }
      return None;
    }

    method RequestOptions(extra: u32) returns (r: Option<Option<Options>>)
      requires Valid() && InBudget()
      modifies this
      ensures Valid()
      ensures r.Some? ==> r == OptionsAt(types, data, extra)
      ensures r.Some? <==> OptionsAt(types, data, extra).Some? && InBudget()
      ensures Grew(old(decoded.Keys), decoded.Keys, OptionsAsks(types, data, extra), r.Some?)
    {
      hide Decode, TypeNameAt, WordIn, TypeNameAsks, StringAsks;
      if extra == NULL {
        return Some(None);
      }
      if extra + 8 > |data| {
        return None;
      }
      var kind :- TypeName(WordIn(data, extra));
      if kind != types.requestOptions {
        return None;
      }
      var a := WordIn(data, extra + 4);
      if a + 20 > |data| {
        return None;
      }
      var hash :- Take(data, WordIn(data, a), 16);
      var name :- String(WordIn(data, a + 4), UNDERSCORE);
      return Some(Some(Options(Hex(hash), name, WordIn(data, a + 8), WordIn(data, a + 12))));
    }

    method ReadNames(id: u32) returns (r: Option<Names>)
      requires Valid() && InBudget() && id + 28 <= |data|
      modifies this
      ensures Valid()
      ensures r.Some? ==> r == NamesAt(data, id)
      ensures r.Some? <==> NamesAt(data, id).Some? && InBudget()
      ensures Grew(old(decoded.Keys), decoded.Keys, NamesAsks(data, id), r.Some?)
    {
      hide Decode, WordIn, StringAsks, Honest, Whole;
      var key :- String(WordIn(data, id), SLASH);
      var internal :- String(WordIn(data, id + 4), SLASH);
      var provider :- String(WordIn(data, id + 8), DOT);
      return Some(Names(key, internal, provider));
    }

    method ReadLocation(id: u32) returns (r: Option<Location>)
      requires Valid() && InBudget()
      modifies this
      ensures Valid()
      ensures r.Some? ==> r == LocationAt(types, data, id)
      ensures r.Some? <==> LocationAt(types, data, id).Some? && InBudget()
      ensures Grew(old(decoded.Keys), decoded.Keys, LocationAsks(types, data, id), r.Some?)
    {
      hide Decode, TypeNameAt, OptionsAt, WordArray, WordIn, NamesAt, TypeNameAsks, StringAsks, OptionsAsks, NamesAsks;
      hide Honest, Whole;
      if id + 28 > |data| {
        return None;
      }
      var names :- ReadNames(id);
      var dependencies :- WordArray(data, WordIn(data, id + 12));
      var resourceType :- TypeName(WordIn(data, id + 24));
      var options :- RequestOptions(WordIn(data, id + 20));
      if names.internal == [] || names.provider == [] {
        return None;
      }
      return Some(
        Location(id, names.key, names.internal, names.provider, resourceType, dependencies, options));
    }
  }
}
