/** UTF-8 well-formedness and UTF-16 decoding (RFC 3629 section 4 and RFC 2781 section 2.2). */
module Text {
  import opened Bytes

  /** A Unicode scalar value. */
  type Char = c: nat | c < 0x11_0000 && !(0xD800 <= c < 0xE000)

  predicate Tail(b: byte) { 0x80 <= b < 0xC0 }

  /** The length of the well-formed character at the front of `b`, or 0. */
  function CharLength(b: bytes): (n: nat)
    requires b != []
    ensures n <= |b|
  {
    if b[0] < 0x80 then 1
    else if 0xC2 <= b[0] < 0xE0 && |b| >= 2 && Tail(b[1]) then 2
    else if 0xE0 <= b[0] < 0xF0 && |b| >= 3 && Tail(b[1]) && Tail(b[2])
      && (b[0] == 0xE0 ==> 0xA0 <= b[1]) && (b[0] == 0xED ==> b[1] < 0xA0) then 3
    else if 0xF0 <= b[0] < 0xF5 && |b| >= 4 && Tail(b[1]) && Tail(b[2]) && Tail(b[3])
      && (b[0] == 0xF0 ==> 0x90 <= b[1]) && (b[0] == 0xF4 ==> b[1] < 0x90) then 4
    else 0
  }

  predicate ValidUtf8(b: bytes)
  {
    b == [] || (CharLength(b) > 0 && ValidUtf8(b[CharLength(b)..]))
  }

  predicate Ascii(b: bytes)
  {
    forall i :: 0 <= i < |b| ==> b[i] < 0x80
  }

  /** The bytes of an ASCII literal. */
  function Literal(s: string): (b: bytes)
    ensures |b| == |s|
  {
    seq(|s|, i requires 0 <= i < |s| => if s[i] as int < 0x80 then s[i] as int else 0x3F)
  }

  lemma {:induction false} AsciiIsUtf8(b: bytes)
    requires Ascii(b)
    ensures ValidUtf8(b)
  {
    if b != [] {
      AsciiIsUtf8(b[1..]);
    }
  }

  /** UTF-8 encoding of one code point. */
  function EncodeChar(c: nat): (r: bytes)
    requires c < 0x11_0000
    ensures 0 < |r| <= 4
  {
    if c < 0x80 then [c]
    else if c < 0x800 then [0xC0 + c / 0x40, 0x80 + c % 0x40]
    else if c < 0x1_0000 then [0xE0 + c / 0x1000, 0x80 + c / 0x40 % 0x40, 0x80 + c % 0x40]
    else [0xF0 + c / 0x4_0000, 0x80 + c / 0x1000 % 0x40, 0x80 + c / 0x40 % 0x40, 0x80 + c % 0x40]
  }

  /** Little-endian UTF-16 to UTF-8; None for an unpaired surrogate. */
  function DecodeUtf16(b: bytes): Option<bytes>
    requires |b| % 2 == 0
  {
    if b == [] then Some([])
    else
      var u := b[0] + 0x100 * b[1] as int;
      if u < 0xD800 || 0xE000 <= u then
        match DecodeUtf16(b[2..])
        case None => None
        case Some(rest) => Some(EncodeChar(u) + rest)
      else if u < 0xDC00 && |b| >= 4 && 0xDC00 <= b[2] + 0x100 * b[3] as int < 0xE000 then
        match DecodeUtf16(b[4..])
        case None => None
        case Some(rest) =>
          Some(EncodeChar(0x1_0000 + (u - 0xD800) * 0x400 + (b[2] + 0x100 * b[3] as int - 0xDC00)) + rest)
      else None
  }

  lemma EncodedCharLength(c: nat, rest: bytes)
    requires c < 0x11_0000 && !(0xD800 <= c < 0xE000)
    ensures CharLength(EncodeChar(c) + rest) == |EncodeChar(c)|
    ensures (EncodeChar(c) + rest)[|EncodeChar(c)|..] == rest
  {
  }

  /** Decoding only ever produces well-formed text. */
  lemma {:induction false} DecodedIsUtf8(b: bytes)
    requires |b| % 2 == 0
    ensures DecodeUtf16(b).Some? ==> ValidUtf8(DecodeUtf16(b).value)
  {
    hide EncodeChar, CharLength;
    if b != [] && DecodeUtf16(b).Some? {
      var u := b[0] + 0x100 * b[1] as int;
      if u < 0xD800 || 0xE000 <= u {
        DecodedIsUtf8(b[2..]);
        EncodedCharLength(u, DecodeUtf16(b[2..]).value);
      } else {
        DecodedIsUtf8(b[4..]);
        EncodedCharLength(0x1_0000 + (u - 0xD800) * 0x400 + (b[2] + 0x100 * b[3] as int - 0xDC00),
                          DecodeUtf16(b[4..]).value);
      }
    }
  }

  // ----- characters

  function Utf8(cs: seq<Char>): bytes
  {
    if cs == [] then [] else EncodeChar(cs[0]) + Utf8(cs[1..])
  }

  function Unit(u: u16): (r: bytes)
    ensures |r| == 2
  {
    [u % 0x100, u / 0x100]
  }

  function High(c: nat): (u: u16)
    requires 0x1_0000 <= c < 0x11_0000
    ensures 0xD800 <= u < 0xDC00
  {
    0xD800 + (c - 0x1_0000) / 0x400
  }

  function Low(c: nat): (u: u16)
    requires 0x1_0000 <= c < 0x11_0000
    ensures 0xDC00 <= u < 0xE000
  {
    0xDC00 + (c - 0x1_0000) % 0x400
  }

  /** The character of a surrogate pair. */
  function Paired(high: int, low: int): int
  {
    0x1_0000 + (high - 0xD800) * 0x400 + (low - 0xDC00)
  }

  lemma PairedBack(c: nat)
    requires 0x1_0000 <= c < 0x11_0000
    ensures Paired(High(c), Low(c)) == c
  {
  }

  lemma SurrogatesOf(high: int, low: int)
    requires 0xD800 <= high < 0xDC00 && 0xDC00 <= low < 0xE000
    ensures var c := Paired(high, low); 0x1_0000 <= c < 0x11_0000 && High(c) == high && Low(c) == low
  {
    var x, y := high - 0xD800, low - 0xDC00;
    assert (x * 0x400 + y) / 0x400 == x && (x * 0x400 + y) % 0x400 == y;
  }

  /** Little-endian UTF-16: one unit, or a pair of surrogates. */
  function Utf16(cs: seq<Char>): (r: bytes)
    ensures |r| % 2 == 0
  {
    if cs == [] then []
    else if cs[0] < 0x1_0000 then Unit(cs[0]) + Utf16(cs[1..])
    else Unit(High(cs[0])) + Unit(Low(cs[0])) + Utf16(cs[1..])
  }

  function Bits2(a: int, b: int): int { (a - 0xC0) * 0x40 + (b - 0x80) }

  function Bits3(a: int, b: int, c: int): int { (a - 0xE0) * 0x1000 + (b - 0x80) * 0x40 + (c - 0x80) }

  function Bits4(a: int, b: int, c: int, d: int): int
  {
    (a - 0xF0) * 0x4_0000 + (b - 0x80) * 0x1000 + (c - 0x80) * 0x40 + (d - 0x80)
  }

  /** The bits of a character in its bytes, and the shortest form. */
  lemma EncodedBits(c: Char)
    ensures var r := EncodeChar(c);
      && (|r| == 1 ==> c == r[0] < 0x80)
      && (|r| == 2 ==> c == Bits2(r[0], r[1]) && 0x80 <= c < 0x800 && Tail(r[1]))
      && (|r| == 3 ==> c == Bits3(r[0], r[1], r[2]) && 0x800 <= c < 0x1_0000 && Tail(r[1]) && Tail(r[2]))
      && (|r| == 4 ==> c == Bits4(r[0], r[1], r[2], r[3]) && 0x1_0000 <= c && Tail(r[1]) && Tail(r[2]) && Tail(r[3]))
  {
    SixBits(c);
    SixBits(c / 0x40);
  }

  lemma SixBits(n: nat)
    ensures n == n / 0x40 * 0x40 + n % 0x40 && n / 0x40 / 0x40 == n / 0x1000 && n / 0x1000 / 0x40 == n / 0x4_0000
  {
  }

  lemma UnitValue(u: u16)
    ensures Unit(u)[0] + 0x100 * Unit(u)[1] as int == u
  {
  }

  lemma BytesUnit(lo: byte, hi: byte)
    ensures Unit(lo + 0x100 * hi as int) == [lo, hi]
  {
  }

  lemma UnitFirst(c: u16, rest: bytes)
    requires |rest| % 2 == 0 && (c < 0xD800 || 0xE000 <= c) && DecodeUtf16(rest).Some?
    ensures DecodeUtf16(Unit(c) + rest) == Some(EncodeChar(c) + DecodeUtf16(rest).value)
  {
    hide EncodeChar;
    UnitValue(c);
    assert (Unit(c) + rest)[2..] == rest;
  }

  lemma SurrogatesFirst(u: u16, v: u16, rest: bytes, b: bytes)
    requires 0xD800 <= u < 0xDC00 && 0xDC00 <= v < 0xE000 && b == Unit(u) + Unit(v) + rest
    requires |rest| % 2 == 0 && |b| % 2 == 0 && DecodeUtf16(rest).Some?
    ensures 0x1_0000 <= Paired(u, v) < 0x11_0000
    ensures DecodeUtf16(b) == Some(EncodeChar(Paired(u, v)) + DecodeUtf16(rest).value)
  {
    hide EncodeChar;
    UnitValue(u);
    UnitValue(v);
    hide Unit;
    assert b[4..] == rest;
    assert b[0] == Unit(u)[0] && b[1] == Unit(u)[1];
    assert b[2] == Unit(v)[0] && b[3] == Unit(v)[1];
  }

  /** The UTF-16 form of any characters decodes to their UTF-8 form. */
  lemma {:induction false} Utf16Decodes(cs: seq<Char>)
    ensures DecodeUtf16(Utf16(cs)) == Some(Utf8(cs))
  {
    if cs != [] {
      Utf16Decodes(cs[1..]);
      hide EncodeChar, DecodeUtf16, High, Low, Unit;
      if cs[0] < 0x1_0000 {
        UnitFirst(cs[0], Utf16(cs[1..]));
      } else {
        PairedBack(cs[0]);
        SurrogatesFirst(High(cs[0]), Low(cs[0]), Utf16(cs[1..]), Utf16(cs));
      }
    }
  }

  /** Conversely, whatever decodes is the UTF-16 form of some characters, and gives their UTF-8 form. */
  lemma {:induction false} DecodedUtf16(b: bytes) returns (cs: seq<Char>)
    requires |b| % 2 == 0 && DecodeUtf16(b).Some?
    ensures b == Utf16(cs) && DecodeUtf16(b) == Some(Utf8(cs))
    decreases |b|
  {
    hide EncodeChar;
    cs := [];
    if b != [] {
      var u := b[0] + 0x100 * b[1] as int;
      BytesUnit(b[0], b[1]);
      if u < 0xD800 || 0xE000 <= u {
        var rest := DecodedUtf16(b[2..]);
        cs := [u] + rest;
        assert cs[1..] == rest && b == [b[0], b[1]] + b[2..];
      } else {
        var v := b[2] + 0x100 * b[3] as int;
        BytesUnit(b[2], b[3]);
        var rest := DecodedUtf16(b[4..]);
        SurrogatesOf(u, v);
        cs := [Paired(u, v)] + rest;
        hide High, Low, Unit;
        assert cs[1..] == rest && b == [b[0], b[1]] + [b[2], b[3]] + b[4..];
      }
    }
  }

  lemma {:induction false} Utf8Valid(cs: seq<Char>)
    ensures ValidUtf8(Utf8(cs))
  {
    hide EncodeChar, CharLength;
    if cs != [] {
      Utf8Valid(cs[1..]);
      EncodedCharLength(cs[0], Utf8(cs[1..]));
    }
  }

  lemma Joined(high: nat, low: nat)
    requires low < 0x40
    ensures (high * 0x40 + low) / 0x40 == high && (high * 0x40 + low) % 0x40 == low
  {
  }

  lemma CharDecoded(b: bytes) returns (c: Char)
    requires b != [] && CharLength(b) > 0
    ensures b[..CharLength(b)] == EncodeChar(c)
  {
    var n := CharLength(b);
    c := if n == 1 then b[0]
      else if n == 2 then Bits2(b[0], b[1])
      else if n == 3 then Bits3(b[0], b[1], b[2])
      else Bits4(b[0], b[1], b[2], b[3]);
    if n == 2 {
      Joined(b[0] as int - 0xC0, b[1] as int - 0x80);
    } else if n == 3 {
      var high := (b[0] as int - 0xE0) * 0x40 + (b[1] as int - 0x80);
      Joined(b[0] as int - 0xE0, b[1] as int - 0x80);
      Joined(high, b[2] as int - 0x80);
      SixBits(c);
    } else if n == 4 {
      var top := (b[0] as int - 0xF0) * 0x40 + (b[1] as int - 0x80);
      var high := top * 0x40 + (b[2] as int - 0x80);
      Joined(b[0] as int - 0xF0, b[1] as int - 0x80);
      Joined(top, b[2] as int - 0x80);
      Joined(high, b[3] as int - 0x80);
      SixBits(c);
    }
  }

  /** Well-formed is exactly what encodes some characters. */
  lemma {:induction false} ValidDecodes(b: bytes) returns (cs: seq<Char>)
    requires ValidUtf8(b)
    ensures b == Utf8(cs)
    decreases |b|
  {
    hide EncodeChar, CharLength;
    cs := [];
    if b != [] {
      var n := CharLength(b);
      var c := CharDecoded(b);
      var rest := ValidDecodes(b[n..]);
      cs := [c] + rest;
      assert cs[1..] == rest && b == b[..n] + b[n..];
    }
  }

  lemma Utf8Exact(b: bytes)
    ensures ValidUtf8(b) <==> exists cs :: b == Utf8(cs)
  {
    if ValidUtf8(b) {
      var cs := ValidDecodes(b);
    }
    if cs :| b == Utf8(cs) {
      Utf8Valid(cs);
    }
  }

  lemma {:induction false} AsciiIsItself(b: bytes)
    requires Ascii(b)
    ensures exists cs :: |cs| == |b| && (forall i :: 0 <= i < |b| ==> cs[i] == b[i]) && Utf8(cs) == b
  {
    var cs: seq<Char> := seq(|b|, i requires 0 <= i < |b| => b[i]);
    AsciiEncodes(cs, b);
  }

  lemma {:induction false} AsciiEncodes(cs: seq<Char>, b: bytes)
    requires Ascii(b) && |cs| == |b| && forall i :: 0 <= i < |b| ==> cs[i] == b[i]
    ensures Utf8(cs) == b
  {
    if b != [] {
      AsciiEncodes(cs[1..], b[1..]);
      assert b == [b[0]] + b[1..];
    }
  }
}
