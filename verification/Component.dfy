/**
 Portable path components: percent-encoding (section 2.1 of RFC 3986) with guards for empty, dotted and reserved
 names and for length, its decoder, and exactly when two values share a component.
 */
module Component {
  import opened Bytes

  const DOT: byte := 0x2E
  const SPACE: byte := 0x20
  const PERCENT: byte := 0x25
  const UNDERSCORE: byte := 0x5F
  const TILDE: byte := 0x7E
  const SLASH: byte := 0x2F

  const MAX_LENGTH := 160
  const KEPT := 140
  const DIGEST_LENGTH := 16

  // ----- characters

  predicate Digit(b: byte) { 0x30 <= b <= 0x39 }

  predicate Alphanumeric(b: byte) { Digit(b) || 0x41 <= b <= 0x5A || 0x61 <= b <= 0x7A }

  /** Letters, digits and `-_. ()[]` stand for themselves. */
  predicate Literal(b: byte)
  {
    || Alphanumeric(b) || b == 0x2D || b == UNDERSCORE || b == DOT || b == SPACE || b == 0x28 || b == 0x29 || b == 0x5B
    || b == 0x5D
  }

  predicate Portable(b: byte) { Literal(b) || b == PERCENT || b == TILDE }

  function UpperHex(n: nat): byte
    requires n < 16
  {
    if n < 10 then 0x30 + n else 0x37 + n
  }

  function HexValue(b: byte): Option<nat>
  {
    if Digit(b) then Some(b - 0x30) else if 0x41 <= b <= 0x46 then Some(b - 0x37) else None
  }

  function EncodeByte(b: byte): (r: bytes)
    ensures |r| > 0
  {
    if Literal(b) then [b] else [PERCENT, UpperHex(b / 16), UpperHex(b % 16)]
  }

  function Encode(v: bytes): bytes
  {
    if v == [] then [] else EncodeByte(v[0]) + Encode(v[1..])
  }

  /** Percent-decoding; None for a broken escape. */
  function Decode(s: bytes): Option<bytes>
  {
    if s == [] then Some([])
    else if s[0] != PERCENT then
      var rest :- Decode(s[1..]);
      Some([s[0]] + rest)
    else if |s| < 3 || HexValue(s[1]).None? || HexValue(s[2]).None? then None
    else
      var rest :- Decode(s[3..]);
      Some([16 * HexValue(s[1]).value + HexValue(s[2]).value] + rest)
  }

  // ----- the guards

  const ESCAPED_DOT: bytes := [PERCENT, 0x32, 0x45]
  const ESCAPED_SPACE: bytes := [PERCENT, 0x32, 0x30]

  function EscapeDots(s: bytes): bytes
  {
    if s == [] then [] else (if s[0] == DOT then ESCAPED_DOT else [s[0]]) + EscapeDots(s[1..])
  }

  predicate Dots(s: bytes)
  {
    s == [] || s == [DOT] || s == [DOT, DOT]
  }

  predicate EndsLoose(s: bytes)
  {
    s != [] && (s[|s| - 1] == DOT || s[|s| - 1] == SPACE)
  }

  /** A final dot or space is escaped. */
  function Tidy(s: bytes): bytes
  {
    if EndsLoose(s) then s[..|s| - 1] + if s[|s| - 1] == DOT then ESCAPED_DOT else ESCAPED_SPACE else s
  }

  function Body(v: bytes): bytes
  {
    if Dots(Encode(v)) then EscapeDots(Encode(v)) else Tidy(Encode(v))
  }

  function Stem(s: bytes): bytes
  {
    if s == [] || s[0] == DOT then [] else [s[0]] + Stem(s[1..])
  }

  function Upper(s: bytes): (r: bytes)
    ensures |r| == |s|
  {
    if s == [] then [] else [if 0x61 <= s[0] <= 0x7A then s[0] - 0x20 else s[0]] + Upper(s[1..])
  }

  /** The device names CON, PRN, AUX, NUL, COM1 to COM9 and LPT1 to LPT9. */
  predicate ReservedName(s: bytes)
  {
    || s == [0x43, 0x4F, 0x4E] || s == [0x50, 0x52, 0x4E] || s == [0x41, 0x55, 0x58] || s == [0x4E, 0x55, 0x4C]
    || (|s| == 4 && (s[..3] == [0x43, 0x4F, 0x4D] || s[..3] == [0x4C, 0x50, 0x54]) && Digit(s[3]) && s[3] != 0x30)
  }

  predicate Reserved(s: bytes)
  {
    ReservedName(Upper(Stem(s)))
  }

  predicate NeedsPrefix(v: bytes)
  {
    Dots(Encode(v)) || Reserved(Body(v))
  }

  /** The component before the length limit. */
  function Full(v: bytes): bytes
  {
    if NeedsPrefix(v) then [UNDERSCORE] + Body(v) else Body(v)
  }

  predicate Long(v: bytes)
  {
    |Full(v)| > MAX_LENGTH
  }

  /** A digest printed in at least 16 letters and digits. */
  ghost predicate Printed(digest: bytes -> bytes)
  {
    forall v :: |digest(v)| >= DIGEST_LENGTH && forall i :: 0 <= i < |digest(v)| ==> Alphanumeric(digest(v)[i])
  }

  function Short(digest: bytes -> bytes, v: bytes): bytes
  {
    if |digest(v)| >= DIGEST_LENGTH then digest(v)[..DIGEST_LENGTH] else digest(v)
  }

  function Named(digest: bytes -> bytes, v: bytes): bytes
  {
    if Long(v) then Full(v)[..KEPT] + [TILDE] + Short(digest, v) else Full(v)
  }

  // ----- the loops of the source

  lemma {:induction false} EncodeConcat(a: bytes, b: bytes)
    ensures Encode(a + b) == Encode(a) + Encode(b)
  {
    if a == [] {
      assert a + b == b;
    } else {
      assert (a + b)[1..] == a[1..] + b;
      EncodeConcat(a[1..], b);
    }
  }

  lemma EncodeSnoc(v: bytes, i: nat)
    requires i < |v|
    ensures Encode(v[..i + 1]) == Encode(v[..i]) + EncodeByte(v[i])
  {
    assert v[..i + 1] == v[..i] + [v[i]];
    EncodeConcat(v[..i], [v[i]]);
    assert [v[i]][1..] == [];
  }

  lemma DotsEscaped(s: bytes)
    requires Dots(s)
    ensures EscapeDots(s) == if s == [] then [] else if |s| == 1 then ESCAPED_DOT else ESCAPED_DOT + ESCAPED_DOT
    ensures !EndsLoose([UNDERSCORE] + EscapeDots(s))
  {
    EscapeOne([]);
    EscapeOne([DOT]);
    hide EscapeDots;
    assert EscapeDots([]) == [] by {
      EscapeNone();
    }
    assert ESCAPED_DOT + [] == ESCAPED_DOT;
    assert [DOT] + [] == [DOT] && [DOT] + [DOT] == [DOT, DOT];
  }

  lemma EscapeNone()
    ensures EscapeDots([]) == []
  {
  }

  lemma EscapeOne(s: bytes)
    ensures EscapeDots([DOT] + s) == ESCAPED_DOT + EscapeDots(s)
  {
    assert ([DOT] + s)[1..] == s;
  }

  method Build(digest: bytes -> bytes, value: bytes) returns (out: bytes)
    requires Printed(digest)
    ensures out == Named(digest, value)
  {
    out := [];
    for i := 0 to |value|
      invariant out == Encode(value[..i])
    {
      EncodeSnoc(value, i);
      if Literal(value[i]) {
        out := out + [value[i]];
      } else {
        out := out + [PERCENT, UpperHex(value[i] / 16), UpperHex(value[i] % 16)];
      }
    }
    assert value[..|value|] == value;
    if Dots(out) {
      DotsEscaped(out);
      out := [UNDERSCORE] + EscapeDots(out);
    }
    ghost var start := out;
    while EndsLoose(out)
      invariant out == start || (EndsLoose(start) && out == Tidy(start))
      decreases if EndsLoose(out) then 1 else 0
    {
      var b := out[|out| - 1];
      out := out[..|out| - 1] + if b == DOT then ESCAPED_DOT else ESCAPED_SPACE;
    }
    if Reserved(out) {
      out := [UNDERSCORE] + out;
    }
    PrefixOnce(value);
    if |out| > MAX_LENGTH {
      out := out[..KEPT] + [TILDE] + digest(value)[..DIGEST_LENGTH];
    }
  }

  lemma UnderscoreIsFree(s: bytes)
    requires s != [] && s[0] == UNDERSCORE
    ensures !Reserved(s)
  {
    assert Upper(Stem(s))[0] == UNDERSCORE;
  }

  /** The two guards never both add their underscore. */
  lemma PrefixOnce(v: bytes)
    ensures Dots(Encode(v)) ==> !Reserved([UNDERSCORE] + EscapeDots(Encode(v)))
  {
    UnderscoreIsFree([UNDERSCORE] + EscapeDots(Encode(v)));
  }

  // ----- what every component satisfies

  lemma {:induction false} EncodeIsPortable(v: bytes, i: nat)
    requires i < |Encode(v)|
    ensures Literal(Encode(v)[i]) || Encode(v)[i] == PERCENT
  {
    var head := EncodeByte(v[0]);
    if i >= |head| {
      EncodeIsPortable(v[1..], i - |head|);
      assert Encode(v)[i] == Encode(v[1..])[i - |head|];
    }
  }

  lemma BodyIsPortable(v: bytes)
    ensures forall i :: 0 <= i < |Body(v)| ==> Literal(Body(v)[i]) || Body(v)[i] == PERCENT
  {
    forall i | 0 <= i < |Encode(v)| ensures Literal(Encode(v)[i]) || Encode(v)[i] == PERCENT {
      EncodeIsPortable(v, i);
    }
    if Dots(Encode(v)) {
      DotsEscaped(Encode(v));
    }
    hide Encode;
  }

  lemma {:induction false} LastOfEncode(v: bytes)
    requires v != []
    ensures Encode(v) == Encode(v[..|v| - 1]) + EncodeByte(v[|v| - 1])
  {
    EncodeSnoc(v, |v| - 1);
    assert v[..|v|] == v;
  }

  lemma FullShape(v: bytes)
    ensures Full(v) != [] && !EndsLoose(Full(v)) && !Reserved(Full(v))
    ensures forall i :: 0 <= i < |Full(v)| ==> Literal(Full(v)[i]) || Full(v)[i] == PERCENT
  {
    BodyIsPortable(v);
    if Dots(Encode(v)) {
      DotsEscaped(Encode(v));
    }
    hide Encode, EscapeDots;
    if NeedsPrefix(v) {
      UnderscoreIsFree([UNDERSCORE] + Body(v));
    }
  }

  lemma {:induction false} StemOfCut(s: bytes, n: nat, tail: bytes)
    requires n <= |s| && DOT !in tail
    ensures Stem(s[..n] + tail) == Stem(s) || (n + |tail| == |Stem(s[..n] + tail)|)
    decreases n
  {
    var t := s[..n] + tail;
    if n == 0 {
      assert t == tail;
      StemWhole(tail);
    } else if s[0] != DOT {
      assert t[1..] == s[1..][..n - 1] + tail;
      StemOfCut(s[1..], n - 1, tail);
    }
  }

  lemma {:induction false} StemWhole(s: bytes)
    requires DOT !in s
    ensures Stem(s) == s
  {
    if s != [] {
      StemWhole(s[1..]);
      assert s == [s[0]] + s[1..];
    }
  }

  lemma ShortIsPlain(digest: bytes -> bytes, v: bytes)
    requires Printed(digest)
    ensures forall i :: 0 <= i < DIGEST_LENGTH ==> Alphanumeric(Short(digest, v)[i])
    ensures DOT !in [TILDE] + Short(digest, v)
  {
    var s := Short(digest, v);
    forall i | 0 <= i < DIGEST_LENGTH ensures Alphanumeric(s[i]) {
      assert s[i] == digest(v)[i];
    }
  }

  /** Every component: not empty, at most 160 portable ASCII bytes, no final dot or space, no reserved stem. */
  lemma NamedShape(digest: bytes -> bytes, v: bytes)
    requires Printed(digest)
    ensures var s := Named(digest, v);
      && 0 < |s| <= MAX_LENGTH && !EndsLoose(s) && !Reserved(s)
      && forall i :: 0 <= i < |s| ==> Portable(s[i]) && s[i] < 0x80 && s[i] != SLASH
  {
    FullShape(v);
    if Long(v) {
      ShortIsPlain(digest, v);
      assert Named(digest, v) == Full(v)[..KEPT] + [TILDE] + Short(digest, v);
      hide Full, Short, Named, Reserved, Printed;
      CutShape(Full(v), Short(digest, v));
    }
  }

  lemma CutShape(full: bytes, short: bytes)
    requires |full| > MAX_LENGTH && !Reserved(full) && |short| == DIGEST_LENGTH
    requires forall i :: 0 <= i < |full| ==> Literal(full[i]) || full[i] == PERCENT
    requires DOT !in [TILDE] + short && forall i :: 0 <= i < DIGEST_LENGTH ==> Alphanumeric(short[i])
    ensures var s := full[..KEPT] + [TILDE] + short;
      && 0 < |s| <= MAX_LENGTH && !EndsLoose(s) && !Reserved(s)
      && forall i :: 0 <= i < |s| ==> Portable(s[i]) && s[i] < 0x80 && s[i] != SLASH
  {
    var s, tail := full[..KEPT] + [TILDE] + short, [TILDE] + short;
    assert s == full[..KEPT] + tail;
    StemOfCut(full, KEPT, tail);
    assert s[|s| - 1] == short[DIGEST_LENGTH - 1];
    hide Stem;
    assert !Reserved(s);
    hide Reserved;
    forall i | 0 <= i < |s| ensures Portable(s[i]) && s[i] < 0x80 && s[i] != SLASH {
      if i < KEPT {
        assert s[i] == full[i];
      } else if i > KEPT {
        assert s[i] == short[i - KEPT - 1];
      }
    }
  }

  // ----- decoding

  lemma HexRoundTrip(b: byte)
    ensures HexValue(UpperHex(b / 16)) == Some(b / 16) && HexValue(UpperHex(b % 16)) == Some(b % 16)
    ensures 16 * (b / 16) + b % 16 == b
  {
  }

  lemma DecodeByte(b: byte, rest: bytes)
    requires Decode(rest).Some?
    ensures Decode(EncodeByte(b) + rest) == Some([b] + Decode(rest).value)
  {
    var s := EncodeByte(b) + rest;
    if Literal(b) {
      assert s[1..] == rest;
    } else {
      HexRoundTrip(b);
      assert s[3..] == rest;
    }
  }

  lemma Associate(a: bytes, b: bytes, c: bytes)
    ensures (a + b) + c == a + (b + c)
  {
  }

  lemma {:induction false} DecodeEncode(v: bytes, rest: bytes)
    requires Decode(rest).Some?
    ensures Decode(Encode(v) + rest) == Some(v + Decode(rest).value)
  {
    if v == [] {
      assert Encode(v) + rest == rest && v + Decode(rest).value == Decode(rest).value;
    } else {
      assert Encode(v) == EncodeByte(v[0]) + Encode(v[1..]);
      hide Encode, Decode, EncodeByte;
      DecodeEncode(v[1..], rest);
      DecodeByte(v[0], Encode(v[1..]) + rest);
      Associate(EncodeByte(v[0]), Encode(v[1..]), rest);
      Associate([v[0]], v[1..], Decode(rest).value);
      assert v == [v[0]] + v[1..];
    }
  }

  lemma DecodeEscape(e: bytes, rest: bytes)
    requires |e| == 3 && e[0] == PERCENT && HexValue(e[1]).Some? && HexValue(e[2]).Some? && Decode(rest).Some?
    ensures Decode(e + rest) == Some([16 * HexValue(e[1]).value + HexValue(e[2]).value] + Decode(rest).value)
  {
    assert (e + rest)[3..] == rest;
  }

  lemma EscapesDecode()
    ensures Decode(ESCAPED_DOT) == Some([DOT]) && Decode(ESCAPED_SPACE) == Some([SPACE])
    ensures Decode(ESCAPED_DOT + ESCAPED_DOT) == Some([DOT, DOT])
  {
    assert Decode([]) == Some([]);
    assert ESCAPED_DOT + [] == ESCAPED_DOT && ESCAPED_SPACE + [] == ESCAPED_SPACE;
    DecodeEscape(ESCAPED_DOT, []);
    DecodeEscape(ESCAPED_SPACE, []);
    DecodeEscape(ESCAPED_DOT, ESCAPED_DOT);
    assert [DOT] + [] == [DOT] && [SPACE] + [] == [SPACE] && [DOT] + [DOT] == [DOT, DOT];
  }

  lemma LooseLast(v: bytes)
    requires EndsLoose(Encode(v))
    ensures v != [] && Encode(v)[..|Encode(v)| - 1] == Encode(v[..|v| - 1])
    ensures v[|v| - 1] == Encode(v)[|Encode(v)| - 1]
  {
    LastOfEncode(v);
  }

  lemma DotsAreThemselves(v: bytes)
    requires Dots(Encode(v))
    ensures v == Encode(v)
  {
    if v != [] {
      LastOfEncode(v);
      var front := v[..|v| - 1];
      if front != [] {
        LastOfEncode(front);
        assert Encode(front[..|front| - 1]) == [];
        assert front[..|front| - 1] == [];
        assert v == [front[0], v[|v| - 1]];
      } else {
        assert v == [v[|v| - 1]];
      }
    }
  }

  lemma BodyDecodes(v: bytes)
    ensures Decode(Body(v)) == Some(v)
  {
    var s := Encode(v);
    if Dots(s) {
      EscapesDecode();
      DotsEscaped(s);
      DotsAreThemselves(v);
      hide Encode, Decode, EscapeDots;
    } else if EndsLoose(s) {
      LooseDecodes(v);
    } else {
      DecodeEncode(v, []);
      assert s + [] == s && v + [] == v;
    }
  }

  lemma LooseDecodes(v: bytes)
    requires EndsLoose(Encode(v))
    ensures Decode(Tidy(Encode(v))) == Some(v)
  {
    EscapesDecode();
    LooseLast(v);
    hide Encode, Decode;
    var front, last := v[..|v| - 1], v[|v| - 1];
    var escape := if last == DOT then ESCAPED_DOT else ESCAPED_SPACE;
    assert Tidy(Encode(v)) == Encode(front) + escape && Decode(escape) == Some([last]);
    hide *;
    DecodeEncode(front, escape);
    assert v == front + [last];
  }

  /** What is not cut decodes to the value, or to the value behind one underscore. */
  lemma NamedDecodes(digest: bytes -> bytes, v: bytes)
    requires Printed(digest) && !Long(v)
    ensures Decode(Named(digest, v)) == Some(if NeedsPrefix(v) then [UNDERSCORE] + v else v)
  {
    BodyDecodes(v);
    hide NeedsPrefix, Body;
    assert ([UNDERSCORE] + Body(v))[1..] == Body(v);
  }

  // ----- collisions

  /** `a` is `b` behind the underscore that the guard would add to `b`. */
  predicate Shadows(a: bytes, b: bytes)
  {
    a == [UNDERSCORE] + b && NeedsPrefix(b) && b != [DOT, DOT]
  }

  lemma EncodeUnderscore(b: bytes)
    ensures Encode([UNDERSCORE] + b) == [UNDERSCORE] + Encode(b)
  {
    assert ([UNDERSCORE] + b)[1..] == b;
  }

  lemma DottedComponents()
    ensures Full([DOT, DOT]) == [UNDERSCORE] + ESCAPED_DOT + ESCAPED_DOT
    ensures Full([UNDERSCORE, DOT, DOT]) == [UNDERSCORE, DOT] + ESCAPED_DOT
  {
    EncodeLiterals();
    DotsEscaped([DOT, DOT]);
    UnderscoreIsFree([UNDERSCORE, DOT] + ESCAPED_DOT);
    var s := [UNDERSCORE, DOT, DOT];
    assert s[..2] == [UNDERSCORE, DOT];
    assert Tidy(s) == [UNDERSCORE, DOT] + ESCAPED_DOT;
    hide Encode, EscapeDots, Reserved;
  }

  lemma EncodeLiterals()
    ensures Encode([]) == [] && Encode([DOT]) == [DOT] && Encode([DOT, DOT]) == [DOT, DOT]
    ensures Encode([UNDERSCORE, DOT, DOT]) == [UNDERSCORE, DOT, DOT]
  {
    assert [DOT][1..] == [] && [DOT, DOT][1..] == [DOT] && [UNDERSCORE, DOT, DOT][1..] == [DOT, DOT];
  }

  lemma ShadowCollides(a: bytes, b: bytes)
    requires Shadows(a, b)
    ensures Full(a) == Full(b)
  {
    EncodeUnderscore(b);
    var s := Encode(b);
    if Dots(s) {
      DotsAreThemselves(b);
      DotsEscaped(s);
    }
    hide Encode, EscapeDots;
    assert Body(a) == [UNDERSCORE] + Body(b);
    UnderscoreIsFree(Body(a));
  }

  lemma FullCollision(a: bytes, b: bytes)
    ensures Full(a) == Full(b) <==> a == b || Shadows(a, b) || Shadows(b, a)
  {
    BodyDecodes(a);
    BodyDecodes(b);
    DottedComponents();
    if Shadows(a, b) {
      ShadowCollides(a, b);
    }
    if Shadows(b, a) {
      ShadowCollides(b, a);
    }
    hide Encode, Body, EscapeDots, Reserved;
    assert ([UNDERSCORE] + Body(a))[1..] == Body(a);
    assert ([UNDERSCORE] + Body(b))[1..] == Body(b);
  }

  /**
   Two values share a component exactly when they are equal, when one is the other behind the underscore of the guard
   (for neither cut), or when both are cut and agree in the kept part and in the digest.
   */
  lemma NamedCollision(digest: bytes -> bytes, a: bytes, b: bytes)
    requires Printed(digest)
    ensures Named(digest, a) == Named(digest, b) <==>
      || (!Long(a) && !Long(b) && (a == b || Shadows(a, b) || Shadows(b, a)))
      || (Long(a) && Long(b) && Full(a)[..KEPT] == Full(b)[..KEPT] && Short(digest, a) == Short(digest, b))
  {
    FullCollision(a, b);
    FullShape(a);
    FullShape(b);
    hide Full, Shadows, Reserved;
    var s, t := Named(digest, a), Named(digest, b);
    if Long(a) && Long(b) {
      CutEquals(Full(a)[..KEPT], Short(digest, a), Full(b)[..KEPT], Short(digest, b));
    } else if Long(a) != Long(b) {
      var cut, whole := if Long(a) then s else t, if Long(a) then t else s;
      assert cut[KEPT] == TILDE && (|whole| > KEPT ==> whole[KEPT] != TILDE);
    }
  }

  lemma CutEquals(x: bytes, p: bytes, y: bytes, q: bytes)
    requires |x| == |y|
    ensures x + [TILDE] + p == y + [TILDE] + q <==> x == y && p == q
  {
    var s, t := x + [TILDE] + p, y + [TILDE] + q;
    assert s[..|x|] == x && t[..|y|] == y && s[|x| + 1..] == p && t[|y| + 1..] == q;
  }
}
