/**
 How every component is written, byte by byte: which bytes stand for themselves, which are escaped, and which values
 get an underscore in front.
 */
module ComponentSpelling {
  import opened Bytes
  import opened Component

  predicate Safe(b: byte)
  {
    var c := b as char;
    'A' <= c <= 'Z' || 'a' <= c <= 'z' || '0' <= c <= '9' || c in {'-', '_', '.', ' ', '(', ')', '[', ']'}
  }

  /** Nothing, `.` and `..`. */
  predicate Dotted(v: bytes)
  {
    |v| <= 2 && forall i :: 0 <= i < |v| ==> v[i] as char == '.'
  }

  predicate Kept(v: bytes, i: nat)
    requires i < |v|
  {
    Safe(v[i]) && !Dotted(v) && (i == |v| - 1 ==> v[i] as char != '.' && v[i] as char != ' ')
  }

  function HexLetter(n: nat): byte
    requires n < 16
  {
    "0123456789ABCDEF"[n] as int
  }

  function Piece(v: bytes, i: nat): bytes
    requires i < |v|
  {
    if Kept(v, i) then [v[i]] else ['%' as int, HexLetter(v[i] / 16), HexLetter(v[i] % 16)]
  }

  /** The first `n` bytes of a value, one piece for each. */
  function Spelled(v: bytes, n: nat): bytes
    requires n <= |v|
  {
    if n == 0 then [] else Spelled(v, n - 1) + Piece(v, n - 1)
  }

  predicate Letters(s: bytes, name: string)
  {
    |s| == |name| && forall i :: 0 <= i < |s| && i < |name| ==>
      'A' <= name[i] <= 'Z' && (s[i] == name[i] as int || s[i] == name[i] as int + 32)
  }

  predicate Device(s: bytes)
  {
    || Letters(s, "CON") || Letters(s, "PRN") || Letters(s, "AUX") || Letters(s, "NUL")
    || (|s| == 4 && (Letters(s[..3], "COM") || Letters(s[..3], "LPT")) && '1' <= s[3] as char <= '9')
  }

  /** A device name alone, or followed by a dot that is not the last byte. */
  predicate NamesDevice(v: bytes, n: nat)
    requires n <= |v|
  {
    Device(v[..n]) && (|v| == n || (|v| > n + 1 && v[n] as char == '.'))
  }

  predicate Guarded(v: bytes)
  {
    Dotted(v) || exists n :: 0 <= n <= |v| && NamesDevice(v, n)
  }

  // ----- the bytes

  lemma SafeIsLiteral(b: byte)
    ensures Safe(b) <==> Literal(b)
  {
    assert b as char as int == b;
  }

  lemma LetterIsHex(n: nat)
    requires n < 16
    ensures HexLetter(n) == UpperHex(n)
  {
  }

  lemma PieceEncodes(v: bytes, i: nat)
    requires i < |v| && !Dotted(v) && (i == |v| - 1 ==> v[i] != DOT && v[i] != SPACE)
    ensures Piece(v, i) == EncodeByte(v[i])
  {
    SafeIsLiteral(v[i]);
    LetterIsHex(v[i] / 16);
    LetterIsHex(v[i] % 16);
  }

  lemma {:induction false} SpelledEncodes(v: bytes, n: nat)
    requires n <= |v| && !Dotted(v) && (n == |v| ==> v[n - 1] != DOT && v[n - 1] != SPACE)
    ensures Spelled(v, n) == Encode(v[..n])
  {
    if n > 0 {
      SpelledEncodes(v, n - 1);
      PieceEncodes(v, n - 1);
      EncodeSnoc(v, n - 1);
    }
  }

  lemma DottedIsDots(v: bytes)
    ensures Dotted(v) <==> Dots(Encode(v))
    ensures Dotted(v) ==> Encode(v) == v
  {
    EncodeLiterals();
    if Dots(Encode(v)) {
      DotsAreThemselves(v);
    }
    if Dotted(v) {
      assert v == [] || v == [DOT] || v == [DOT, DOT];
    }
  }

  lemma LastOfByte(b: byte)
    ensures var last := EncodeByte(b)[|EncodeByte(b)| - 1]; last == DOT || last == SPACE <==> b == DOT || b == SPACE
  {
  }

  lemma LooseBytes(v: bytes)
    requires v != []
    ensures EndsLoose(Encode(v)) <==> v[|v| - 1] == DOT || v[|v| - 1] == SPACE
  {
    LastOfEncode(v);
    LastOfByte(v[|v| - 1]);
    hide Encode, EncodeByte;
    LastOfBoth(Encode(v[..|v| - 1]), EncodeByte(v[|v| - 1]));
  }

  lemma LastOfBoth(s: bytes, t: bytes)
    requires t != []
    ensures (s + t)[|s + t| - 1] == t[|t| - 1]
  {
  }

  lemma EscapedPieces()
    ensures ESCAPED_DOT == ['%' as int, HexLetter(DOT / 16), HexLetter(DOT % 16)]
    ensures ESCAPED_SPACE == ['%' as int, HexLetter(SPACE / 16), HexLetter(SPACE % 16)]
  {
  }

  lemma DottedSpelled(v: bytes)
    requires Dotted(v)
    ensures Spelled(v, |v|) == if v == [] then [] else if |v| == 1 then ESCAPED_DOT else ESCAPED_DOT + ESCAPED_DOT
  {
    EscapedPieces();
    assert [] + ESCAPED_DOT == ESCAPED_DOT;
    if v != [] {
      assert Piece(v, 0) == ESCAPED_DOT && Spelled(v, 0) == [] && Spelled(v, 1) == ESCAPED_DOT;
    }
    if |v| == 2 {
      assert Piece(v, 1) == ESCAPED_DOT;
    }
  }

  lemma LastPiece(v: bytes)
    requires v != [] && (v[|v| - 1] == DOT || v[|v| - 1] == SPACE)
    ensures Piece(v, |v| - 1) == if v[|v| - 1] == DOT then ESCAPED_DOT else ESCAPED_SPACE
  {
    EscapedPieces();
    hide HexLetter, Safe, Dotted;
  }

  lemma LooseSpelled(v: bytes)
    requires v != [] && !Dotted(v) && (v[|v| - 1] == DOT || v[|v| - 1] == SPACE)
    ensures Spelled(v, |v|) ==
      Encode(v[..|v| - 1]) + if v[|v| - 1] == DOT then ESCAPED_DOT else ESCAPED_SPACE
  {
    hide *;
    SpelledEncodes(v, |v| - 1);
    SpelledStep(v, |v|);
    LastPiece(v);
  }

  lemma TightSpelled(v: bytes)
    requires v != [] && !Dotted(v) && v[|v| - 1] != DOT && v[|v| - 1] != SPACE
    ensures Spelled(v, |v|) == Encode(v)
  {
    hide *;
    SpelledEncodes(v, |v|);
    assert v[..|v|] == v;
  }

  lemma TidyLoose(s: bytes)
    requires EndsLoose(s)
    ensures s != [] && Tidy(s) == s[..|s| - 1] + if s[|s| - 1] == DOT then ESCAPED_DOT else ESCAPED_SPACE
  {
  }

  lemma TidyTight(s: bytes)
    requires !EndsLoose(s)
    ensures Tidy(s) == s
  {
  }

  lemma UndottedSpelled(v: bytes)
    requires v != [] && !Dotted(v)
    ensures Spelled(v, |v|) == Tidy(Encode(v))
  {
    hide *;
    LooseBytes(v);
    if EndsLoose(Encode(v)) {
      LooseLast(v);
      LooseSpelled(v);
      TidyLoose(Encode(v));
    } else {
      TightSpelled(v);
      TidyTight(Encode(v));
    }
  }

  lemma SpelledBody(v: bytes)
    ensures Spelled(v, |v|) == Body(v)
  {
    DottedIsDots(v);
    assert v != [] || Dotted(v);
    hide Encode, Spelled, EscapeDots, Tidy, Dotted, Dots;
    if Dotted(v) {
      DotsEscaped(v);
      DottedSpelled(v);
    } else {
      UndottedSpelled(v);
    }
  }

  // ----- device names

  lemma {:induction false} StemIs(s: bytes, n: nat)
    requires n <= |s| && DOT !in s[..n] && (n < |s| ==> s[n] == DOT)
    ensures Stem(s) == s[..n]
    decreases n
  {
    if n > 0 {
      assert s[..n][0] == s[0] && s[1..][..n - 1] == s[..n][1..];
      StemIs(s[1..], n - 1);
      assert s[..n] == [s[0]] + s[..n][1..];
    }
  }

  lemma {:induction false} StemEnds(s: bytes)
    ensures |Stem(s)| <= |s| && DOT !in Stem(s) && Stem(s) == s[..|Stem(s)|]
    ensures |Stem(s)| < |s| ==> s[|Stem(s)|] == DOT
  {
    if s != [] && s[0] != DOT {
      StemEnds(s[1..]);
      var n := |Stem(s[1..])|;
      assert s[..n + 1] == [s[0]] + s[1..][..n];
    }
  }

  lemma {:induction false} UpperAt(s: bytes, i: nat)
    requires i < |s|
    ensures Upper(s)[i] == if 0x61 <= s[i] <= 0x7A then s[i] - 0x20 else s[i]
  {
    if i > 0 {
      UpperAt(s[1..], i - 1);
    }
  }

  lemma UpperLetters(s: bytes, name: string, t: bytes)
    requires |t| == |name| && forall i :: 0 <= i < |t| ==> 'A' <= name[i] <= 'Z' && t[i] == name[i] as int
    ensures Upper(s) == t <==> Letters(s, name)
  {
    forall i | 0 <= i < |s|
      ensures Upper(s)[i] == if 0x61 <= s[i] <= 0x7A then s[i] - 0x20 else s[i]
    {
      UpperAt(s, i);
    }
    if Upper(s) == t {
      forall i | 0 <= i < |s| ensures s[i] == name[i] as int || s[i] == name[i] as int + 32 {
        assert Upper(s)[i] == t[i];
      }
    }
  }

  lemma {:induction false} UpperPrefix(s: bytes, n: nat)
    requires n <= |s|
    ensures Upper(s)[..n] == Upper(s[..n])
  {
    forall i | 0 <= i < n ensures Upper(s)[..n][i] == Upper(s[..n])[i] {
      UpperAt(s, i);
      UpperAt(s[..n], i);
    }
  }

  lemma NumberedDevice(s: bytes)
    requires |s| == 4
    ensures Upper(s)[..3] == [0x43, 0x4F, 0x4D] <==> Letters(s[..3], "COM")
    ensures Upper(s)[..3] == [0x4C, 0x50, 0x54] <==> Letters(s[..3], "LPT")
    ensures Digit(Upper(s)[3]) && Upper(s)[3] != 0x30 <==> '1' <= s[3] as char <= '9'
  {
    UpperPrefix(s, 3);
    UpperAt(s, 3);
    UpperLetters(s[..3], "COM", [0x43, 0x4F, 0x4D]);
    UpperLetters(s[..3], "LPT", [0x4C, 0x50, 0x54]);
    hide Letters, Upper;
  }

  lemma DeviceIsReserved(s: bytes)
    ensures ReservedName(Upper(s)) <==> Device(s)
  {
    hide Letters, Upper;
    UpperLetters(s, "CON", [0x43, 0x4F, 0x4E]);
    UpperLetters(s, "PRN", [0x50, 0x52, 0x4E]);
    UpperLetters(s, "AUX", [0x41, 0x55, 0x58]);
    UpperLetters(s, "NUL", [0x4E, 0x55, 0x4C]);
    if |s| == 4 {
      NumberedDevice(s);
    }
  }

  lemma DeviceLetters(s: bytes)
    requires Device(s)
    ensures 0 < |s| && forall i :: 0 <= i < |s| ==> Alphanumeric(s[i])
  {
    if |s| == 4 {
      forall i | 0 <= i < 4 ensures Alphanumeric(s[i]) {
        if i < 3 {
          assert s[..3][i] == s[i];
        }
      }
    }
  }

  /** Bytes that are no escape decode to themselves. */
  lemma {:induction false} DecodePlain(s: bytes, n: nat)
    requires n <= |s| && PERCENT !in s[..n] && Decode(s).Some?
    ensures Decode(s[n..]).Some? && Decode(s).value == s[..n] + Decode(s[n..]).value
  {
    if n == 0 {
      assert s[0..] == s;
    } else {
      assert s[..n][0] == s[0] && s[1..][..n - 1] == s[..n][1..] && s[1..][n - 1..] == s[n..];
      DecodePlain(s[1..], n - 1);
      assert s[..n] == [s[0]] + s[1..][..n - 1];
    }
  }

  lemma DecodeNonEmpty(s: bytes)
    requires s != [] && Decode(s).Some?
    ensures Decode(s).value != []
  {
  }

  lemma ReservedNamesDevice(v: bytes)
    requires Reserved(Body(v)) && !Dotted(v)
    ensures exists n :: 0 <= n <= |v| && NamesDevice(v, n)
  {
    var s := Body(v);
    StemEnds(s);
    var n := |Stem(s)|;
    DeviceIsReserved(Stem(s));
    DeviceLetters(Stem(s));
    BodyDecodes(v);
    assert PERCENT !in s[..n];
    DecodePlain(s, n);
    BodyTight(v);
    hide Body, Stem, Decode, Reserved, Device;
    assert v[..n] == s[..n];
    if n < |s| {
      DottedRest(s, n, v);
    } else {
      assert s[n..] == [];
      EmptyDecodes();
      assert |v| == n;
    }
    assert NamesDevice(v, n);
  }

  lemma EmptyDecodes()
    ensures Decode([]) == Some([])
  {
  }

  lemma DottedRest(s: bytes, n: nat, v: bytes)
    requires n < |s| && s[n] == DOT && PERCENT !in s[..n] && Decode(s) == Some(v) && !EndsLoose(s)
    ensures |v| > n + 1 && v[n] == DOT
  {
    assert s[..n + 1] == s[..n] + [DOT];
    DecodePlain(s, n + 1);
    assert n + 1 < |s|;
    DecodeNonEmpty(s[n + 1..]);
    assert v[n] == s[..n + 1][n];
  }

  lemma BodyTight(v: bytes)
    requires !Dotted(v)
    ensures !EndsLoose(Body(v))
  {
    DottedIsDots(v);
    hide Encode;
  }

  lemma PieceSome(v: bytes, i: nat)
    requires i < |v|
    ensures Piece(v, i) != []
  {
  }

  lemma Longer(a: bytes, b: bytes, p: bytes)
    requires a <= b && p != []
    ensures a <= b + p && |b + p| > |b|
  {
  }

  lemma {:induction false} SpelledGrows(v: bytes, n: nat, m: nat)
    requires n <= m <= |v|
    ensures Spelled(v, n) <= Spelled(v, m) && (n < m ==> |Spelled(v, n)| < |Spelled(v, m)|)
    decreases m - n
  {
    hide *;
    if n < m {
      SpelledGrows(v, n, m - 1);
      SpelledStep(v, m);
      PieceSome(v, m - 1);
      Longer(Spelled(v, n), Spelled(v, m - 1), Piece(v, m - 1));
    }
  }

  lemma SpelledStep(v: bytes, m: nat)
    requires 0 < m <= |v|
    ensures Spelled(v, m) == Spelled(v, m - 1) + Piece(v, m - 1)
  {
  }

  lemma {:induction false} SpelledKept(v: bytes, n: nat)
    requires n <= |v| && forall i :: 0 <= i < n ==> Kept(v, i)
    ensures Spelled(v, n) == v[..n]
  {
    if n > 0 {
      SpelledKept(v, n - 1);
      assert v[..n] == v[..n - 1] + [v[n - 1]];
    }
  }

  lemma DeviceKept(v: bytes, n: nat)
    requires n <= |v| && NamesDevice(v, n)
    ensures 0 < n && !Dotted(v) && DOT !in v[..n]
    ensures forall i :: 0 <= i < n ==> Kept(v, i)
    ensures |v| > n ==> Kept(v, n)
  {
    var name := v[..n];
    DeviceLetters(name);
    hide Device;
    assert v[0] == name[0];
    forall i | 0 <= i < n ensures Kept(v, i) {
      assert v[i] == name[i];
      SafeIsLiteral(v[i]);
    }
  }

  lemma KeptBody(v: bytes, n: nat)
    requires n <= |v| && forall i :: 0 <= i < n ==> Kept(v, i)
    ensures n <= |Body(v)| && Body(v)[..n] == v[..n]
  {
    SpelledBody(v);
    hide Body, Kept, Piece;
    SpelledKept(v, n);
    SpelledGrows(v, n, |v|);
  }

  lemma DeviceIsGuarded(v: bytes, n: nat)
    requires n <= |v| && NamesDevice(v, n)
    ensures Reserved(Body(v)) && !Dotted(v)
  {
    DeviceKept(v, n);
    DeviceIsReserved(v[..n]);
    KeptBody(v, n);
    var s := Body(v);
    if |v| > n {
      KeptBody(v, n + 1);
      assert s[n] == s[..n + 1][n] && v[n] == v[..n + 1][n];
    } else {
      SpelledBody(v);
      SpelledKept(v, n);
    }
    hide Body, Spelled, Device, Kept;
    StemIs(s, n);
  }

  // ----- whole components

  /** The value in front of which nothing else needs a guard. */
  function Written(v: bytes): bytes
  {
    (if Guarded(v) then ['_' as int] else []) + Spelled(v, |v|)
  }

  lemma GuardIsNeeded(v: bytes)
    ensures Guarded(v) <==> NeedsPrefix(v)
  {
    DottedIsDots(v);
    if !Dotted(v) && Reserved(Body(v)) {
      ReservedNamesDevice(v);
    }
    if !Dotted(v) && Guarded(v) {
      var n :| 0 <= n <= |v| && NamesDevice(v, n);
      DeviceIsGuarded(v, n);
    }
  }

  /**
   Every component, byte by byte: up to 160 bytes the underscore, if the value is guarded, and one piece per byte; of
   anything longer the first 140 bytes, a tilde and the first 16 letters of the value's digest.
   */
  lemma ComponentWritten(digest: bytes -> bytes, v: bytes)
    requires Printed(digest)
    ensures Named(digest, v) ==
      if |Written(v)| <= 160 then Written(v) else Written(v)[..140] + ['~' as int] + digest(v)[..16]
  {
    GuardIsNeeded(v);
    SpelledBody(v);
    hide Guarded, NeedsPrefix, Body, Spelled;
    assert [] + Body(v) == Body(v);
    assert Full(v) == Written(v);
  }
}
