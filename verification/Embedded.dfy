/**
 The serialized CRI wrapper: a cursor-based reader, the printer of the format, and the proof that the reader
 accepts exactly what the printer writes.
 */
module Embedded {
  import opened Bytes
  import Numbers
  import Text

  // The class, namespace and assembly names that identify the implementation.
  const CLASS: bytes :=
    [0x43, 0x72, 0x69, 0x53, 0x65, 0x72, 0x69, 0x61, 0x6C, 0x69, 0x7A, 0x65, 0x64,
     0x42, 0x79, 0x74, 0x65, 0x73, 0x41, 0x73, 0x73, 0x65, 0x74, 0x49, 0x6D, 0x70, 0x6C]
  const NAMESPACE: bytes :=
    [0x43, 0x72, 0x69, 0x57, 0x61, 0x72, 0x65, 0x2E, 0x41, 0x73, 0x73, 0x65, 0x74, 0x73]
  const ASSEMBLY: bytes :=
    [0x43, 0x72, 0x69, 0x4D, 0x77, 0x2E, 0x43, 0x72, 0x69, 0x57, 0x61, 0x72, 0x65, 0x2E,
     0x41, 0x73, 0x73, 0x65, 0x74, 0x73, 0x2E, 0x52, 0x75, 0x6E, 0x74, 0x69, 0x6D, 0x65]
  const UTF_TABLE: bytes := [0x40, 0x55, 0x54, 0x46]
  const CRID: bytes := [0x43, 0x52, 0x49, 0x44]
  const MAX_STRING := 4096

  /** The type identity that a wrapper must name. */
  datatype Identity = Identity(class_: bytes, namespace: bytes, assembly: bytes)

  predicate GoodIdentity(id: Identity)
  {
    && Text.Ascii(id.class_) && Text.Ascii(id.namespace) && Text.Ascii(id.assembly)
    && |id.class_| <= MAX_STRING && |id.namespace| <= MAX_STRING && |id.assembly| <= MAX_STRING
  }

  datatype Wrapper = Wrapper(owner: bytes, enabled: byte, script: bytes, name: bytes, rid: u64, payload: bytes)

  predicate GoodString(v: bytes)
  {
    |v| <= MAX_STRING && Text.ValidUtf8(v)
  }

  predicate GoodPayload(p: bytes, limit: nat)
  {
    0 < |p| <= limit && |p| < 0x1_0000_0000 && (UTF_TABLE <= p || CRID <= p)
  }

  predicate WellFormed(w: Wrapper, limit: nat)
  {
    && |w.owner| == 12 && w.enabled <= 1 && |w.script| == 12
    && GoodString(w.name) && GoodPayload(w.payload, limit)
  }

  // ----- the printer

  function Zeros(n: nat): (r: bytes)
    ensures |r| == n
  {
    seq(n, _ => 0)
  }

  /** The number of zero bytes that bring `n` to a multiple of four. */
  function PadLength(n: nat): (k: nat)
    ensures k < 4 && (n + k) % 4 == 0
  {
    (4 - n % 4) % 4
  }

  function PrintString(v: bytes): bytes
  {
    Numbers.ToLe(|v|, 4) + v + Zeros(PadLength(|v|))
  }

  function PrintRegistry(rid: u64): (r: bytes)
    ensures |r| == 40
  {
    Numbers.ToLe(rid, 8) + Zeros(12) + Numbers.ToLe(0, 4) + Numbers.ToLe(2, 4) + Numbers.ToLe(1, 4)
    + Numbers.ToLe(rid, 8)
  }

  function PrintHead(owner: bytes, enabled: byte, script: bytes): bytes
  {
    owner + [enabled] + Zeros(3) + script
  }

  function PrintIdentity(id: Identity): bytes
  {
    PrintString(id.class_) + PrintString(id.namespace) + PrintString(id.assembly)
  }

  function PrintBody(id: Identity, name: bytes, rid: u64, payload: bytes): bytes
  {
    PrintString(name) + (PrintRegistry(rid) + (PrintIdentity(id) + PrintString(payload)))
  }

  function Print(id: Identity, w: Wrapper): bytes
  {
    PrintHead(w.owner, w.enabled, w.script) + PrintBody(id, w.name, w.rid, w.payload)
  }

  // ----- the grammar, as functions on the bytes that remain

  /** A length-prefixed block at the front of `s`, with its zero padding. */
  function TakeBlock(s: bytes, limit: nat): (r: Option<(bytes, bytes)>)
  {
    if |s| < 4 then None else
    var n := Numbers.Le(s[..4]);
    if n > limit || |s| < 4 + n + PadLength(n) then None
    else if s[4 + n..4 + n + PadLength(n)] != Zeros(PadLength(n)) then None
    else Some((s[4..4 + n], s[4 + n + PadLength(n)..]))
  }

  function TakeString(s: bytes): (r: Option<(bytes, bytes)>)
  {
    match TakeBlock(s, MAX_STRING)
    case None => None
    case Some(p) => if Text.ValidUtf8(p.0) then Some(p) else None
  }

  /** The given name at the front of `s`; returns what follows it. */
  function TakeName(s: bytes, name: bytes): Option<bytes>
  {
    match TakeString(s)
    case None => None
    case Some(p) => if p.0 == name then Some(p.1) else None
  }

  function TakeRegistry(s: bytes): Option<(u64, bytes)>
  {
    if |s| < 40 then None else
    var rid := Numbers.Le(s[..8]);
    Numbers.LeRange(s[..8]);
    Numbers.Powers();
    if s[..40] == PrintRegistry(rid) then Some((rid, s[40..])) else None
  }

  /** The three names that identify the implementation. */
  function TakeIdentity(id: Identity, s: bytes): Option<bytes>
  {
    match TakeName(s, id.class_)
    case None => None
    case Some(s1) =>
      match TakeName(s1, id.namespace)
      case None => None
      case Some(s2) => TakeName(s2, id.assembly)
  }

  /** The payload block, which ends the input. */
  function TakePayload(s: bytes, limit: nat): Option<bytes>
  {
    match TakeBlock(s, limit)
    case None => None
    case Some(p) => if p.1 == [] && GoodPayload(p.0, limit) then Some(p.0) else None
  }

  datatype Body = Body(name: bytes, rid: u64, payload: bytes)

  function ParseBody(id: Identity, s: bytes, limit: nat): Option<Body>
  {
    match TakeString(s)
    case None => None
    case Some(named) =>
      match TakeRegistry(named.1)
      case None => None
      case Some(registry) =>
        match TakeIdentity(id, registry.1)
        case None => None
        case Some(rest) =>
          match TakePayload(rest, limit)
          case None => None
          case Some(payload) => Some(Body(named.0, registry.0, payload))
  }

  predicate GoodHead(raw: bytes)
  {
    |raw| >= 28 && raw[12] <= 1 && raw[13..16] == Zeros(3)
  }

  function Parse(id: Identity, raw: bytes, limit: nat): Option<Wrapper>
  {
    if !GoodHead(raw) then None else
    match ParseBody(id, raw[28..], limit)
    case None => None
    case Some(b) => Some(Wrapper(raw[..12], raw[12], raw[16..28], b.name, b.rid, b.payload))
  }

  // ----- round trips

  lemma TakePrintedBlock(v: bytes, rest: bytes, limit: nat)
    requires |v| < 0x1_0000_0000
    ensures TakeBlock(PrintString(v) + rest, limit) == if |v| <= limit then Some((v, rest)) else None
  {
    var s := PrintString(v) + rest;
    Numbers.Powers();
    Numbers.LeToLe(|v|, 4);
    assert s[..4] == Numbers.ToLe(|v|, 4);
    assert s[4..4 + |v|] == v;
    assert s[4 + |v|..4 + |v| + PadLength(|v|)] == Zeros(PadLength(|v|));
    assert s[4 + |v| + PadLength(|v|)..] == rest;
  }

  lemma TakenBlockIsPrinted(s: bytes, limit: nat)
    requires TakeBlock(s, limit).Some?
    ensures var p := TakeBlock(s, limit).value; s == PrintString(p.0) + p.1 && |p.0| <= limit && |p.0| < 0x1_0000_0000
  {
    var n := Numbers.Le(s[..4]);
    Numbers.Powers();
    Numbers.LeRange(s[..4]);
    Numbers.ToLeLe(s[..4]);
    assert s == s[..4] + s[4..4 + n] + s[4 + n..4 + n + PadLength(n)] + s[4 + n + PadLength(n)..];
  }

  lemma TakePrintedName(name: bytes, rest: bytes)
    requires Text.Ascii(name) && |name| <= MAX_STRING
    ensures TakeName(PrintString(name) + rest, name) == Some(rest)
  {
    TakePrintedBlock(name, rest, MAX_STRING);
    Text.AsciiIsUtf8(name);
  }

  lemma TakePrintedIdentity(id: Identity, rest: bytes)
    requires GoodIdentity(id)
    ensures TakeIdentity(id, PrintIdentity(id) + rest) == Some(rest)
  {
    var s2 := PrintString(id.assembly) + rest;
    var s1 := PrintString(id.namespace) + s2;
    var s := PrintString(id.class_) + s1;
    assert PrintIdentity(id) + rest == s;
    TakePrintedName(id.class_, s1);
    TakePrintedName(id.namespace, s2);
    TakePrintedName(id.assembly, rest);
  }

  lemma TakePrintedRegistry(rid: u64, rest: bytes)
    ensures TakeRegistry(PrintRegistry(rid) + rest) == Some((rid, rest))
  {
    var s := PrintRegistry(rid) + rest;
    Numbers.Powers();
    Numbers.LeToLe(rid, 8);
    assert s[..8] == Numbers.ToLe(rid, 8);
    assert s[..40] == PrintRegistry(rid);
    assert s[40..] == rest;
  }

  lemma TakePrintedPayload(payload: bytes, limit: nat)
    requires GoodPayload(payload, limit)
    ensures TakePayload(PrintString(payload), limit) == Some(payload)
  {
    assert PrintString(payload) + [] == PrintString(payload);
    TakePrintedBlock(payload, [], limit);
  }

  lemma ParsePrintedBody(id: Identity, name: bytes, rid: u64, payload: bytes, limit: nat)
    requires GoodIdentity(id) && GoodString(name) && GoodPayload(payload, limit)
    ensures ParseBody(id, PrintBody(id, name, rid, payload), limit) == Some(Body(name, rid, payload))
  {
    hide TakeRegistry, PrintRegistry, TakeIdentity, PrintIdentity, TakePayload, PrintString;
    var s3 := PrintString(payload);
    var s2 := PrintIdentity(id) + s3;
    var s1 := PrintRegistry(rid) + s2;
    TakePrintedBlock(name, s1, MAX_STRING);
    TakePrintedRegistry(rid, s2);
    TakePrintedIdentity(id, s3);
    TakePrintedPayload(payload, limit);
  }

  /** Everything the printer writes is read back, field by field. */
  lemma ParsePrint(id: Identity, w: Wrapper, limit: nat)
    requires GoodIdentity(id) && WellFormed(w, limit)
    ensures Parse(id, Print(id, w), limit) == Some(w)
  {
    hide ParseBody, PrintBody;
    var head, body := PrintHead(w.owner, w.enabled, w.script), PrintBody(id, w.name, w.rid, w.payload);
    var raw := head + body;
    assert raw[..12] == w.owner && raw[12] == w.enabled && raw[13..16] == Zeros(3) && raw[16..28] == w.script;
    assert raw[28..] == body;
    ParsePrintedBody(id, w.name, w.rid, w.payload, limit);
  }

  lemma Cut(s: bytes, i: nat, n: nat)
    ensures i + n <= |s| ==> s[i..][..n] == s[i..i + n] && s[i..][n..] == s[i + n..]
  {
  }

  lemma TakenNameIsPrinted(s: bytes, name: bytes)
    requires TakeName(s, name).Some?
    ensures s == PrintString(name) + TakeName(s, name).value
  {
    TakenBlockIsPrinted(s, MAX_STRING);
  }

  lemma TakenIdentityIsPrinted(id: Identity, s: bytes)
    requires TakeIdentity(id, s).Some?
    ensures s == PrintIdentity(id) + TakeIdentity(id, s).value
  {
    TakenNameIsPrinted(s, id.class_);
    var s1 := TakeName(s, id.class_).value;
    TakenNameIsPrinted(s1, id.namespace);
    var s2 := TakeName(s1, id.namespace).value;
    TakenNameIsPrinted(s2, id.assembly);
    Regroup(PrintString(id.class_), PrintString(id.namespace), PrintString(id.assembly), TakeIdentity(id, s).value);
  }

  lemma Regroup(a: bytes, b: bytes, c: bytes, d: bytes)
    ensures a + (b + (c + d)) == a + b + c + d
  {
  }

  lemma PrintParsedBody(id: Identity, s: bytes, limit: nat)
    requires ParseBody(id, s, limit).Some?
    ensures var b := ParseBody(id, s, limit).value;
      GoodString(b.name) && GoodPayload(b.payload, limit) && PrintBody(id, b.name, b.rid, b.payload) == s
  {
    hide TakeBlock, TakeIdentity, PrintString, PrintRegistry, PrintIdentity, GoodPayload, Text.ValidUtf8;
    TakenBlockIsPrinted(s, MAX_STRING);
    var named := TakeString(s).value;
    TakenRegistryIsPrinted(named.1);
    var registry := TakeRegistry(named.1).value;
    TakenIdentityIsPrinted(id, registry.1);
    var rest := TakeIdentity(id, registry.1).value;
    TakenPayloadIsPrinted(rest, limit);
    hide TakeString, TakeRegistry, TakePayload;
  }

  lemma TakenRegistryIsPrinted(s: bytes)
    requires TakeRegistry(s).Some?
    ensures s == PrintRegistry(TakeRegistry(s).value.0) + TakeRegistry(s).value.1
  {
    assert s == s[..40] + s[40..];
    hide PrintRegistry;
  }

  lemma TakenPayloadIsPrinted(s: bytes, limit: nat)
    requires TakePayload(s, limit).Some?
    ensures s == PrintString(TakePayload(s, limit).value) && GoodPayload(TakePayload(s, limit).value, limit)
  {
    TakenBlockIsPrinted(s, limit);
    hide TakeBlock, PrintString, GoodPayload;
    var payload := TakePayload(s, limit).value;
    assert PrintString(payload) + [] == PrintString(payload);
  }

  lemma HeadIsPrinted(raw: bytes)
    requires GoodHead(raw)
    ensures raw[..28] == PrintHead(raw[..12], raw[12], raw[16..28])
  {
    assert raw[..28] == raw[..12] + [raw[12]] + raw[13..16] + raw[16..28];
  }

  /** Every accepted byte string is the print of what was read, padding and end of input included. */
  lemma PrintParse(id: Identity, raw: bytes, limit: nat)
    requires Parse(id, raw, limit).Some?
    ensures WellFormed(Parse(id, raw, limit).value, limit)
    ensures Print(id, Parse(id, raw, limit).value) == raw
  {
    hide ParseBody, PrintBody;
    PrintParsedBody(id, raw[28..], limit);
    var w := Parse(id, raw, limit).value;
    HeadIsPrinted(raw);
    assert raw == raw[..28] + raw[28..];
  }

  lemma PrintInjective(id: Identity, a: Wrapper, b: Wrapper, limit: nat)
    requires GoodIdentity(id) && WellFormed(a, limit) && WellFormed(b, limit) && Print(id, a) == Print(id, b)
    ensures a == b
  {
    ParsePrint(id, a, limit);
    ParsePrint(id, b, limit);
  }

  // ----- the reader of the source: one cursor, advanced by every call

  class Reader {
    const data: bytes
    const id: Identity
    var pos: nat

    constructor (data: bytes, id: Identity)
      ensures this.data == data && this.id == id && pos == 0
    {
      this.data := data;
      this.id := id;
      pos := 0;
    }

    ghost predicate Valid()
      reads this
    {
      pos <= |data|
    }

    ghost function Rest(): bytes
      requires Valid()
      reads this
    {
      data[pos..]
    }

    method Take(n: nat) returns (r: Option<bytes>)
      requires Valid()
      modifies this
      ensures Valid()
      ensures r.Some? <==> old(pos) + n <= |data|
      ensures r.Some? ==> pos == old(pos) + n && r.value == data[old(pos)..pos]
      ensures r.Some? ==> r.value == old(Rest())[..n] && Rest() == old(Rest())[n..]
      ensures r.None? ==> pos == old(pos)
    {
      if pos + n > |data| {
        return None;
      }
      r := Some(data[pos..pos + n]);
      pos := pos + n;
    }

    method Word() returns (r: Option<u32>)
      requires Valid()
      modifies this
      ensures Valid()
      ensures r.Some? <==> |old(Rest())| >= 4
      ensures r.Some? ==> r.value == Numbers.Le(old(Rest())[..4])
      ensures r.Some? ==> pos == old(pos) + 4 && Rest() == old(Rest())[4..]
    {
      var b := Take(4);
      if b.None? {
        return None;
      }
      assert b.value == old(Rest())[..4];
      Numbers.LeRange(b.value);
      Numbers.Powers();
      return Some(Numbers.Le(b.value));
    }

    /** Skip to the next multiple of four; `n` is the length of the field being padded. */
    method Align(ghost n: nat) returns (ok: bool)
      requires Valid() && pos % 4 == n % 4
      modifies this
      ensures Valid()
      ensures ok <==> PadLength(n) <= |old(Rest())| && old(Rest())[..PadLength(n)] == Zeros(PadLength(n))
      ensures ok ==> pos == old(pos) + PadLength(n) && Rest() == old(Rest())[PadLength(n)..]
      ensures ok ==> pos % 4 == 0
    {
      var k := (pos + 3) / 4 * 4 - pos;
      assert k == PadLength(n);
      var b := Take(k);
      if b.None? {
        return false;
      }
      ok := b.value == Zeros(k);
    }

    lemma AfterLength(pos: nat, n: nat)
      requires pos % 4 == 0
      ensures (pos + n) % 4 == n % 4
    {
    }

    /** When a block can be taken from `s`, and what is taken. */
    lemma BlockCut(s: bytes, limit: nat)
      ensures |s| < 4 ==> TakeBlock(s, limit).None?
      ensures |s| >= 4 ==> var n := Numbers.Le(s[..4]); var k := PadLength(n);
        && (|s| >= 4 + n ==> s[4..][n..] == s[4 + n..] && s[4..][..n] == s[4..4 + n])
        && (TakeBlock(s, limit).Some? <==> n <= limit && |s| >= 4 + n + k && s[4 + n..][..k] == Zeros(k))
        && (TakeBlock(s, limit).Some? ==> TakeBlock(s, limit).value == (s[4..4 + n], s[4 + n..][k..]))
    {
      if |s| >= 4 {
        var n := Numbers.Le(s[..4]);
        if |s| >= 4 + n + PadLength(n) {
          assert s[4 + n..][..PadLength(n)] == s[4 + n..4 + n + PadLength(n)];
          assert s[4 + n..][PadLength(n)..] == s[4 + n + PadLength(n)..];
        }
      }
    }

    method String() returns (r: Option<bytes>)
      requires Valid() && pos % 4 == 0
      modifies this
      ensures Valid()
      ensures r.Some? <==> TakeString(old(Rest())).Some?
      ensures r.Some? ==> TakeString(old(Rest())) == Some((r.value, Rest())) && pos % 4 == 0
    {
      hide Numbers.Le, Text.ValidUtf8, Zeros, PadLength, TakeBlock;
      BlockCut(Rest(), MAX_STRING);
      var n := Word();
      if n.None? || n.value > MAX_STRING {
        return None;
      }
      AfterLength(pos, n.value);
      var b := Take(n.value);
      if b.None? {
        return None;
      }
      if !Text.ValidUtf8(b.value) {
        return None;
      }
      var aligned := Align(n.value);
      if !aligned {
        return None;
      }
      return Some(b.value);
    }

    /** The number of external references, the version, the number of entries, and the id of the entry. */
    method SingleEntry() returns (r: Option<(u32, u32, u32, bytes)>)
      requires Valid()
      modifies this
      ensures Valid()
      ensures r.Some? <==> |old(Rest())| >= 20
      ensures r.Some? ==> var s := old(Rest());
        && r.value.0 == Numbers.Le(s[..4]) && r.value.1 == Numbers.Le(s[4..8])
        && r.value.2 == Numbers.Le(s[8..12]) && r.value.3 == s[12..20]
        && pos == old(pos) + 20 && Rest() == s[20..]
    {
      hide Numbers.Le;
      ghost var s := Rest();
      var additional := Word();
      if additional.None? {
        return None;
      }
      Cut(s, 4, 4);
      var version := Word();
      if version.None? {
        return None;
      }
      Cut(s, 8, 4);
      var count := Word();
      if count.None? {
        return None;
      }
      Cut(s, 12, 8);
      var again := Take(8);
      if again.None? {
        return None;
      }
      return Some((additional.value, version.value, count.value, again.value));
    }

    /** The reference registry: the id, no external references, one entry with the same id. */
    method Registry() returns (r: Option<u64>)
      requires Valid() && pos % 4 == 0
      modifies this
      ensures Valid()
      ensures r.Some? <==> TakeRegistry(old(Rest())).Some?
      ensures r.Some? ==> TakeRegistry(old(Rest())) == Some((r.value, Rest())) && pos % 4 == 0
    {
      hide TakeRegistry, Numbers.Le, PadLength, Zeros;
      ghost var s := Rest();
      RegistryValue(s);
      var rid := Take(8);
      if rid.None? {
        return None;
      }
      if |s| >= 40 {
        RegistryFields(s);
      }
      Cut(s, 8, 12);
      var external := Take(12);
      if external.None? || external.value != Zeros(12) {
        return None;
      }
      Cut(s, 20, 20);
      var entry := SingleEntry();
      if entry.None? {
        return None;
      }
      assert s[20..][..4] == s[20..24] && s[20..][4..8] == s[24..28];
      assert s[20..][8..12] == s[28..32] && s[20..][12..20] == s[32..40];
      if entry.value.0 != 0 || entry.value.1 != 2 || entry.value.2 != 1
         || Numbers.Le(entry.value.3) != Numbers.Le(rid.value) {
        return None;
      }
      Numbers.LeRange(rid.value);
      Numbers.Powers();
      return Some(Numbers.Le(rid.value));
    }

    method Head() returns (ok: bool)
      requires pos == 0
      modifies this
      ensures ok <==> GoodHead(data)
      ensures ok ==> pos == 28
    {
      var owner := Take(12);
      if owner.None? {
        return false;
      }
      var enabled := Take(1);
      if enabled.None? || enabled.value[0] > 1 {
        return false;
      }
      assert |data| >= 16 ==> Rest()[..3] == data[13..16];
      var aligned := Align(13);
      if !aligned {
        return false;
      }
      var script := Take(12);
      return script.Some?;
    }

    method Name(name: bytes) returns (ok: bool)
      requires Valid() && pos % 4 == 0
      modifies this
      ensures Valid()
      ensures ok <==> TakeName(old(Rest()), name).Some?
      ensures ok ==> TakeName(old(Rest()), name) == Some(Rest()) && pos % 4 == 0
    {
      var s := String();
      return s.Some? && s.value == name;
    }

    method Registered() returns (ok: bool)
      requires Valid() && pos % 4 == 0
      modifies this
      ensures Valid()
      ensures ok <==> TakeIdentity(id, old(Rest())).Some?
      ensures ok ==> TakeIdentity(id, old(Rest())) == Some(Rest()) && pos % 4 == 0
    {
      ok := Name(id.class_);
      if ok {
        ok := Name(id.namespace);
      }
      if ok {
        ok := Name(id.assembly);
      }
    }

    method Extract(limit: nat) returns (r: Option<bytes>)
      requires pos == 0
      modifies this
      ensures r.Some? <==> Parse(id, data, limit).Some?
      ensures r.Some? ==> r.value == Parse(id, data, limit).value.payload
    {
      hide TakeRegistry, TakeIdentity, TakePayload, TakeString, GoodPayload;
      var head := Head();
      if !head {
        return None;
      }
      var name := String();
      if name.None? {
        return None;
      }
      var rid := Registry();
      if rid.None? {
        return None;
      }
      var identity := Registered();
      if !identity {
        return None;
      }
      r := Payload(limit);
    }

    method Payload(limit: nat) returns (r: Option<bytes>)
      requires Valid() && pos % 4 == 0
      modifies this
      ensures r == TakePayload(old(Rest()), limit)
    {
      hide Numbers.Le, Zeros, PadLength, TakeBlock;
      BlockCut(Rest(), limit);
      var n := Word();
      if n.None? || n.value == 0 || n.value > limit {
        return None;
      }
      AfterLength(pos, n.value);
      var payload := Take(n.value);
      if payload.None? {
        return None;
      }
      var aligned := Align(n.value);
      if !aligned {
        return None;
      }
      if pos != |data| {
        return None;
      }
      if !(UTF_TABLE <= payload.value || CRID <= payload.value) {
        return None;
      }
      return Some(payload.value);
    }
  }

  lemma PrintedRegistryFields(rid: u64)
    ensures var p := PrintRegistry(rid);
      && p[..8] == Numbers.ToLe(rid, 8) && p[8..20] == Zeros(12) && p[20..24] == Numbers.ToLe(0, 4)
      && p[24..28] == Numbers.ToLe(2, 4) && p[28..32] == Numbers.ToLe(1, 4) && p[32..40] == Numbers.ToLe(rid, 8)
  {
    hide Numbers.ToLe, Zeros;
  }

  lemma SameField(b: bytes, n: nat)
    requires n < Numbers.Pow256(|b|)
    ensures b == Numbers.ToLe(n, |b|) <==> Numbers.Le(b) == n
  {
    Numbers.LeToLe(n, |b|);
    Numbers.ToLeLe(b);
  }

  /** A registry block is accepted exactly when its fixed fields hold their fixed values. */
  lemma RegistryFields(s: bytes)
    requires |s| >= 40
    ensures TakeRegistry(s).Some? <==>
      && s[8..20] == Zeros(12) && Numbers.Le(s[20..24]) == 0 && Numbers.Le(s[24..28]) == 2
      && Numbers.Le(s[28..32]) == 1 && Numbers.Le(s[32..40]) == Numbers.Le(s[..8])
  {
    hide Zeros, Numbers.Le, Numbers.ToLe;
    Numbers.LeRange(s[..8]);
    Numbers.Powers();
    var rid := Numbers.Le(s[..8]);
    var p := PrintRegistry(rid);
    PrintedRegistryFields(rid);
    SameField(s[..8], rid);
    SameField(s[20..24], 0);
    SameField(s[24..28], 2);
    SameField(s[28..32], 1);
    SameField(s[32..40], rid);
    SixFields(s[..40], p);
    assert s[..40][..8] == s[..8] && s[..40][8..20] == s[8..20] && s[..40][20..24] == s[20..24];
    assert s[..40][24..28] == s[24..28] && s[..40][28..32] == s[28..32] && s[..40][32..40] == s[32..40];
  }

  lemma RegistryValue(s: bytes)
    ensures TakeRegistry(s).Some? ==>
      |s| >= 40 && TakeRegistry(s).value.0 == Numbers.Le(s[..8]) && TakeRegistry(s).value.1 == s[40..]
  {
  }

  lemma SixFields(s: bytes, p: bytes)
    requires |s| == |p| == 40
    ensures s == p <==>
      && s[..8] == p[..8] && s[8..20] == p[8..20] && s[20..24] == p[20..24]
      && s[24..28] == p[24..28] && s[28..32] == p[28..32] && s[32..40] == p[32..40]
  {
    assert s == s[..8] + s[8..20] + s[20..24] + s[24..28] + s[28..32] + s[32..40];
    assert p == p[..8] + p[8..20] + p[20..24] + p[24..28] + p[28..32] + p[32..40];
  }

  const IMPLEMENTATION := Identity(CLASS, NAMESPACE, ASSEMBLY)

  /** The reader accepts exactly the printed wrappers, and returns the payload that was printed. */
  method Extract(raw: bytes, id: Identity, limit: nat) returns (r: Option<bytes>)
    requires GoodIdentity(id)
    ensures r.Some? <==> exists w :: WellFormed(w, limit) && Print(id, w) == raw
    ensures forall w :: WellFormed(w, limit) && Print(id, w) == raw ==> r == Some(w.payload)
  {
    var reader := new Reader(raw, id);
    r := reader.Extract(limit);
    if Parse(id, raw, limit).Some? {
      PrintParse(id, raw, limit);
    }
    forall w | WellFormed(w, limit) && Print(id, w) == raw ensures r == Some(w.payload) {
      ParsePrint(id, w, limit);
    }
  }

  lemma ImplementationIsGood()
    ensures GoodIdentity(IMPLEMENTATION)
  {
  }
}
