/** Two container layout checks of the worker: AWB waveform tables and IVF packet files. */
module Layouts {
  import opened Bytes
  import opened Numbers

  // ----- AWB

  const AFS2: bytes := [0x41, 0x46, 0x53, 0x32]

  ghost predicate Multiple(n: nat, k: nat)
  {
    exists q: nat :: n == q * k
  }

  /** The least multiple of `alignment` that is not below `n`. */
  function AlignUp(n: nat, alignment: nat): (r: nat)
    requires alignment > 0
    ensures n <= r < n + alignment && Multiple(r, alignment)
  {
    var q := (n + alignment - 1) / alignment;
    assert n + alignment - 1 == alignment * q + (n + alignment - 1) % alignment;
    q * alignment
  }

  datatype Header = Header(count: nat, offsetSize: nat, idSize: nat, alignment: nat)

  function AwbHeader(data: bytes): Header
    requires |data| >= 16
  {
    Header(Le(data[8..12]), data[5], data[6], Le(data[12..14]))
  }

  predicate GoodAwbHeader(h: Header)
  {
    h.count <= 10_000 && h.offsetSize in {2, 4} && h.idSize in {2, 4} && h.alignment > 0
  }

  function OffsetsAt(h: Header): nat { 16 + h.count * h.idSize }
  function TableEnd(h: Header): nat { OffsetsAt(h) + (h.count + 1) * h.offsetSize }

  lemma EntryFits(at: nat, count: nat, size: nat, i: nat)
    requires i < count
    ensures at + i * size + size <= at + count * size
  {
    assert i * size + size == (i + 1) * size;
    assert (i + 1) * size <= count * size;
  }

  /** Entry `i` of a table of `size`-byte little-endian numbers that starts at `at`. */
  function Entry(data: bytes, at: nat, count: nat, size: nat, i: nat): nat
    requires i < count && at + count * size <= |data|
  {
    EntryFits(at, count, size, i);
    Le(data[at + i * size..at + i * size + size])
  }

  function WaveId(data: bytes, h: Header, i: nat): nat
    requires i < h.count && TableEnd(h) <= |data|
  {
    Entry(data, 16, h.count, h.idSize, i)
  }

  function Offset(data: bytes, h: Header, i: nat): nat
    requires i <= h.count && TableEnd(h) <= |data|
  {
    Entry(data, OffsetsAt(h), h.count + 1, h.offsetSize, i)
  }

  /** Where segment `i` starts; entry `count` is the unaligned end of the last segment. */
  function Start(data: bytes, h: Header, i: nat): (r: nat)
    requires i <= h.count && TableEnd(h) <= |data| && h.alignment > 0
    ensures Offset(data, h, i) <= r
  {
    if i < h.count then AlignUp(Offset(data, h, i), h.alignment) else Offset(data, h, i)
  }

  ghost predicate DistinctIds(data: bytes, h: Header, n: nat)
    requires n <= h.count && TableEnd(h) <= |data|
  {
    forall i, j :: 0 <= i < j < n ==> WaveId(data, h, i) != WaveId(data, h, j)
  }

  /** Entry `i` lies past its predecessor, or past the table, and starts inside the data. */
  predicate Link(data: bytes, h: Header, i: nat)
    requires i <= h.count && TableEnd(h) <= |data| && h.alignment > 0
  {
    && (if i == 0 then TableEnd(h) else Start(data, h, i - 1)) <= Offset(data, h, i)
    && Start(data, h, i) <= |data|
  }

  ghost predicate Ordered(data: bytes, h: Header, n: nat)
    requires n <= h.count + 1 && TableEnd(h) <= |data| && h.alignment > 0
  {
    forall i :: 0 <= i < n ==> Link(data, h, i)
  }

  /** The layout that the check accepts, and the wave ids that tracks may refer to. */
  ghost predicate AwbLayout(data: bytes)
  {
    && |data| >= 16 && AFS2 <= data && GoodAwbHeader(AwbHeader(data)) && TableEnd(AwbHeader(data)) <= |data|
    && DistinctIds(data, AwbHeader(data), AwbHeader(data).count)
    && Ordered(data, AwbHeader(data), AwbHeader(data).count + 1)
  }

  ghost predicate Refers(data: bytes, track: int)
    requires AwbLayout(data)
  {
    exists i :: 0 <= i < AwbHeader(data).count && WaveId(data, AwbHeader(data), i) == track
  }

  method CheckIds(data: bytes, h: Header) returns (ok: bool, ids: set<nat>)
    requires TableEnd(h) <= |data|
    ensures ok <==> DistinctIds(data, h, h.count)
    ensures ok ==> forall x :: x in ids <==> exists k :: 0 <= k < h.count && WaveId(data, h, k) == x
  {
    hide Entry, TableEnd;
    ids := {};
    for i := 0 to h.count
      invariant DistinctIds(data, h, i)
      invariant forall x :: x in ids <==> exists k :: 0 <= k < i && WaveId(data, h, k) == x
    {
      var n := WaveId(data, h, i);
      if n in ids {
        return false, ids;
      }
      ids := ids + {n};
    }
    ok := true;
  }

  method CheckOffsets(data: bytes, h: Header) returns (ok: bool)
    requires TableEnd(h) <= |data| && h.alignment > 0
    ensures ok <==> Ordered(data, h, h.count + 1)
  {
    hide Entry, TableEnd, AlignUp;
    var previous := TableEnd(h);
    for i := 0 to h.count + 1
      invariant Ordered(data, h, i)
      invariant previous == if i == 0 then TableEnd(h) else Start(data, h, i - 1)
    {
      var n := Offset(data, h, i);
      if !(n >= previous && n <= |data|) {
        assert !Link(data, h, i);
        return false;
      }
      var start := Start(data, h, i);
      if start > |data| {
        assert !Link(data, h, i);
        return false;
      }
      assert Link(data, h, i);
      previous := start;
    }
    ok := true;
  }

  method CheckAwbReferences(data: bytes, tracks: seq<int>) returns (ok: bool)
    ensures ok <==> AwbLayout(data) && forall t :: t in tracks ==> Refers(data, t)
  {
    hide Entry, TableEnd, AlignUp, WaveId, Ordered, DistinctIds, Le;
    if !(|data| >= 16 && AFS2 <= data) {
      return false;
    }
    var h := AwbHeader(data);
    if !GoodAwbHeader(h) {
      return false;
    }
    if TableEnd(h) > |data| {
      return false;
    }
    var distinct, ids := CheckIds(data, h);
    if !distinct {
      return false;
    }
    var ordered := CheckOffsets(data, h);
    if !ordered {
      return false;
    }
    assert AwbLayout(data);
    for i := 0 to |tracks|
      invariant forall k :: 0 <= k < i ==> Refers(data, tracks[k])
    {
      if !(tracks[i] >= 0 && tracks[i] in ids) {
        assert tracks[i] in tracks && !Refers(data, tracks[i]);
        return false;
      }
    }
    return true;
  }

  /** Every segment, a sole or last one too, starts aligned, after the table, and ends inside the data. */
  lemma SegmentInside(data: bytes, i: nat)
    requires AwbLayout(data) && i < AwbHeader(data).count
    ensures var h := AwbHeader(data);
      && Multiple(Start(data, h, i), h.alignment)
      && TableEnd(h) <= Start(data, h, i) <= Offset(data, h, i + 1) <= |data|
  {
    hide Entry, TableEnd, AwbHeader, Le, Multiple;
    var h := AwbHeader(data);
    SegmentAfterTable(data, i);
    assert Link(data, h, i + 1);
  }

  /** A segment ends before any later one starts. */
  lemma {:induction false} SegmentsDisjoint(data: bytes, i: nat, j: nat)
    requires AwbLayout(data) && i < j < AwbHeader(data).count
    ensures Offset(data, AwbHeader(data), i + 1) <= Start(data, AwbHeader(data), j)
    decreases j
  {
    hide Entry, TableEnd, AwbHeader, Le, Multiple;
    var h := AwbHeader(data);
    assert Link(data, h, i + 1) && Link(data, h, j);
    if i + 1 < j {
      assert Link(data, h, j - 1);
      SegmentsDisjoint(data, i, j - 1);
    }
  }

  lemma {:induction false} SegmentAfterTable(data: bytes, i: nat)
    requires AwbLayout(data) && i <= AwbHeader(data).count
    ensures TableEnd(AwbHeader(data)) <= Start(data, AwbHeader(data), i)
  {
    hide Entry, TableEnd, AwbHeader, Le, AlignUp;
    var h := AwbHeader(data);
    assert Link(data, h, i);
    if i > 0 {
      SegmentAfterTable(data, i - 1);
    }
  }

  // ----- IVF

  datatype VideoInfo = VideoInfo(width: u32, height: u32, fpsN: u32, fpsD: u32, frames: u32)

  const IVF_MAGIC: bytes := [0x44, 0x4B, 0x49, 0x46, 0, 0, 32, 0, 0x56, 0x50, 0x39, 0x30]

  predicate GoodIvfHeader(h: bytes, info: VideoInfo)
    requires |h| == 32
  {
    && h[..12] == IVF_MAGIC
    && Le(h[16..20]) * info.fpsD == Le(h[20..24]) * info.fpsN && Le(h[24..28]) == info.frames
    && Le(h[12..14]) == info.width && Le(h[14..16]) == info.height
  }

  /** One packet: its payload length, its timestamp, its payload. */
  function Packet(pts: nat, payload: bytes): bytes
  {
    ToLe(|payload|, 4) + ToLe(pts, 8) + payload
  }

  /** Packets numbered from `first`, one after another. */
  function Packets(first: nat, payloads: seq<bytes>): bytes
    decreases |payloads|
  {
    if payloads == [] then [] else Packet(first, payloads[0]) + Packets(first + 1, payloads[1..])
  }

  predicate GoodPayloads(payloads: seq<bytes>)
  {
    forall i :: 0 <= i < |payloads| ==> 0 < |payloads[i]| < 0x1_0000_0000
  }

  /** A file is a header and the declared number of consecutively numbered non-empty packets, and no more. */
  ghost predicate IvfFile(file: bytes, info: VideoInfo, payloads: seq<bytes>)
  {
    && |file| >= 32 && GoodIvfHeader(file[..32], info)
    && GoodPayloads(payloads) && |payloads| == info.frames && file[32..] == Packets(0, payloads)
  }

  /** The packets that tile `s`, numbered from `first`. */
  function ParsePackets(s: bytes, first: nat): (r: Option<seq<bytes>>)
    decreases |s|
  {
    if s == [] then Some([])
    else if |s| < 12 then None
    else
      var len := Le(s[..4]);
      if Le(s[4..12]) != first || len == 0 || len > |s| - 12 then None
      else
        match ParsePackets(s[12 + len..], first + 1)
        case None => None
        case Some(rest) => Some([s[12..12 + len]] + rest)
  }

  lemma {:induction false} ParsePrinted(first: nat, payloads: seq<bytes>)
    requires GoodPayloads(payloads) && first + |payloads| <= 0x1_0000_0000
    ensures ParsePackets(Packets(first, payloads), first) == Some(payloads)
    decreases |payloads|
  {
    if payloads != [] {
      var p, rest := payloads[0], Packets(first + 1, payloads[1..]);
      var s := Packets(first, payloads);
      Powers();
      LeToLe(|p|, 4);
      LeToLe(first, 8);
      assert s[..4] == ToLe(|p|, 4) && s[4..12] == ToLe(first, 8);
      assert s[12..12 + |p|] == p && s[12 + |p|..] == rest;
      ParsePrinted(first + 1, payloads[1..]);
      assert [p] + payloads[1..] == payloads;
    }
  }

  lemma OnePacket(s: bytes, first: nat, len: nat)
    requires 12 + len <= |s| && Le(s[..4]) == len && Le(s[4..12]) == first
    ensures Packet(first, s[12..12 + len]) == s[..12 + len] && len < 0x1_0000_0000
  {
    Powers();
    LeRange(s[..4]);
    ToLeLe(s[..4]);
    ToLeLe(s[4..12]);
    hide Le, ToLe, Pow256;
    Tile(s, len);
  }

  lemma {:induction false} ParsedTile(s: bytes, first: nat)
    requires ParsePackets(s, first).Some?
    ensures GoodPayloads(ParsePackets(s, first).value)
    ensures Packets(first, ParsePackets(s, first).value) == s
    decreases |s|
  {
    hide Le, ToLe, Pow256, Packet;
    if s != [] {
      var len := Le(s[..4]);
      var rest := s[12 + len..];
      ParsedTile(rest, first + 1);
      OnePacket(s, first, len);
      var more, payloads := ParsePackets(rest, first + 1).value, ParsePackets(s, first).value;
      hide ParsePackets;
      assert payloads[0] == s[12..12 + len] && payloads[1..] == more;
      assert s == s[..12 + len] + rest;
    }
  }

  lemma Frame(file: bytes, at: nat)
    requires at + 12 <= |file|
    ensures file[at..][..4] == file[at..at + 12][..4] && file[at..][4..12] == file[at..at + 12][4..]
  {
    assert file[at..][4..12] == file[at..at + 12][4..];
  }

  lemma Tile(s: bytes, len: nat)
    requires 12 + len <= |s|
    ensures s[..12 + len] == s[..4] + s[4..12] + s[12..12 + len]
  {
  }

  method ValidateIvf(file: bytes, info: VideoInfo) returns (ok: bool)
    ensures ok <==> exists payloads :: IvfFile(file, info, payloads)
  {
    hide Le, GoodIvfHeader;
    var size := |file|;
    if size < 32 {
      return false;
    }
    if !GoodIvfHeader(file[..32], info) {
      return false;
    }
    ghost var whole := ParsePackets(file[32..], 0);
    forall payloads | IvfFile(file, info, payloads) ensures whole == Some(payloads) {
      ParsePrinted(0, payloads);
    }
    var offset, count := 32, 0;
    while offset < size
      invariant 32 <= offset <= size
      invariant whole.Some? <==> ParsePackets(file[offset..], count).Some?
      invariant whole.Some? ==> |whole.value| == count + |ParsePackets(file[offset..], count).value|
    {
      if size - offset < 12 {
        return false;
      }
      var frame := file[offset..offset + 12];
      var len, pts := Le(frame[..4]), Le(frame[4..]);
      Frame(file, offset);
      if !(pts == count && len > 0 && len <= size - offset - 12) {
        return false;
      }
      assert file[offset..][12 + len..] == file[offset + 12 + len..];
      offset := offset + 12 + len;
      count := count + 1;
    }
    assert file[offset..] == [];
    ok := count == info.frames;
    if ok {
      ParsedTile(file[32..], 0);
      assert IvfFile(file, info, whole.value);
    }
  }

  /** With a positive time scale the cross-multiplied test is equality of the two frame rates. */
  lemma TimebaseEquality(rate: nat, scale: nat, fpsN: nat, fpsD: nat)
    requires fpsD > 0
    ensures scale > 0 ==> (rate * fpsD == scale * fpsN <==> rate as real / scale as real == fpsN as real / fpsD as real)
    ensures scale == 0 ==> (rate * fpsD == scale * fpsN <==> rate == 0)
  {
    var r, s, n, d := rate as real, scale as real, fpsN as real, fpsD as real;
    assert (rate * fpsD) as real == r * d && (scale * fpsN) as real == s * n;
    if scale > 0 {
      assert r / s * s == r && n / d * d == n;
      CrossMultiply(r / s, n / d, s, d);
    } else {
      assert scale * fpsN == 0;
      assert rate > 0 ==> rate * fpsD > 0;
    }
  }

  lemma CrossMultiply(x: real, y: real, s: real, d: real)
    requires s > 0.0 && d > 0.0
    ensures x * s * d == s * (y * d) <==> x == y
  {
    assert x * s * d - s * (y * d) == (x - y) * (s * d);
    assert s * d > 0.0;
  }

  /** A header with rate 0 and scale 0 that passes for one source frame rate passes for every other. */
  lemma ZeroTimebaseAccepted(h: bytes, info: VideoInfo, fpsN: u32, fpsD: u32)
    requires |h| == 32 && Le(h[16..20]) == 0 && Le(h[20..24]) == 0
    ensures GoodIvfHeader(h, info) <==> GoodIvfHeader(h, info.(fpsN := fpsN, fpsD := fpsD))
  {
    hide Le;
    assert 0 * info.fpsD == 0 * fpsD == 0 * info.fpsN == 0 * fpsN == 0;
  }
}
