/**
 The two checked layouts as what they print: exactly the waveform tables and packet files that can be printed from good
 values are accepted.
 */
module LayoutPrinters {
  import opened Bytes
  import opened Numbers
  import opened Layouts
  import opened Tables

  // ----- waveform tables

  /** `first` and `extra` are not looked at, nor is `subkey`. */
  datatype Awb = Awb(
    first: byte, offsetSize: byte, idSize: byte, extra: byte, alignment: nat, subkey: nat, ids: seq<nat>,
    offsets: seq<nat>)

  function PrintAwbHead(t: Awb): (r: bytes)
    ensures |r| == 16
  {
    [0x41, 0x46, 0x53, 0x32, t.first, t.offsetSize, t.idSize, t.extra] +
    ToLe(|t.ids|, 4) + ToLe(t.alignment, 2) + ToLe(t.subkey, 2)
  }

  function PrintAwb(t: Awb): bytes
  {
    PrintAwbHead(t) + PrintTable(t.ids, t.idSize) + PrintTable(t.offsets, t.offsetSize)
  }

  /** The offset after which entry `i` may come: the end of the table, or the aligned start of the segment before. */
  function Floor(t: Awb, i: nat): nat
    requires i < |t.offsets| && t.alignment > 0
  {
    if i == 0 then |PrintAwb(t)| else AlignUp(t.offsets[i - 1], t.alignment)
  }

  /** Distinct ids, and offsets that ascend past each aligned start and stay inside `size` bytes. */
  ghost predicate GoodAwb(t: Awb, size: nat)
  {
    && t.offsetSize in {2, 4} && t.idSize in {2, 4} && 0 < t.alignment < 0x1_0000 && t.subkey < 0x1_0000
    && |t.ids| <= 10_000 && |t.offsets| == |t.ids| + 1 && |PrintAwb(t)| <= size
    && Small(t.ids, t.idSize) && Small(t.offsets, t.offsetSize)
    && (forall i, j :: 0 <= i < j < |t.ids| ==> t.ids[i] != t.ids[j])
    && (forall i :: 0 <= i < |t.offsets| ==> Floor(t, i) <= t.offsets[i] <= size)
    && forall i :: 0 <= i < |t.ids| ==> AlignUp(t.offsets[i], t.alignment) <= size
  }

  ghost predicate Prints(data: bytes, t: Awb)
  {
    PrintAwb(t) <= data
  }

  lemma PrintedHead(data: bytes, t: Awb)
    requires Prints(data, t) && t.alignment < 0x1_0000 && |t.ids| <= 10_000
    ensures |data| >= 16 && AFS2 <= data
    ensures AwbHeader(data) == Header(|t.ids|, t.offsetSize, t.idSize, t.alignment)
  {
    var head := PrintAwbHead(t);
    hide ToLe, Le;
    assert head <= PrintAwb(t) && head <= data by {
      assert PrintAwb(t)[..16] == head;
      assert data[..16] == PrintAwb(t)[..16];
    }
    assert data[8..12] == head[8..12] == ToLe(|t.ids|, 4) && data[12..14] == head[12..14] == ToLe(t.alignment, 2);
    assert data[5] == head[5] && data[6] == head[6];
    assert forall i :: 0 <= i < 4 ==> data[i] == head[i];
    Powers();
    LeToLe(|t.ids|, 4);
    LeToLe(t.alignment, 2);
  }

  lemma PrintedRegions(data: bytes, t: Awb)
    requires Prints(data, t)
    ensures var ids, offsets := PrintTable(t.ids, t.idSize), PrintTable(t.offsets, t.offsetSize);
      && |PrintAwb(t)| == 16 + |ids| + |offsets| <= |data|
      && data[16..16 + |ids|] == ids && data[16 + |ids|..16 + |ids| + |offsets|] == offsets
  {
    hide PrintAwbHead, PrintTable;
    var p, ids, offsets := PrintAwb(t), PrintTable(t.ids, t.idSize), PrintTable(t.offsets, t.offsetSize);
    assert data[..|p|] == p;
    assert p[16..16 + |ids|] == ids && p[16 + |ids|..] == offsets;
    Section(data, 0, p, 16, 16 + |ids|);
    Section(data, 0, p, 16 + |ids|, |p|);
  }

  lemma PrintedNumber(data: bytes, at: nat, values: seq<nat>, size: nat, i: nat)
    requires Small(values, size) && i < |values| && at + |values| * size <= |data|
    requires data[at..at + |values| * size] == PrintTable(values, size)
    ensures Entry(data, at, |values|, size, i) == values[i]
  {
    hide Le, PrintTable, Small;
    TableEntry(values, size, i);
    EntryFits(at, |values|, size, i);
    var table, from := PrintTable(values, size), i * size;
    Section(data, at, table, from, from + size);
    assert data[at + from..at + from + size] == table[from..from + size];
  }

  lemma PrintedEntries(data: bytes, t: Awb)
    requires Prints(data, t) && t.alignment < 0x1_0000 && |t.ids| <= 10_000 && |t.offsets| == |t.ids| + 1
    requires Small(t.ids, t.idSize) && Small(t.offsets, t.offsetSize)
    ensures |data| >= 16 && AFS2 <= data
    ensures var h := AwbHeader(data);
      && h == Header(|t.ids|, t.offsetSize, t.idSize, t.alignment) && TableEnd(h) == |PrintAwb(t)| <= |data|
      && (forall i :: 0 <= i < h.count ==> WaveId(data, h, i) == t.ids[i])
      && forall i :: 0 <= i <= h.count ==> Offset(data, h, i) == t.offsets[i]
  {
    PrintedHead(data, t);
    PrintedRegions(data, t);
    hide AwbHeader, PrintAwb, Le, PrintTable, Entry, Small, Prints;
    var h := AwbHeader(data);
    forall i | 0 <= i < h.count ensures WaveId(data, h, i) == t.ids[i] {
      PrintedNumber(data, 16, t.ids, t.idSize, i);
    }
    forall i | 0 <= i <= h.count ensures Offset(data, h, i) == t.offsets[i] {
      PrintedNumber(data, OffsetsAt(h), t.offsets, t.offsetSize, i);
    }
  }

  lemma LayoutOfPrint(data: bytes, t: Awb)
    requires Prints(data, t) && t.alignment < 0x1_0000 && |t.ids| <= 10_000 && |t.offsets| == |t.ids| + 1
    requires Small(t.ids, t.idSize) && Small(t.offsets, t.offsetSize) && t.subkey < 0x1_0000
    ensures AwbLayout(data) <==> GoodAwb(t, |data|)
    ensures AwbLayout(data) ==> forall track: int :: Refers(data, track) <==> track in t.ids
  {
    PrintedEntries(data, t);
    var h := AwbHeader(data);
    hide AwbHeader, PrintAwb, WaveId, Offset, Small, AlignUp;
    if GoodAwbHeader(h) {
      assert Ordered(data, h, h.count + 1) <==> OffsetsClimb(t, |data|) by {
        OrderedIsClimbing(data, t);
      }
    }
    if AwbLayout(data) {
      forall track: int ensures Refers(data, track) <==> track in t.ids {
        if track in t.ids {
          var i :| 0 <= i < |t.ids| && t.ids[i] == track;
          assert WaveId(data, h, i) == track;
        }
      }
    }
  }

  ghost predicate OffsetsClimb(t: Awb, size: nat)
    requires t.alignment > 0 && |t.offsets| == |t.ids| + 1
  {
    && (forall i :: 0 <= i < |t.offsets| ==> Floor(t, i) <= t.offsets[i] <= size)
    && forall i :: 0 <= i < |t.ids| ==> AlignUp(t.offsets[i], t.alignment) <= size
  }

  lemma OrderedIsClimbing(data: bytes, t: Awb)
    requires |data| >= 16 && |t.offsets| == |t.ids| + 1 && t.alignment > 0
    requires var h := AwbHeader(data);
      && h == Header(|t.ids|, t.offsetSize, t.idSize, t.alignment) && TableEnd(h) == |PrintAwb(t)| <= |data|
      && forall i :: 0 <= i <= h.count ==> Offset(data, h, i) == t.offsets[i]
    ensures Ordered(data, AwbHeader(data), AwbHeader(data).count + 1) <==> OffsetsClimb(t, |data|)
  {
    var h := AwbHeader(data);
    hide AwbHeader, PrintAwb, Offset, AlignUp, TableEnd;
    forall i | 0 <= i <= h.count
      ensures Link(data, h, i) <==>
        Floor(t, i) <= t.offsets[i] <= |data| && (i < h.count ==> AlignUp(t.offsets[i], t.alignment) <= |data|)
    {
    }
  }

  /** Every accepted table is the print of its values. */
  lemma LayoutIsPrinted(data: bytes) returns (t: Awb)
    requires |data| >= 16 && AFS2 <= data && TableEnd(AwbHeader(data)) <= |data|
    ensures Prints(data, t) && t.alignment < 0x1_0000 && |t.offsets| == |t.ids| + 1
    ensures |t.ids| == AwbHeader(data).count && t.subkey < 0x1_0000
    ensures Small(t.ids, t.idSize) && Small(t.offsets, t.offsetSize)
  {
    hide Le, ToLe, PrintTable;
    var h := AwbHeader(data);
    var idEnd, end := 16 + h.count * h.idSize, TableEnd(h);
    assert end == idEnd + (h.count + 1) * h.offsetSize;
    var ids := TableRead(data[16..idEnd], h.count, h.idSize);
    var offsets := TableRead(data[idEnd..end], h.count + 1, h.offsetSize);
    t := Awb(data[4], data[5], data[6], data[7], Le(data[12..14]), Le(data[14..16]), ids, offsets);
    HeadIsPrinted(data, t);
    hide PrintAwbHead, AwbHeader, TableEnd;
    assert data[..end] == data[..16] + data[16..idEnd] + data[idEnd..end];
  }

  lemma HeadIsPrinted(data: bytes, t: Awb)
    requires |data| >= 16 && AFS2 <= data && |t.ids| == Le(data[8..12])
    requires t.first == data[4] && t.offsetSize == data[5] && t.idSize == data[6] && t.extra == data[7]
    requires t.alignment == Le(data[12..14]) && t.subkey == Le(data[14..16])
    ensures data[..16] == PrintAwbHead(t) && t.alignment < 0x1_0000 && t.subkey < 0x1_0000
  {
    Powers();
    LeRange(data[12..14]);
    LeRange(data[14..16]);
    ToLeLe(data[8..12]);
    ToLeLe(data[12..14]);
    ToLeLe(data[14..16]);
    hide Le, ToLe;
    assert data[..8] == [0x41, 0x46, 0x53, 0x32, t.first, t.offsetSize, t.idSize, t.extra];
    assert data[..16] == data[..8] + data[8..12] + data[12..14] + data[14..16];
  }

  /** Exactly the prints of good tables are accepted, and a track may refer to exactly the ids that were printed. */
  lemma AwbExact(data: bytes)
    ensures AwbLayout(data) <==> exists t :: Prints(data, t) && GoodAwb(t, |data|)
    ensures forall t :: Prints(data, t) && GoodAwb(t, |data|) ==>
      AwbLayout(data) && forall track: int :: Refers(data, track) <==> track in t.ids
  {
    hide Prints, GoodAwb, AwbLayout, Refers;
    forall t | Prints(data, t) && GoodAwb(t, |data|)
      ensures AwbLayout(data) && forall track: int :: Refers(data, track) <==> track in t.ids
    {
      GoodIsSmall(t, |data|);
      LayoutOfPrint(data, t);
    }
    if AwbLayout(data) {
      AcceptedHead(data);
      var t := LayoutIsPrinted(data);
      LayoutOfPrint(data, t);
    }
  }

  lemma GoodIsSmall(t: Awb, size: nat)
    requires GoodAwb(t, size)
    ensures t.alignment < 0x1_0000 && |t.ids| <= 10_000 && |t.offsets| == |t.ids| + 1
    ensures Small(t.ids, t.idSize) && Small(t.offsets, t.offsetSize) && t.subkey < 0x1_0000
  {
  }

  lemma AcceptedHead(data: bytes)
    requires AwbLayout(data)
    ensures |data| >= 16 && AFS2 <= data && TableEnd(AwbHeader(data)) <= |data| && AwbHeader(data).count <= 10_000
  {
  }

  // ----- packet files

  /** The frame rate is `rate` over `scale`; the last word is not looked at. */
  datatype IvfHead = IvfHead(width: nat, height: nat, rate: nat, scale: nat, frames: nat, spare: nat)

  predicate FitsIvf(p: IvfHead)
  {
    && p.width < 0x1_0000 && p.height < 0x1_0000 && p.rate < 0x1_0000_0000 && p.scale < 0x1_0000_0000
    && p.frames < 0x1_0000_0000 && p.spare < 0x1_0000_0000
  }

  function PrintIvfHead(p: IvfHead): (r: bytes)
    ensures |r| == 32
  {
    [0x44, 0x4B, 0x49, 0x46, 0, 0, 0x20, 0, 0x56, 0x50, 0x39, 0x30] + ToLe(p.width, 2) + ToLe(p.height, 2) +
    ToLe(p.rate, 4) + ToLe(p.scale, 4) + ToLe(p.frames, 4) + ToLe(p.spare, 4)
  }

  /** The header agrees with the video: its size, its number of frames, and its frame rate cross-multiplied. */
  predicate Agrees(p: IvfHead, info: VideoInfo)
  {
    && p.width == info.width && p.height == info.height && p.frames == info.frames
    && p.rate * info.fpsD == p.scale * info.fpsN
  }

  /** A printed header and as many numbered packets as it declares, none empty. */
  ghost predicate PrintsIvf(file: bytes, p: IvfHead, payloads: seq<bytes>)
  {
    && FitsIvf(p) && |payloads| == p.frames && file == PrintIvfHead(p) + Packets(0, payloads)
    && forall i :: 0 <= i < |payloads| ==> 0 < |payloads[i]| < 0x1_0000_0000
  }

  lemma HeadFields(p: IvfHead)
    requires FitsIvf(p)
    ensures var h := PrintIvfHead(p);
      && h[..12] == [0x44, 0x4B, 0x49, 0x46, 0, 0, 0x20, 0, 0x56, 0x50, 0x39, 0x30]
      && Le(h[12..14]) == p.width && Le(h[14..16]) == p.height && Le(h[16..20]) == p.rate && Le(h[20..24]) == p.scale
      && Le(h[24..28]) == p.frames
  {
    var h := PrintIvfHead(p);
    Powers();
    LeToLe(p.width, 2);
    LeToLe(p.height, 2);
    LeToLe(p.rate, 4);
    LeToLe(p.scale, 4);
    LeToLe(p.frames, 4);
    hide Le, ToLe;
    assert h[12..14] == ToLe(p.width, 2) && h[14..16] == ToLe(p.height, 2);
    assert h[16..20] == ToLe(p.rate, 4) && h[20..24] == ToLe(p.scale, 4) && h[24..28] == ToLe(p.frames, 4);
  }

  /** Every header with the right first twelve bytes is a print. */
  lemma HeadRead(h: bytes) returns (p: IvfHead)
    requires |h| == 32 && h[..12] == [0x44, 0x4B, 0x49, 0x46, 0, 0, 0x20, 0, 0x56, 0x50, 0x39, 0x30]
    ensures FitsIvf(p) && h == PrintIvfHead(p)
  {
    p := IvfHead(Le(h[12..14]), Le(h[14..16]), Le(h[16..20]), Le(h[20..24]), Le(h[24..28]), Le(h[28..32]));
    Powers();
    LeRange(h[12..14]);
    LeRange(h[14..16]);
    LeRange(h[16..20]);
    LeRange(h[20..24]);
    LeRange(h[24..28]);
    LeRange(h[28..32]);
    ToLeLe(h[12..14]);
    ToLeLe(h[14..16]);
    ToLeLe(h[16..20]);
    ToLeLe(h[20..24]);
    ToLeLe(h[24..28]);
    ToLeLe(h[28..32]);
    hide Le, ToLe, Pow256;
    assert h == h[..12] + h[12..14] + h[14..16] + h[16..20] + h[20..24] + h[24..28] + h[28..32];
  }

  /** Exactly the prints of packets under a header that agrees with the video are accepted. */
  lemma IvfExact(file: bytes, info: VideoInfo)
    ensures (exists payloads :: IvfFile(file, info, payloads)) <==>
      exists p, payloads :: PrintsIvf(file, p, payloads) && Agrees(p, info)
  {
    hide Le, ToLe, Packets, PrintIvfHead;
    if payloads :| IvfFile(file, info, payloads) {
      var p := HeadRead(file[..32]);
      HeadFields(p);
      assert file == file[..32] + file[32..];
      assert PrintsIvf(file, p, payloads) && Agrees(p, info);
    }
    if p, payloads :| PrintsIvf(file, p, payloads) && Agrees(p, info) {
      HeadFields(p);
      assert file[..32] == PrintIvfHead(p) && file[32..] == Packets(0, payloads);
      assert IvfFile(file, info, payloads);
    }
  }
}
