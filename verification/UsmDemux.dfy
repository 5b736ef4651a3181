/**
 The USM demuxer: an interleaved chunk file is cut into chunks and fed to one state machine per stream.  The
 outcome is shown to depend on each stream's own chunk sequence and not on the interleaving.
 */
module UsmDemux {
  import opened Bytes
  import opened Numbers
  import opened Sets
  import opened Sums
  import Text
  import UtfTable
  import UsmMask

  datatype Kind = Crid | Video | Audio | Alpha

  datatype Lane = Directory | Stream(kind: Kind, channel: byte)

  /** What the demuxer keeps of a chunk: which lane it belongs to, its type and its payload. */
  datatype Chunk = Chunk(kind: Kind, channel: byte, tag: nat, payload: bytes)

  const MAX_META := 0x100_0000

  // ----- the chunk layer

  function KindOf(sig: bytes): Option<Kind>
  {
    if sig == [0x43, 0x52, 0x49, 0x44] then Some(Crid)
    else if sig == [0x40, 0x53, 0x46, 0x56] then Some(Video)
    else if sig == [0x40, 0x53, 0x46, 0x41] then Some(Audio)
    else if sig == [0x40, 0x41, 0x4C, 0x50] then Some(Alpha)
    else None
  }

  function Signature(k: Kind): (sig: bytes)
    ensures |sig| == 4 && KindOf(sig) == Some(k)
  {
    match k
    case Crid => [0x43, 0x52, 0x49, 0x44]
    case Video => [0x40, 0x53, 0x46, 0x56]
    case Audio => [0x40, 0x53, 0x46, 0x41]
    case Alpha => [0x40, 0x41, 0x4C, 0x50]
  }

  /** A chunk and how many bytes of the file it covers. */
  datatype Cut = Cut(chunk: Chunk, size: nat)

  /** The chunk at the front of `s`; the file must open with the directory. */
  function ChunkAt(s: bytes, first: bool, limit: nat): (r: Option<Cut>)
    ensures r.Some? ==> 32 <= r.value.size <= |s|
  {
    if |s| < 32 then None else
    var n, header, padding := Be(s[4..8]) + 8, Be(s[8..10]), Be(s[10..12]);
    if !(n >= 32 && n <= |s| && header >= 24 && header + padding <= n - 8) then None else
    match KindOf(s[..4])
    case None => None
    case Some(kind) =>
      var tag, len := s[15] % 4, n - 8 - header - padding;
      if (first && !kind.Crid?) || len > limit || (tag != 0 && len > MAX_META) then None
      else Some(Cut(Chunk(kind, s[12], tag, s[8 + header..8 + header + len]), n))
  }

  /** All chunks of `s`, which they tile exactly. */
  function Chunks(s: bytes, first: bool, limit: nat): Option<seq<Chunk>>
    decreases |s|
  {
    if s == [] then Some([]) else
    match ChunkAt(s, first, limit)
    case None => None
    case Some(cut) =>
      match Chunks(s[cut.size..], false, limit)
      case None => None
      case Some(rest) => Some([cut.chunk] + rest)
  }

  // ----- one stream

  datatype VideoInfo = VideoInfo(
    width: nat, height: nat, displayWidth: nat, displayHeight: nat, frames: nat, fpsN: nat, fpsD: nat, codec: nat)

  /** `data` is what has been written to the stream's file. */
  datatype Track = Track(
    header: bool, ended: bool, video: Option<VideoInfo>, codec: Option<nat>, chunks: nat, data: bytes)

  const FRESH := Track(false, false, None, None, 0, [])

  /** The table names, keys and markers of the format; everything below holds for any choice of them. */
  datatype Names = Names(
    directory: bytes, audioHeader: bytes, videoHeader: bytes, contentsEnd: bytes, headerEnd: bytes, metadataEnd: bytes,
    stmid: bytes, chno: bytes, audioCodec: bytes, width: bytes, height: bytes, displayWidth: bytes,
    displayHeight: bytes, frames: bytes, fpsN: bytes, fpsD: bytes, videoCodec: bytes)

  const FORMAT := Names(
    Text.Literal("CRIUSF_DIR_STREAM"), Text.Literal("AUDIO_HDRINFO"), Text.Literal("VIDEO_HDRINFO"),
    Text.Literal("#CONTENTS END"), Text.Literal("#HEADER END"), Text.Literal("#METADATA END"), Text.Literal("stmid"),
    Text.Literal("chno"), Text.Literal("audio_codec"), Text.Literal("width"), Text.Literal("height"),
    Text.Literal("disp_width"), Text.Literal("disp_height"), Text.Literal("total_frames"), Text.Literal("framerate_n"),
    Text.Literal("framerate_d"), Text.Literal("mpeg_codec"))

  function Get(t: UtfTable.Fields, key: bytes): Option<nat>
  {
    if key in t && t[key] < 0x1_0000_0000 then Some(t[key]) else None
  }

  predicate GoodVideo(v: VideoInfo)
  {
    && 0 < v.frames <= 10_000_000 && v.fpsN > 0 && v.fpsD > 0 && v.fpsN <= 240 * v.fpsD
    && 0 < v.displayWidth <= v.width <= 16384 && 0 < v.displayHeight <= v.height <= 16384
    && (v.codec == 1 || v.codec == 9)
  }

  function VideoOf(names: Names, t: UtfTable.Fields): Option<VideoInfo>
  {
    var w, h := Get(t, names.width), Get(t, names.height);
    var dw, dh := Get(t, names.displayWidth), Get(t, names.displayHeight);
    var f, n, d, c := Get(t, names.frames), Get(t, names.fpsN), Get(t, names.fpsD), Get(t, names.videoCodec);
    if w.None? || h.None? || dw.None? || dh.None? || f.None? || n.None? || d.None? || c.None? then None else
    var v := VideoInfo(w.value, h.value, dw.value, dh.value, f.value, n.value, d.value, c.value);
    if GoodVideo(v) then Some(v) else None
  }

  /** The payload as it is written: only keyed video, alpha, and ADX-coded audio are masked. */
  function Clear(kind: Kind, codec: Option<nat>, masks: Option<UsmMask.Masks>, payload: bytes): (r: bytes)
    ensures |r| == |payload|
  {
    if masks.None? then payload
    else if kind.Audio? then if codec == Some(2) then UsmMask.DemaskAudio(payload, masks.value.audio) else payload
    else UsmMask.Demask(payload, masks.value.video)
  }

  function HeaderStep(names: Names, t: Track, c: Chunk): Option<Track>
  {
    if t.header then None else
    match UtfTable.Table(c.payload)
    case None => None
    case Some(row) =>
      if c.kind.Audio? then
        var codec := if names.audioCodec in row.fields then row.fields[names.audioCodec] else 2;
        if row.name == names.audioHeader && (codec == 2 || codec == 4)
        then Some(t.(header := true, codec := Some(codec))) else None
      else
        var video := VideoOf(names, row.fields);
        if row.name == names.videoHeader && video.Some? then Some(t.(header := true, video := video)) else None
  }

  function TrackStep(names: Names, masks: Option<UsmMask.Masks>, t: Track, c: Chunk): Option<Track>
  {
    if t.ended then None
    else if c.tag == 0 then
      if !t.header then None
      else Some(t.(chunks := t.chunks + 1, data := t.data + Clear(c.kind, t.codec, masks, c.payload)))
    else if c.tag == 1 then HeaderStep(names, t, c)
    else if c.tag == 2 then
      if names.contentsEnd <= c.payload then if t.chunks > 0 then Some(t.(ended := true)) else None
      else if names.headerEnd <= c.payload || names.metadataEnd <= c.payload then Some(t) else None
    else if UtfTable.Table(c.payload).Some? then Some(t) else None
  }

  /** One stream's machine on its own chunks. */
  function TrackRun(names: Names, masks: Option<UsmMask.Masks>, cs: seq<Chunk>): Option<Track>
  {
    if cs == [] then Some(FRESH) else
    match TrackRun(names, masks, cs[..|cs| - 1])
    case None => None
    case Some(t) => TrackStep(names, masks, t, cs[|cs| - 1])
  }

  // ----- the directory

  /** The streams that the first `n` rows of the directory declare; None when a row is unusable or repeated. */
  function Declared(names: Names, payload: bytes, n: nat): Option<set<Lane>>
  {
    if n == 0 then Some({}) else
    match Declared(names, payload, n - 1)
    case None => None
    case Some(seen) =>
      match UtfTable.TableRow(payload, n - 1)
      case None => None
      case Some(row) =>
        if names.stmid !in row.fields || row.fields[names.stmid] == 0 then Some(seen)
        else if row.fields[names.stmid] >= 0x1_0000_0000 then None
        else
          var kind := KindOf(ToBe(row.fields[names.stmid], 4));
          if names.chno !in row.fields || row.fields[names.chno] >= 0x100 || kind.None? || kind.value.Crid?
          then None else
          var lane := Stream(kind.value, row.fields[names.chno]);
          if lane in seen then None else Some(seen + {lane})
  }

  function DirectoryOf(names: Names, c: Chunk): Option<set<Lane>>
  {
    if c.tag != 1 then None else
    match UtfTable.Table(c.payload)
    case None => None
    case Some(row) =>
      if row.name != names.directory || |c.payload| < 32 || Be(c.payload[28..32]) > 4 then None
      else Declared(names, c.payload, Be(c.payload[28..32]))
  }

  /** Exactly one directory chunk may come; before it nothing is declared. */
  function DirectoryRun(names: Names, cs: seq<Chunk>): Option<Option<set<Lane>>>
  {
    if cs == [] then Some(None)
    else if |cs| > 1 then None
    else
      match DirectoryOf(names, cs[0])
      case None => None
      case Some(declared) => Some(Some(declared))
  }

  // ----- the whole demuxer

  datatype State = State(tracks: map<Lane, Track>, total: nat, declared: Option<set<Lane>>)

  const EMPTY := State(map[], 0, None)

  datatype Setup = Setup(names: Names, masks: Option<UsmMask.Masks>, limit: nat)

  function LaneOf(c: Chunk): Lane
  {
    if c.kind.Crid? then Directory else Stream(c.kind, c.channel)
  }

  function Weight(c: Chunk): nat
  {
    if c.kind.Crid? || c.tag != 0 then 0 else |c.payload|
  }

  /** The track that a stream chunk advances, before it does. */
  function Before(s: State, c: Chunk): Track
  {
    if LaneOf(c) in s.tracks then s.tracks[LaneOf(c)] else FRESH
  }

  function Step(u: Setup, s: State, c: Chunk): Option<State>
  {
    if c.kind.Crid? then
      if s.declared.Some? then None else
      match DirectoryOf(u.names, c)
      case None => None
      case Some(declared) => Some(s.(declared := Some(declared)))
    else
      var lane := LaneOf(c);
      if lane !in s.tracks && |s.tracks| >= 3 then None
      else if s.total + Weight(c) > u.limit then None
      else
        match TrackStep(u.names, u.masks, Before(s, c), c)
        case None => None
        case Some(t) => Some(State(s.tracks[lane := t], s.total + Weight(c), s.declared))
  }

  function Run(u: Setup, cs: seq<Chunk>): Option<State>
  {
    if cs == [] then Some(EMPTY) else
    match Run(u, cs[..|cs| - 1])
    case None => None
    case Some(s) => Step(u, s, cs[|cs| - 1])
  }

  function OfKind(tracks: map<Lane, Track>, k: Kind): set<Lane>
  {
    set l | l in tracks && l.Stream? && l.kind == k
  }

  predicate Complete(s: State)
  {
    && s.declared.Some? && (s.declared.value == {} || s.declared.value == s.tracks.Keys)
    && (forall l :: l in s.tracks ==> s.tracks[l].header && s.tracks[l].ended)
    && |OfKind(s.tracks, Video)| == 1 && |OfKind(s.tracks, Audio)| <= 1 && |OfKind(s.tracks, Alpha)| <= 1
  }

  function Demux(u: Setup, file: bytes): Option<map<Lane, Track>>
  {
    match Chunks(file, true, u.limit)
    case None => None
    case Some(cs) =>
      match Run(u, cs)
      case None => None
      case Some(s) => if Complete(s) then Some(s.tracks) else None
  }

  // ----- the loop of the source

  function RunFrom(u: Setup, s: State, cs: seq<Chunk>): Option<State>
    decreases |cs|
  {
    if cs == [] then Some(s) else
    match Step(u, s, cs[0])
    case None => None
    case Some(t) => RunFrom(u, t, cs[1..])
  }

  lemma {:induction false} RunFromAppend(u: Setup, s: State, cs: seq<Chunk>, c: Chunk)
    ensures RunFrom(u, s, cs + [c]) ==
      match RunFrom(u, s, cs) case None => None case Some(t) => Step(u, t, c)
    decreases |cs|
  {
    hide Step;
    if cs == [] {
      assert [c][1..] == [];
    } else {
      assert (cs + [c])[1..] == cs[1..] + [c];
      if Step(u, s, cs[0]).Some? {
        RunFromAppend(u, Step(u, s, cs[0]).value, cs[1..], c);
      }
    }
  }

  lemma {:induction false} RunIsRunFrom(u: Setup, cs: seq<Chunk>)
    ensures Run(u, cs) == RunFrom(u, EMPTY, cs)
  {
    hide Step;
    if cs != [] {
      RunIsRunFrom(u, cs[..|cs| - 1]);
      RunFromAppend(u, EMPTY, cs[..|cs| - 1], cs[|cs| - 1]);
      assert cs == cs[..|cs| - 1] + [cs[|cs| - 1]];
    }
  }

  /** One pass over the file: cut the next chunk, feed it, move on; then the completeness checks. */
  method Extract(u: Setup, file: bytes) returns (r: Option<map<Lane, Track>>)
    ensures r == Demux(u, file)
  {
    hide ChunkAt, Step, Complete;
    var pos := 0;
    var state := EMPTY;
    ghost var whole := Chunks(file, true, u.limit);
    if whole.Some? {
      RunIsRunFrom(u, whole.value);
    }
    assert file[0..] == file;
    while pos < |file|
      invariant pos <= |file|
      invariant var rest := Chunks(file[pos..], pos == 0, u.limit);
        && (whole.Some? <==> rest.Some?)
        && (whole.Some? ==> Run(u, whole.value) == RunFrom(u, state, rest.value))
    {
      var cut := ChunkAt(file[pos..], pos == 0, u.limit);
      if cut.None? {
        return None;
      }
      var next := Step(u, state, cut.value.chunk);
      CutSize(file[pos..], pos == 0, u.limit);
      assert file[pos..][cut.value.size..] == file[pos + cut.value.size..];
      ghost var rest := Chunks(file[pos + cut.value.size..], false, u.limit);
      if rest.Some? {
        assert ([cut.value.chunk] + rest.value)[1..] == rest.value;
      }
      if next.None? {
        return None;
      }
      state := next.value;
      pos := pos + cut.value.size;
    }
    assert file[pos..] == [];
    if Complete(state) {
      return Some(state.tracks);
    }
    return None;
  }

  lemma CutSize(s: bytes, first: bool, limit: nat)
    ensures ChunkAt(s, first, limit).Some? ==> 32 <= ChunkAt(s, first, limit).value.size <= |s|
  {
  }

  // ----- independence from the interleaving

  /** The subsequence of one lane. */
  function Project(cs: seq<Chunk>, lane: Lane): seq<Chunk>
  {
    if cs == [] then [] else
      var last := cs[|cs| - 1];
      Project(cs[..|cs| - 1], lane) + if LaneOf(last) == lane then [last] else []
  }

  function Lanes(cs: seq<Chunk>): set<Lane>
  {
    if cs == [] then {} else
      var last := cs[|cs| - 1];
      Lanes(cs[..|cs| - 1]) + if last.kind.Crid? then {} else {LaneOf(last)}
  }

  function Total(cs: seq<Chunk>): nat
  {
    if cs == [] then 0 else Total(cs[..|cs| - 1]) + Weight(cs[|cs| - 1])
  }

  function LaneRun(u: Setup, cs: seq<Chunk>, lane: Lane): Option<Track>
  {
    TrackRun(u.names, u.masks, Project(cs, lane))
  }

  function Declares(u: Setup, cs: seq<Chunk>): Option<Option<set<Lane>>>
  {
    DirectoryRun(u.names, Project(cs, Directory))
  }

  ghost predicate RunsOn(u: Setup, cs: seq<Chunk>, lanes: set<Lane>)
  {
    forall l :: l in lanes ==> LaneRun(u, cs, l).Some?
  }

  ghost predicate EveryTrackRuns(u: Setup, cs: seq<Chunk>)
  {
    RunsOn(u, cs, Lanes(cs))
  }

  /** What acceptance of a chunk list means lane by lane, with the two global bounds. */
  ghost predicate Accepted(u: Setup, cs: seq<Chunk>)
  {
    && EveryTrackRuns(u, cs) && |Lanes(cs)| <= 3 && Total(cs) <= u.limit && Declares(u, cs).Some?
  }

  ghost predicate Matches(u: Setup, cs: seq<Chunk>, s: State)
  {
    && s.tracks.Keys == Lanes(cs) && s.total == Total(cs) && Declares(u, cs) == Some(s.declared)
    && forall l :: l in s.tracks ==> LaneRun(u, cs, l) == Some(s.tracks[l])
  }

  lemma {:induction false} LaneProjection(cs: seq<Chunk>, lane: Lane)
    ensures lane.Stream? ==> (lane in Lanes(cs) <==> Project(cs, lane) != [])
    ensures Directory !in Lanes(cs)
  {
    if cs != [] {
      LaneProjection(cs[..|cs| - 1], lane);
    }
  }

  lemma Appended(cs: seq<Chunk>, c: Chunk)
    ensures Lanes(cs + [c]) == Lanes(cs) + if c.kind.Crid? then {} else {LaneOf(c)}
    ensures Total(cs + [c]) == Total(cs) + Weight(c)
  {
    assert (cs + [c])[..|cs|] == cs;
    hide Weight;
  }

  lemma ProjectStep(cs: seq<Chunk>, c: Chunk, lane: Lane)
    ensures Project(cs + [c], lane) == Project(cs, lane) + if LaneOf(c) == lane then [c] else []
  {
    assert (cs + [c])[..|cs|] == cs;
  }

  lemma LaneRunStep(u: Setup, cs: seq<Chunk>, c: Chunk, lane: Lane)
    ensures LaneRun(u, cs + [c], lane) ==
      if LaneOf(c) != lane then LaneRun(u, cs, lane) else
      match LaneRun(u, cs, lane) case None => None case Some(t) => TrackStep(u.names, u.masks, t, c)
  {
    ProjectStep(cs, c, lane);
    var own := Project(cs, lane);
    hide TrackStep, Project, LaneOf;
    assert (own + [c])[..|own|] == own;
    assert own + [] == own;
  }

  lemma FreshLane(u: Setup, cs: seq<Chunk>, lane: Lane)
    requires lane.Stream? && lane !in Lanes(cs)
    ensures LaneRun(u, cs, lane) == Some(FRESH)
  {
    LaneProjection(cs, lane);
  }

  lemma DeclaresStep(u: Setup, cs: seq<Chunk>, c: Chunk)
    ensures !c.kind.Crid? ==> Declares(u, cs + [c]) == Declares(u, cs)
    ensures c.kind.Crid? ==>
      (Declares(u, cs + [c]).Some? <==> Declares(u, cs) == Some(None) && DirectoryOf(u.names, c).Some?)
    ensures c.kind.Crid? && Declares(u, cs + [c]).Some? ==> Declares(u, cs + [c]) == Some(DirectoryOf(u.names, c))
  {
    ProjectStep(cs, c, Directory);
    var own := Project(cs, Directory);
    hide DirectoryOf, Project;
    assert own + [] == own;
  }

  lemma OtherLanes(u: Setup, cs: seq<Chunk>, c: Chunk)
    ensures forall l :: l in Lanes(cs) && l != LaneOf(c) ==> LaneRun(u, cs + [c], l) == LaneRun(u, cs, l)
  {
    forall l | l in Lanes(cs) && l != LaneOf(c) ensures LaneRun(u, cs + [c], l) == LaneRun(u, cs, l) {
      LaneRunStep(u, cs, c, l);
    }
  }

  lemma DirectoryTracks(u: Setup, cs: seq<Chunk>, c: Chunk)
    requires EveryTrackRuns(u, cs) && c.kind.Crid?
    ensures EveryTrackRuns(u, cs + [c]) && Lanes(cs + [c]) == Lanes(cs)
    ensures forall l :: l in Lanes(cs) ==> LaneRun(u, cs + [c], l) == LaneRun(u, cs, l)
  {
    Appended(cs, c);
    OtherLanes(u, cs, c);
    LaneProjection(cs, Directory);
    hide LaneRun, Lanes;
    assert LaneOf(c) == Directory;
    assert Lanes(cs + [c]) == Lanes(cs);
  }

  lemma DirectoryStep(u: Setup, cs: seq<Chunk>, s: State, c: Chunk)
    requires Matches(u, cs, s) && Accepted(u, cs) && c.kind.Crid?
    ensures Step(u, s, c).Some? <==> Accepted(u, cs + [c])
    ensures Step(u, s, c).Some? ==> Matches(u, cs + [c], Step(u, s, c).value)
  {
    hide EveryTrackRuns, LaneRun, Declares, Lanes, Total, DirectoryOf, TrackStep, Weight, LaneOf, Before;
    Appended(cs, c);
    DeclaresStep(u, cs, c);
    DirectoryTracks(u, cs, c);
    DirectoryWeighsNothing(c);
  }

  lemma DirectoryWeighsNothing(c: Chunk)
    requires c.kind.Crid?
    ensures Weight(c) == 0
  {
  }

  lemma OwnLane(u: Setup, cs: seq<Chunk>, s: State, c: Chunk)
    requires Matches(u, cs, s) && !c.kind.Crid?
    ensures LaneRun(u, cs + [c], LaneOf(c)) == TrackStep(u.names, u.masks, Before(s, c), c)
  {
    LaneRunStep(u, cs, c, LaneOf(c));
    if LaneOf(c) !in Lanes(cs) {
      FreshLane(u, cs, LaneOf(c));
    }
    hide TrackStep, LaneRun, Lanes, Total, Declares;
  }

  lemma RunsOnMore(u: Setup, cs: seq<Chunk>, ds: seq<Chunk>, lanes: set<Lane>, lane: Lane)
    requires RunsOn(u, cs, lanes) && forall l :: l in lanes && l != lane ==> LaneRun(u, ds, l) == LaneRun(u, cs, l)
    ensures RunsOn(u, ds, lanes + {lane}) <==> LaneRun(u, ds, lane).Some?
  {
    hide LaneRun;
  }

  lemma EveryTrackStep(u: Setup, cs: seq<Chunk>, s: State, c: Chunk)
    requires Matches(u, cs, s) && EveryTrackRuns(u, cs) && !c.kind.Crid?
    ensures EveryTrackRuns(u, cs + [c]) <==> TrackStep(u.names, u.masks, Before(s, c), c).Some?
  {
    hide LaneRun, Lanes, TrackStep, Before, LaneOf, RunsOn;
    Appended(cs, c);
    OtherLanes(u, cs, c);
    OwnLane(u, cs, s, c);
    RunsOnMore(u, cs, cs + [c], Lanes(cs), LaneOf(c));
  }

  lemma RoomForLane(cs: seq<Chunk>, c: Chunk)
    requires !c.kind.Crid?
    ensures |Lanes(cs + [c])| == |Lanes(cs)| + if LaneOf(c) in Lanes(cs) then 0 else 1
  {
    Appended(cs, c);
    hide *;
    SizeWith(Lanes(cs), LaneOf(c));
  }

  /** A stream chunk is accepted when there is room for its lane and its bytes and its own machine takes it. */
  lemma StreamAccepted(u: Setup, cs: seq<Chunk>, s: State, c: Chunk)
    requires Matches(u, cs, s) && Accepted(u, cs) && !c.kind.Crid?
    ensures Accepted(u, cs + [c]) <==> Step(u, s, c).Some?
  {
    EveryTrackStep(u, cs, s, c);
    Appended(cs, c);
    DeclaresStep(u, cs, c);
    RoomForLane(cs, c);
    assert |s.tracks| == |s.tracks.Keys|;
    hide EveryTrackRuns, LaneRun, Declares, Lanes, Total, TrackStep, Weight, LaneOf, Before;
  }

  lemma StreamStep(u: Setup, cs: seq<Chunk>, s: State, c: Chunk)
    requires Matches(u, cs, s) && !c.kind.Crid? && Step(u, s, c).Some?
    ensures Matches(u, cs + [c], Step(u, s, c).value)
  {
    hide LaneRun, Declares, Lanes, Total, TrackStep, Weight, LaneOf, Before;
    var t := Step(u, s, c).value;
    Appended(cs, c);
    DeclaresStep(u, cs, c);
    OtherLanes(u, cs, c);
    OwnLane(u, cs, s, c);
    forall l | l in t.tracks ensures LaneRun(u, cs + [c], l) == Some(t.tracks[l]) {
      if l != LaneOf(c) {
        assert l in Lanes(cs);
      }
    }
  }

  /** A list that is refused stays refused whatever follows. */
  lemma RefusalIsFinal(u: Setup, cs: seq<Chunk>, c: Chunk)
    requires Accepted(u, cs + [c])
    ensures Accepted(u, cs)
  {
    hide LaneRun, Declares, Lanes, Total, Weight, TrackStep, DirectoryOf, RunsOn;
    Appended(cs, c);
    DeclaresStep(u, cs, c);
    RunsOnFewer(u, cs, c);
    SubsetSize(Lanes(cs), Lanes(cs + [c]));
  }

  lemma RunsOnFewer(u: Setup, cs: seq<Chunk>, c: Chunk)
    requires RunsOn(u, cs + [c], Lanes(cs + [c]))
    ensures RunsOn(u, cs, Lanes(cs))
  {
    hide LaneRun, Lanes, TrackStep, LaneOf;
    Appended(cs, c);
    forall l | l in Lanes(cs) ensures LaneRun(u, cs, l).Some? {
      LaneRunStep(u, cs, c, l);
      assert l in Lanes(cs + [c]);
    }
  }

  /** The machine over the whole list is the product of the machines over the lanes. */
  lemma {:induction false} RunIsLanewise(u: Setup, cs: seq<Chunk>)
    ensures Run(u, cs).Some? <==> Accepted(u, cs)
    ensures Run(u, cs).Some? ==> Matches(u, cs, Run(u, cs).value)
    decreases |cs|
  {
    hide Step, Weight, TrackStep, LaneRun, DirectoryOf;
    if cs == [] {
    } else {
      hide Accepted, Matches;
      var before, c := cs[..|cs| - 1], cs[|cs| - 1];
      assert before + [c] == cs;
      RunIsLanewise(u, before);
      if Run(u, before).None? {
        if Accepted(u, cs) {
          RefusalIsFinal(u, before, c);
        }
      } else if c.kind.Crid? {
        DirectoryStep(u, before, Run(u, before).value, c);
      } else {
        StreamAccepted(u, before, Run(u, before).value, c);
        if Run(u, cs).Some? {
          StreamStep(u, before, Run(u, before).value, c);
        }
      }
    }
  }

  ghost predicate SameLanes(cs: seq<Chunk>, ds: seq<Chunk>)
  {
    forall l :: Project(cs, l) == Project(ds, l)
  }

  lemma {:induction false} ProjectCounts(cs: seq<Chunk>, c: Chunk)
    ensures multiset(cs)[c] == multiset(Project(cs, LaneOf(c)))[c]
  {
    if cs != [] {
      var before, last := cs[..|cs| - 1], cs[|cs| - 1];
      ProjectCounts(before, c);
      assert cs == before + [last];
      assert Project(cs, LaneOf(c)) == Project(before, LaneOf(c)) + if LaneOf(last) == LaneOf(c) then [last] else [];
    }
  }

  lemma {:induction false} TotalOfConcat(a: seq<Chunk>, b: seq<Chunk>)
    ensures Total(a + b) == Total(a) + Total(b)
  {
    if b == [] {
      assert a + b == a;
    } else {
      assert (a + b)[..|a + b| - 1] == a + b[..|b| - 1];
      TotalOfConcat(a, b[..|b| - 1]);
    }
  }

  lemma TotalOfOne(c: Chunk)
    ensures Total([c]) == Weight(c)
  {
    assert [c][..0] == [];
  }

  lemma TotalWithout(ds: seq<Chunk>, i: nat)
    requires i < |ds|
    ensures Total(ds) == Total(ds[..i] + ds[i + 1..]) + Weight(ds[i])
  {
    hide *;
    var before, c, after := ds[..i], ds[i], ds[i + 1..];
    assert ds == before + ([c] + after);
    TotalOfConcat(before, [c] + after);
    TotalOfConcat([c], after);
    TotalOfConcat(before, after);
    TotalOfOne(c);
  }

  lemma CountsWithout(ds: seq<Chunk>, i: nat)
    requires i < |ds|
    ensures multiset(ds[..i] + ds[i + 1..]) == multiset(ds) - multiset{ds[i]}
  {
    assert ds == ds[..i] + [ds[i]] + ds[i + 1..];
  }

  lemma {:induction false} TotalOfPermutation(cs: seq<Chunk>, ds: seq<Chunk>)
    requires multiset(cs) == multiset(ds)
    ensures Total(cs) == Total(ds)
    decreases |cs|
  {
    if cs == [] {
      assert |multiset(ds)| == |ds|;
    } else {
      var last := |cs| - 1;
      assert cs[last] in multiset(ds);
      var i :| 0 <= i < |ds| && ds[i] == cs[last];
      CountsWithout(cs, last);
      CountsWithout(ds, i);
      TotalWithout(cs, last);
      TotalWithout(ds, i);
      hide Total, Weight;
      TotalOfPermutation(cs[..last] + cs[last + 1..], ds[..i] + ds[i + 1..]);
    }
  }

  lemma SameLanesSameTotals(cs: seq<Chunk>, ds: seq<Chunk>)
    requires SameLanes(cs, ds)
    ensures Total(cs) == Total(ds) && Lanes(cs) == Lanes(ds)
  {
    forall c: Chunk ensures multiset(cs)[c] == multiset(ds)[c] {
      ProjectCounts(cs, c);
      ProjectCounts(ds, c);
    }
    TotalOfPermutation(cs, ds);
    forall l: Lane ensures l in Lanes(cs) <==> l in Lanes(ds) {
      LaneProjection(cs, l);
      LaneProjection(ds, l);
    }
  }

  /** The lanes, the total and the lane machines determine the state. */
  lemma StateDetermined(u: Setup, cs: seq<Chunk>, ds: seq<Chunk>, s: State, t: State)
    requires Matches(u, cs, s) && Matches(u, ds, t) && Total(cs) == Total(ds) && Lanes(cs) == Lanes(ds)
    requires Declares(u, cs) == Declares(u, ds) && forall l :: LaneRun(u, cs, l) == LaneRun(u, ds, l)
    ensures s == t
  {
    hide LaneRun, Declares, Lanes, Total;
    forall l | l in s.tracks ensures s.tracks[l] == t.tracks[l] {
      assert LaneRun(u, cs, l) == Some(s.tracks[l]) && LaneRun(u, ds, l) == Some(t.tracks[l]);
    }
    assert s.tracks == t.tracks;
  }

  lemma SameAcceptance(u: Setup, cs: seq<Chunk>, ds: seq<Chunk>)
    requires Total(cs) == Total(ds) && Lanes(cs) == Lanes(ds)
    requires Declares(u, cs) == Declares(u, ds) && forall l :: LaneRun(u, cs, l) == LaneRun(u, ds, l)
    ensures Accepted(u, cs) <==> Accepted(u, ds)
  {
    hide LaneRun, Declares, Lanes, Total;
  }

  /** Two interleavings of the same lanes reach the same state or are both refused. */
  lemma RunIgnoresInterleaving(u: Setup, cs: seq<Chunk>, ds: seq<Chunk>)
    requires SameLanes(cs, ds)
    ensures Run(u, cs) == Run(u, ds)
  {
    SameLanesSameTotals(cs, ds);
    forall l ensures LaneRun(u, cs, l) == LaneRun(u, ds, l) {
      hide TrackRun, Project;
    }
    assert Declares(u, cs) == Declares(u, ds);
    hide *;
    RunIsLanewise(u, cs);
    RunIsLanewise(u, ds);
    SameAcceptance(u, cs, ds);
    if Run(u, cs).Some? {
      StateDetermined(u, cs, ds, Run(u, cs).value, Run(u, ds).value);
    }
  }

  /** Two files that interleave the same lanes give the same streams or are both refused. */
  lemma DemuxIgnoresInterleaving(u: Setup, file: bytes, other: bytes)
    requires Chunks(file, true, u.limit).Some? && Chunks(other, true, u.limit).Some?
    requires SameLanes(Chunks(file, true, u.limit).value, Chunks(other, true, u.limit).value)
    ensures Demux(u, file) == Demux(u, other)
  {
    RunIgnoresInterleaving(u, Chunks(file, true, u.limit).value, Chunks(other, true, u.limit).value);
    hide Chunks, Run, Complete;
  }

  // ----- what is written

  /** The payload chunks of one stream, unmasked and joined in order. */
  function Joined(codec: Option<nat>, masks: Option<UsmMask.Masks>, cs: seq<Chunk>): bytes
  {
    if cs == [] then [] else
      var last := cs[|cs| - 1];
      Joined(codec, masks, cs[..|cs| - 1]) + if last.tag == 0 then Clear(last.kind, codec, masks, last.payload) else []
  }

  predicate NoPayload(cs: seq<Chunk>)
  {
    forall i :: 0 <= i < |cs| ==> cs[i].tag != 0
  }

  lemma {:induction false} NothingJoined(codec: Option<nat>, masks: Option<UsmMask.Masks>, cs: seq<Chunk>)
    requires NoPayload(cs)
    ensures Joined(codec, masks, cs) == []
  {
    if cs != [] {
      NothingJoined(codec, masks, cs[..|cs| - 1]);
    }
  }

  /** A stream's file holds exactly its payloads in order, all unmasked with the codec its one header named. */
  lemma {:induction false} TrackData(names: Names, masks: Option<UsmMask.Masks>, cs: seq<Chunk>)
    ensures var r := TrackRun(names, masks, cs);
      r.Some? ==>
        && r.value.data == Joined(r.value.codec, masks, cs)
        && (!r.value.header ==> NoPayload(cs) && r.value.data == [])
  {
    hide Clear, UtfTable.Table, VideoOf;
    if cs != [] {
      var before := cs[..|cs| - 1];
      TrackData(names, masks, before);
      var r := TrackRun(names, masks, cs);
      if r.Some? && !TrackRun(names, masks, before).value.header {
        NothingJoined(r.value.codec, masks, before);
      }
    }
  }

  function DataSize(t: Track): nat
  {
    |t.data|
  }

  ghost function Written(tracks: map<Lane, Track>): nat
  {
    Sum(tracks, DataSize)
  }

  lemma TrackGrows(names: Names, masks: Option<UsmMask.Masks>, t: Track, c: Chunk)
    requires !c.kind.Crid?
    ensures var r := TrackStep(names, masks, t, c); r.Some? ==> |r.value.data| == |t.data| + Weight(c)
  {
    hide UtfTable.Table, VideoOf;
  }

  /** The running total is the number of bytes written to all streams and stays within the limit. */
  lemma {:induction false} RunTotal(u: Setup, cs: seq<Chunk>)
    ensures var r := Run(u, cs); r.Some? ==> r.value.total == Written(r.value.tracks) && r.value.total <= u.limit
    decreases |cs|
  {
    if cs != [] {
      var before, c := Run(u, cs[..|cs| - 1]), cs[|cs| - 1];
      RunTotal(u, cs[..|cs| - 1]);
      if before.Some? && !c.kind.Crid? && Run(u, cs).Some? {
        var tracks, lane := before.value.tracks, LaneOf(c);
        TrackGrows(u.names, u.masks, Before(before.value, c), c);
        hide TrackStep, Weight, DirectoryOf;
        SumUpdate(tracks, DataSize, lane, Run(u, cs).value.tracks[lane]);
      }
      hide TrackStep, Weight, DirectoryOf;
    }
  }

  /** Every accepted file: each stream is the in-order join of its own payloads, and all together stay in the limit. */
  lemma DemuxOutput(u: Setup, file: bytes)
    requires Demux(u, file).Some?
    ensures Chunks(file, true, u.limit).Some?
    ensures var cs, out := Chunks(file, true, u.limit).value, Demux(u, file).value;
      && out.Keys == Lanes(cs) && Written(out) == Total(cs) <= u.limit
      && forall l :: l in out ==> out[l].data == Joined(out[l].codec, u.masks, Project(cs, l))
  {
    var cs, out := Chunks(file, true, u.limit).value, Demux(u, file).value;
    RunIsLanewise(u, cs);
    RunTotal(u, cs);
    forall l | l in out ensures out[l].data == Joined(out[l].codec, u.masks, Project(cs, l)) {
      assert LaneRun(u, cs, l) == Some(out[l]);
      TrackData(u.names, u.masks, Project(cs, l));
    }
  }

  // ----- the chunks tile the file

  function Join(pieces: seq<bytes>): bytes
  {
    if pieces == [] then [] else pieces[0] + Join(pieces[1..])
  }

  /** Each piece on its own is one whole chunk; only the first must be the directory. */
  ghost predicate Tile(pieces: seq<bytes>, cs: seq<Chunk>, first: bool, limit: nat)
    requires |pieces| == |cs|
  {
    forall i :: 0 <= i < |cs| ==> ChunkAt(pieces[i], first && i == 0, limit) == Some(Cut(cs[i], |pieces[i]|))
  }

  lemma ChunkStandsAlone(s: bytes, rest: bytes, first: bool, limit: nat)
    requires ChunkAt(s + rest, first, limit).Some? && ChunkAt(s + rest, first, limit).value.size == |s|
    ensures ChunkAt(s, first, limit) == ChunkAt(s + rest, first, limit)
  {
    SameHead(s, rest);
    var t := s + rest;
    var header, padding := Be(t[8..10]), Be(t[10..12]);
    var len := |s| - 8 - header - padding;
    assert Be(t[4..8]) + 8 == |s|;
    hide Be, KindOf;
    SameSlice(s, rest, 8 + header, 8 + header + len);
  }

  lemma SameSlice(s: bytes, rest: bytes, i: nat, j: nat)
    requires i <= j <= |s|
    ensures (s + rest)[i..j] == s[i..j]
  {
  }

  lemma SameHead(s: bytes, rest: bytes)
    requires |s| >= 32
    ensures (s + rest)[..4] == s[..4] && (s + rest)[4..8] == s[4..8]
    ensures (s + rest)[8..10] == s[8..10] && (s + rest)[10..12] == s[10..12]
    ensures (s + rest)[12] == s[12] && (s + rest)[15] == s[15]
  {
  }

  lemma ChunkInFront(s: bytes, rest: bytes, first: bool, limit: nat)
    requires ChunkAt(s, first, limit).Some? && ChunkAt(s, first, limit).value.size == |s|
    ensures ChunkAt(s + rest, first, limit) == ChunkAt(s, first, limit)
  {
    SameHead(s, rest);
    var t := s + rest;
    var header, padding := Be(s[8..10]), Be(s[10..12]);
    var len := |s| - 8 - header - padding;
    assert Be(s[4..8]) + 8 == |s|;
    hide Be, KindOf;
    SameSlice(s, rest, 8 + header, 8 + header + len);
  }

  /** An accepted file is cut into pieces that cover it exactly, one chunk each. */
  lemma {:induction false} ChunksTile(s: bytes, first: bool, limit: nat) returns (pieces: seq<bytes>)
    requires Chunks(s, first, limit).Some?
    ensures |pieces| == |Chunks(s, first, limit).value| && Join(pieces) == s
    ensures Tile(pieces, Chunks(s, first, limit).value, first, limit)
    decreases |s|
  {
    if s == [] {
      return [];
    }
    var cut := ChunkAt(s, first, limit).value;
    var head, rest := s[..cut.size], s[cut.size..];
    assert s == head + rest;
    ChunkStandsAlone(head, rest, first, limit);
    hide ChunkAt;
    var more := ChunksTile(rest, false, limit);
    pieces := [head] + more;
    assert pieces[1..] == more;
    var cs := Chunks(s, first, limit).value;
    forall i | 0 <= i < |cs|
      ensures ChunkAt(pieces[i], first && i == 0, limit) == Some(Cut(cs[i], |pieces[i]|))
    {
      if i > 0 {
        assert pieces[i] == more[i - 1];
      }
    }
  }

  /** Conversely, whatever is joined from pieces that are one chunk each is cut back into those chunks. */
  lemma {:induction false} TilesAreChunks(pieces: seq<bytes>, cs: seq<Chunk>, first: bool, limit: nat)
    requires |pieces| == |cs| && Tile(pieces, cs, first, limit)
    ensures Chunks(Join(pieces), first, limit) == Some(cs)
    decreases |pieces|
  {
    if pieces == [] {
      return;
    }
    var rest := Join(pieces[1..]);
    assert ChunkAt(pieces[0], first && 0 == 0, limit) == Some(Cut(cs[0], |pieces[0]|));
    CutSize(pieces[0], first, limit);
    ChunkInFront(pieces[0], rest, first, limit);
    hide ChunkAt;
    forall i | 0 <= i < |cs| - 1
      ensures ChunkAt(pieces[1..][i], false, limit) == Some(Cut(cs[1..][i], |pieces[1..][i]|))
    {
      assert pieces[1..][i] == pieces[i + 1] && cs[1..][i] == cs[i + 1];
    }
    TilesAreChunks(pieces[1..], cs[1..], false, limit);
    assert (pieces[0] + rest)[|pieces[0]|..] == rest;
    assert [cs[0]] + cs[1..] == cs;
  }

  // ----- the chunk printer

  function Zeroes(n: nat): (z: bytes)
    ensures |z| == n
  {
    seq(n, _ => 0)
  }

  predicate Fits(c: Chunk)
  {
    c.tag < 4 && |c.payload| + 24 < 0x1_0000_0000
  }

  /** One chunk with the shortest header and no padding. */
  function Print(c: Chunk): bytes
    requires Fits(c)
  {
    Signature(c.kind) + ToBe(|c.payload| + 24, 4) + ToBe(24, 2) + [0, 0, c.channel, 0, 0, c.tag] + Zeroes(16) +
    c.payload
  }

  predicate Printable(c: Chunk, first: bool, limit: nat)
  {
    && Fits(c) && |c.payload| <= limit
    && (c.tag != 0 ==> |c.payload| <= MAX_META) && (first ==> c.kind.Crid?)
  }

  lemma PrintLayout(c: Chunk)
    requires Fits(c)
    ensures var p := Print(c);
      && |p| == 32 + |c.payload| && p[..4] == Signature(c.kind) && p[4..8] == ToBe(|c.payload| + 24, 4)
      && p[8..10] == ToBe(24, 2) && p[10] == 0 && p[11] == 0 && p[12] == c.channel && p[15] == c.tag
      && p[32..] == c.payload
  {
    hide Signature, ToBe, Zeroes;
    assert |Signature(c.kind)| == 4 && |ToBe(|c.payload| + 24, 4)| == 4 && |ToBe(24, 2)| == 2 && |Zeroes(16)| == 16;
  }

  lemma PrintNumbers(c: Chunk)
    requires Fits(c)
    ensures var p := Print(c);
      |p| == 32 + |c.payload| && Be(p[4..8]) == |c.payload| + 24 && Be(p[8..10]) == 24 && Be(p[10..12]) == 0
  {
    var p := Print(c);
    PrintLayout(c);
    Powers();
    BeToBe(|c.payload| + 24, 4);
    BeToBe(24, 2);
    BeToBe(0, 2);
    assert p[10..12] == ToBe(0, 2) by {
      assert ToBe(0, 2) == [0, 0];
    }
    hide *;
  }

  /** A printed chunk is read back whole, with nothing left over. */
  lemma ChunkRoundTrip(c: Chunk, first: bool, limit: nat)
    requires Printable(c, first, limit)
    ensures ChunkAt(Print(c), first, limit) == Some(Cut(c, 32 + |c.payload|))
    ensures |Print(c)| == 32 + |c.payload|
  {
    var p := Print(c);
    PrintNumbers(c);
    PrintLayout(c);
    assert KindOf(p[..4]) == Some(c.kind);
    hide Be, ToBe, Print, KindOf, Signature;
    assert p[32..32 + |c.payload|] == c.payload;
  }

  function PrintAll(cs: seq<Chunk>): seq<bytes>
    requires forall i :: 0 <= i < |cs| ==> Fits(cs[i])
  {
    seq(|cs|, i requires 0 <= i < |cs| => Print(cs[i]))
  }

  /** Any printable list of chunks that opens with a directory is read back from its printed file. */
  lemma ChunksRoundTrip(cs: seq<Chunk>, limit: nat)
    requires forall i :: 0 <= i < |cs| ==> Fits(cs[i]) && Printable(cs[i], i == 0, limit)
    ensures Chunks(Join(PrintAll(cs)), true, limit) == Some(cs)
  {
    var pieces := PrintAll(cs);
    forall i | 0 <= i < |cs| ensures ChunkAt(pieces[i], true && i == 0, limit) == Some(Cut(cs[i], |pieces[i]|)) {
      ChunkRoundTrip(cs[i], i == 0, limit);
    }
    TilesAreChunks(pieces, cs, true, limit);
  }
}
