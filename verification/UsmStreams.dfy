/**
 What the demuxer accepts and what it writes, said of the chunks themselves: a grammar for the chunks of one stream,
 the streams that a directory names, and the content of every stream.  Nothing here follows the machine's steps.
 */
module UsmStreams {
  import opened Bytes
  import opened Numbers
  import opened UsmDemux
  import UtfTable
  import UsmMask

  // ----- the grammar of one stream

  /** The codec that an audio header names: 2 when it names none. */
  function CodecIn(names: Names, fields: UtfTable.Fields): nat
  {
    if names.audioCodec in fields then fields[names.audioCodec] else 2
  }

  /** The eight numbers of a video header are there and within their limits. */
  ghost predicate VideoFields(names: Names, t: UtfTable.Fields, v: VideoInfo)
  {
    && names.width in t && t[names.width] == v.width && names.height in t && t[names.height] == v.height
    && names.displayWidth in t && t[names.displayWidth] == v.displayWidth
    && names.displayHeight in t && t[names.displayHeight] == v.displayHeight
    && names.frames in t && t[names.frames] == v.frames
    && names.fpsN in t && t[names.fpsN] == v.fpsN && names.fpsD in t && t[names.fpsD] == v.fpsD
    && names.videoCodec in t && t[names.videoCodec] == v.codec
    && 0 < v.displayWidth <= v.width <= 16384 && 0 < v.displayHeight <= v.height <= 16384
    && 0 < v.frames <= 10_000_000 && 0 < v.fpsD < 0x1_0000_0000 && 0 < v.fpsN < 0x1_0000_0000
    && v.fpsN <= 240 * v.fpsD && v.codec in {1, 9}
  }

  /** A header chunk of its stream. */
  ghost predicate GoodHeader(names: Names, c: Chunk)
  {
    UtfTable.Table(c.payload).Some? && var row := UtfTable.Table(c.payload).value;
    if c.kind == Audio then row.name == names.audioHeader && CodecIn(names, row.fields) in {2, 4}
    else row.name == names.videoHeader && exists v :: VideoFields(names, row.fields, v)
  }

  predicate Ends(names: Names, c: Chunk)
  {
    c.tag == 2 && names.contentsEnd <= c.payload
  }

  ghost predicate Has(cs: seq<Chunk>, n: nat, tag: nat)
    requires n <= |cs|
  {
    exists j :: 0 <= j < n && cs[j].tag == tag
  }

  /** Chunk `i` may stand where it does. */
  ghost predicate Fitting(names: Names, cs: seq<Chunk>, i: nat)
    requires i < |cs|
  {
    && (forall j :: 0 <= j < i ==> !Ends(names, cs[j]))
    && (cs[i].tag == 0 ==> Has(cs, i, 1))
    && (cs[i].tag == 1 ==> !Has(cs, i, 1) && GoodHeader(names, cs[i]))
    && (cs[i].tag == 2 ==>
          if names.contentsEnd <= cs[i].payload then Has(cs, i, 0)
          else names.headerEnd <= cs[i].payload || names.metadataEnd <= cs[i].payload)
    && (cs[i].tag > 2 ==> UtfTable.Table(cs[i].payload).Some?)
  }

  /** One header before any payload, known markers, and nothing after the end, which needs a payload before it. */
  ghost predicate Grammar(names: Names, cs: seq<Chunk>)
  {
    forall i :: 0 <= i < |cs| ==> Fitting(names, cs, i)
  }

  /** The payloads of the chunks that carry one, in order. */
  function Payloads(cs: seq<Chunk>): seq<bytes>
  {
    if cs == [] then [] else
      var front, last := Payloads(cs[..|cs| - 1]), cs[|cs| - 1];
      if last.tag == 0 then front + [last.payload] else front
  }

  /** What the state of a stream says about the chunks it has taken. */
  ghost predicate Follows(names: Names, cs: seq<Chunk>, t: Track)
  {
    && (t.header <==> Has(cs, |cs|, 1)) && t.chunks == |Payloads(cs)| && (t.chunks > 0 <==> Has(cs, |cs|, 0))
    && (t.ended <==> exists j :: 0 <= j < |cs| && Ends(names, cs[j]))
  }

  lemma VideoRead(names: Names, t: UtfTable.Fields)
    ensures VideoOf(names, t).Some? ==> VideoFields(names, t, VideoOf(names, t).value)
    ensures forall v :: VideoFields(names, t, v) ==> VideoOf(names, t) == Some(v)
  {
  }

  lemma HeaderAccepted(names: Names, t: Track, c: Chunk)
    requires c.tag == 1
    ensures HeaderStep(names, t, c).Some? <==> !t.header && GoodHeader(names, c)
  {
    hide VideoOf, VideoFields, UtfTable.Table;
    if UtfTable.Table(c.payload).Some? {
      VideoRead(names, UtfTable.Table(c.payload).value.fields);
    }
  }

  lemma FittingFront(names: Names, cs: seq<Chunk>, i: nat)
    requires i < |cs| - 1
    ensures Fitting(names, cs, i) <==> Fitting(names, cs[..|cs| - 1], i)
  {
    hide GoodHeader, Ends, UtfTable.Table;
    var front := cs[..|cs| - 1];
    assert forall j :: 0 <= j <= i ==> front[j] == cs[j];
    assert Has(front, i, 0) <==> Has(cs, i, 0);
    assert Has(front, i, 1) <==> Has(cs, i, 1);
  }

  lemma GrammarStep(names: Names, cs: seq<Chunk>)
    requires cs != []
    ensures Grammar(names, cs) <==> Grammar(names, cs[..|cs| - 1]) && Fitting(names, cs, |cs| - 1)
  {
    hide Fitting;
    var front := cs[..|cs| - 1];
    if Grammar(names, cs) {
      forall i | 0 <= i < |front| ensures Fitting(names, front, i) {
        assert Fitting(names, cs, i);
        FittingFront(names, cs, i);
      }
    }
    if Grammar(names, front) && Fitting(names, cs, |front|) {
      forall i | 0 <= i < |cs| ensures Fitting(names, cs, i) {
        if i < |front| {
          assert Fitting(names, front, i);
          FittingFront(names, cs, i);
        }
      }
    }
  }

  lemma HasStep(cs: seq<Chunk>, tag: nat)
    requires cs != []
    ensures var front := cs[..|cs| - 1];
      && (Has(front, |front|, tag) <==> Has(cs, |front|, tag))
      && (Has(cs, |cs|, tag) <==> Has(cs, |front|, tag) || cs[|front|].tag == tag)
  {
    var front := cs[..|cs| - 1];
    assert forall j :: 0 <= j < |front| ==> front[j] == cs[j];
  }

  lemma EndsStep(names: Names, cs: seq<Chunk>)
    requires cs != []
    ensures var front := cs[..|cs| - 1];
      && ((exists j :: 0 <= j < |front| && Ends(names, front[j])) <==>
            exists j :: 0 <= j < |front| && Ends(names, cs[j]))
      && ((exists j :: 0 <= j < |cs| && Ends(names, cs[j])) <==>
            (exists j :: 0 <= j < |front| && Ends(names, cs[j])) || Ends(names, cs[|front|]))
  {
    hide Ends;
    var front := cs[..|cs| - 1];
    assert forall j :: 0 <= j < |front| ==> front[j] == cs[j];
  }

  lemma StepFits(names: Names, masks: Option<UsmMask.Masks>, cs: seq<Chunk>, t: Track)
    requires cs != [] && Follows(names, cs[..|cs| - 1], t)
    ensures TrackStep(names, masks, t, cs[|cs| - 1]).Some? <==> Fitting(names, cs, |cs| - 1)
  {
    HasStep(cs, 0);
    HasStep(cs, 1);
    EndsStep(names, cs);
    if cs[|cs| - 1].tag == 1 {
      HeaderAccepted(names, t, cs[|cs| - 1]);
    }
    hide Has, GoodHeader, UtfTable.Table, HeaderStep, Clear, Payloads;
  }

  lemma EndsIs(names: Names, c: Chunk)
    ensures Ends(names, c) <==> c.tag == 2 && names.contentsEnd <= c.payload
  {
  }

  lemma StepFollows(names: Names, masks: Option<UsmMask.Masks>, cs: seq<Chunk>, t: Track)
    requires cs != [] && Follows(names, cs[..|cs| - 1], t)
    ensures var r := TrackStep(names, masks, t, cs[|cs| - 1]); r.Some? ==> Follows(names, cs, r.value)
  {
    HasStep(cs, 0);
    HasStep(cs, 1);
    EndsStep(names, cs);
    hide Has, GoodHeader, UtfTable.Table, VideoOf, Clear, Ends;
    assert cs[|cs| - 1].tag == 2 ==>
      (Ends(names, cs[|cs| - 1]) <==> names.contentsEnd <= cs[|cs| - 1].payload) by { EndsIs(names, cs[|cs| - 1]); }
  }

  /** The machine of one stream accepts exactly the grammar. */
  lemma {:induction false} TrackAccepts(names: Names, masks: Option<UsmMask.Masks>, cs: seq<Chunk>)
    ensures TrackRun(names, masks, cs).Some? <==> Grammar(names, cs)
    ensures TrackRun(names, masks, cs).Some? ==> Follows(names, cs, TrackRun(names, masks, cs).value)
  {
    hide TrackStep, Fitting, Ends;
    if cs != [] {
      var front := cs[..|cs| - 1];
      TrackAccepts(names, masks, front);
      GrammarStep(names, cs);
      hide Grammar, Follows;
      if TrackRun(names, masks, front).Some? {
        StepFits(names, masks, cs, TrackRun(names, masks, front).value);
        StepFollows(names, masks, cs, TrackRun(names, masks, front).value);
      }
    }
  }

  // ----- what one stream holds

  function Each(parts: seq<bytes>, f: bytes -> bytes): (r: seq<bytes>)
    ensures |r| == |parts| && forall i :: 0 <= i < |parts| ==> r[i] == f(parts[i])
  {
    seq(|parts|, i requires 0 <= i < |parts| => f(parts[i]))
  }

  lemma {:induction false} JoinSnoc(parts: seq<bytes>, last: bytes)
    ensures Join(parts + [last]) == Join(parts) + last
  {
    if parts == [] {
      assert [last][1..] == [];
    } else {
      JoinSnoc(parts[1..], last);
      assert (parts + [last])[1..] == parts[1..] + [last];
    }
  }

  predicate SameKind(cs: seq<Chunk>, kind: Kind)
  {
    forall i :: 0 <= i < |cs| ==> cs[i].kind == kind
  }

  lemma {:induction false} JoinedIsJoin(
    codec: Option<nat>, masks: Option<UsmMask.Masks>, kind: Kind, cs: seq<Chunk>, f: bytes -> bytes)
    requires SameKind(cs, kind) && forall p :: Clear(kind, codec, masks, p) == f(p)
    ensures Joined(codec, masks, cs) == Join(Each(Payloads(cs), f))
  {
    hide Clear;
    if cs != [] {
      var front, last := cs[..|cs| - 1], cs[|cs| - 1];
      JoinedIsJoin(codec, masks, kind, front, f);
      if last.tag == 0 {
        JoinSnoc(Each(Payloads(front), f), f(last.payload));
        assert Each(Payloads(cs), f) == Each(Payloads(front), f) + [f(last.payload)];
      } else {
        assert Joined(codec, masks, front) + [] == Joined(codec, masks, front);
      }
    }
  }

  lemma JoinedPlain(codec: Option<nat>, masks: Option<UsmMask.Masks>, kind: Kind, cs: seq<Chunk>)
    requires SameKind(cs, kind) && forall p :: Clear(kind, codec, masks, p) == p
    ensures Joined(codec, masks, cs) == Join(Payloads(cs))
  {
    hide Clear;
    var same: bytes -> bytes := p => p;
    JoinedIsJoin(codec, masks, kind, cs, same);
    assert Each(Payloads(cs), same) == Payloads(cs);
  }

  /** What the header chunk of a stream left in its state. */
  ghost predicate Named(names: Names, kind: Kind, cs: seq<Chunk>, t: Track)
  {
    forall i :: 0 <= i < |cs| && cs[i].tag == 1 ==>
      && t.header && GoodHeader(names, cs[i]) && UtfTable.Table(cs[i].payload).Some?
      && var fields := UtfTable.Table(cs[i].payload).value.fields;
      && (kind == Audio ==> t.codec == Some(CodecIn(names, fields)) && t.codec.value in {2, 4})
      && (kind != Audio ==> t.video.Some? && VideoFields(names, fields, t.video.value))
  }

  lemma HeaderNames(names: Names, t: Track, c: Chunk)
    requires c.tag == 1 && HeaderStep(names, t, c).Some?
    ensures var u := HeaderStep(names, t, c).value;
      && !t.header && u.header && GoodHeader(names, c) && UtfTable.Table(c.payload).Some?
      && var fields := UtfTable.Table(c.payload).value.fields;
      && (c.kind == Audio ==> u.codec == Some(CodecIn(names, fields)) && u.codec.value in {2, 4})
      && (c.kind != Audio ==> u.video.Some? && VideoFields(names, fields, u.video.value))
  {
    HeaderAccepted(names, t, c);
    VideoRead(names, UtfTable.Table(c.payload).value.fields);
    hide VideoOf, VideoFields, UtfTable.Table, GoodHeader;
  }

  lemma {:induction false} TrackNames(names: Names, masks: Option<UsmMask.Masks>, kind: Kind, cs: seq<Chunk>)
    requires SameKind(cs, kind) && TrackRun(names, masks, cs).Some?
    ensures Named(names, kind, cs, TrackRun(names, masks, cs).value)
  {
    hide HeaderStep, GoodHeader, VideoFields, UtfTable.Table, Clear;
    if cs != [] {
      var front, last := cs[..|cs| - 1], cs[|cs| - 1];
      var t := TrackRun(names, masks, front).value;
      TrackNames(names, masks, kind, front);
      if last.tag == 1 {
        HeaderNames(names, t, last);
      }
      assert forall i :: 0 <= i < |front| ==> cs[i] == front[i];
    }
  }

  /** The unmasking of video and alpha, and that of ADX audio. */
  function VideoWriter(masks: UsmMask.Masks): bytes -> bytes
  {
    b => UsmMask.Demask(b, masks.video)
  }

  function AudioWriter(masks: UsmMask.Masks): bytes -> bytes
  {
    b => UsmMask.DemaskAudio(b, masks.audio)
  }

  /**
   What the file of one stream holds.  Without a key: its payloads as they are.  With one: video and alpha payloads
   each unmasked with the video mask; audio payloads each unmasked with the audio mask when the header chunk names
   codec 2 or none, and as they are when it names codec 4.
   */
  ghost predicate Content(names: Names, masks: Option<UsmMask.Masks>, kind: Kind, cs: seq<Chunk>, data: bytes)
  {
    && (masks.None? ==> data == Join(Payloads(cs)))
    && (masks.Some? && (kind == Video || kind == Alpha) ==>
          data == Join(Each(Payloads(cs), VideoWriter(masks.value))))
    && (masks.Some? && kind == Audio ==> forall i :: 0 <= i < |cs| && cs[i].tag == 1 ==>
          && UtfTable.Table(cs[i].payload).Some?
          && var fields := UtfTable.Table(cs[i].payload).value.fields;
          && (names.audioCodec !in fields || fields[names.audioCodec] == 2 ==>
                data == Join(Each(Payloads(cs), AudioWriter(masks.value))))
          && (names.audioCodec in fields && fields[names.audioCodec] != 2 ==>
                fields[names.audioCodec] == 4 && data == Join(Payloads(cs))))
  }

  lemma StreamContent(names: Names, masks: Option<UsmMask.Masks>, kind: Kind, cs: seq<Chunk>)
    requires kind != Crid && SameKind(cs, kind) && TrackRun(names, masks, cs).Some?
    ensures Content(names, masks, kind, cs, TrackRun(names, masks, cs).value.data)
  {
    var t := TrackRun(names, masks, cs).value;
    TrackData(names, masks, cs);
    hide UsmMask.Demask, UsmMask.DemaskAudio;
    if masks.None? {
      JoinedPlain(t.codec, masks, kind, cs);
    } else if kind != Audio {
      JoinedIsJoin(t.codec, masks, kind, cs, VideoWriter(masks.value));
    } else {
      TrackNames(names, masks, kind, cs);
      hide TrackRun, GoodHeader, VideoFields, UtfTable.Table;
      if t.codec == Some(2) {
        JoinedIsJoin(t.codec, masks, kind, cs, AudioWriter(masks.value));
      } else {
        JoinedPlain(t.codec, masks, kind, cs);
      }
    }
  }

  // ----- the directory

  /** The stream that a row of the directory names: the four letters of its kind as a number, and its channel. */
  ghost predicate RowNames(names: Names, fields: UtfTable.Fields, lane: Option<Lane>)
  {
    if names.stmid !in fields || fields[names.stmid] == 0 then lane == None
    else
      && lane.Some? && lane.value.Stream? && lane.value.kind != Crid
      && fields[names.stmid] == Be(Signature(lane.value.kind))
      && names.chno in fields && fields[names.chno] == lane.value.channel
  }

  /** The first rows name these streams, none twice. */
  ghost predicate RowsName(names: Names, payload: bytes, lanes: seq<Option<Lane>>, declared: set<Lane>)
  {
    && (forall i :: 0 <= i < |lanes| ==>
          UtfTable.TableRow(payload, i).Some? && RowNames(names, UtfTable.TableRow(payload, i).value.fields, lanes[i]))
    && (forall i, j :: 0 <= i < j < |lanes| && lanes[i].Some? ==> lanes[i] != lanes[j])
    && forall l :: l in declared <==> Some(l) in lanes
  }

  ghost predicate GoodDirectory(names: Names, c: Chunk, declared: set<Lane>)
  {
    && c.tag == 1 && |c.payload| >= 32 && Be(c.payload[28..32]) <= 4
    && UtfTable.Table(c.payload).Some? && UtfTable.Table(c.payload).value.name == names.directory
    && exists lanes: seq<Option<Lane>> ::
      |lanes| == Be(c.payload[28..32]) && RowsName(names, c.payload, lanes, declared)
  }

  lemma SignatureNumber(n: nat, kind: Kind)
    requires n < 0x1_0000_0000
    ensures KindOf(ToBe(n, 4)) == Some(kind) <==> n == Be(Signature(kind))
    ensures Be(Signature(kind)) < 0x1_0000_0000
  {
    Powers();
    BeRange(Signature(kind));
    BeToBe(n, 4);
    ToBeBe(Signature(kind));
    hide Be, ToBe;
  }

  /** What one row says, in the words of the machine. */
  lemma RowRead(names: Names, fields: UtfTable.Fields, lane: Option<Lane>)
    ensures RowNames(names, fields, lane) <==>
      if names.stmid !in fields || fields[names.stmid] == 0 then lane == None
      else
        && fields[names.stmid] < 0x1_0000_0000 && names.chno in fields && fields[names.chno] < 0x100
        && KindOf(ToBe(fields[names.stmid], 4)).Some? && KindOf(ToBe(fields[names.stmid], 4)).value != Crid
        && lane == Some(Stream(KindOf(ToBe(fields[names.stmid], 4)).value, fields[names.chno]))
  {
    if names.stmid in fields && fields[names.stmid] < 0x1_0000_0000 {
      forall kind: Kind
        ensures KindOf(ToBe(fields[names.stmid], 4)) == Some(kind) <==> fields[names.stmid] == Be(Signature(kind))
      {
        SignatureNumber(fields[names.stmid], kind);
      }
    }
    if lane.Some? && lane.value.Stream? {
      SignatureNumber(0, lane.value.kind);
    }
    hide Be, ToBe, KindOf, Signature;
  }

  lemma {:induction false} DeclaredNames(names: Names, payload: bytes, n: nat) returns (lanes: seq<Option<Lane>>)
    requires Declared(names, payload, n).Some?
    ensures |lanes| == n && RowsName(names, payload, lanes, Declared(names, payload, n).value)
  {
    hide UtfTable.TableRow, KindOf, ToBe;
    lanes := [];
    if n > 0 {
      var front := DeclaredNames(names, payload, n - 1);
      var fields := UtfTable.TableRow(payload, n - 1).value.fields;
      var lane :=
        if names.stmid !in fields || fields[names.stmid] == 0 then None
        else Some(Stream(KindOf(ToBe(fields[names.stmid], 4)).value, fields[names.chno]));
      RowRead(names, fields, lane);
      hide RowNames;
      lanes := front + [lane];
    }
  }

  lemma {:induction false} NamesDeclared(names: Names, payload: bytes, lanes: seq<Option<Lane>>, declared: set<Lane>)
    requires RowsName(names, payload, lanes, declared)
    ensures Declared(names, payload, |lanes|) == Some(declared)
    decreases |lanes|
  {
    hide UtfTable.TableRow, KindOf, ToBe;
    if lanes == [] {
      assert declared == {};
    } else {
      var front, last := lanes[..|lanes| - 1], lanes[|lanes| - 1];
      assert lanes == front + [last];
      var before := if last.Some? then declared - {last.value} else declared;
      RowRead(names, UtfTable.TableRow(payload, |front|).value.fields, last);
      hide RowNames;
      NamesDeclared(names, payload, front, before);
      if last.Some? {
        assert declared == before + {last.value};
      }
    }
  }

  lemma DirectoryReads(names: Names, c: Chunk, declared: set<Lane>)
    ensures DirectoryOf(names, c) == Some(declared) <==> GoodDirectory(names, c, declared)
  {
    hide UtfTable.Table, Declared, RowsName;
    if DirectoryOf(names, c) == Some(declared) {
      var lanes := DeclaredNames(names, c.payload, Be(c.payload[28..32]));
    }
    if GoodDirectory(names, c, declared) {
      var lanes: seq<Option<Lane>> :|
        |lanes| == Be(c.payload[28..32]) && RowsName(names, c.payload, lanes, declared);
      NamesDeclared(names, c.payload, lanes, declared);
    }
  }

  // ----- whole files

  /** The streams of one kind among these. */
  function LanesOf(lanes: set<Lane>, kind: Kind): set<Lane>
  {
    set l | l in lanes && l.Stream? && l.kind == kind
  }

  /** A stream that is accepted and complete: by its grammar, with a header and an end. */
  ghost predicate WholeStream(names: Names, cs: seq<Chunk>)
  {
    && Grammar(names, cs) && Has(cs, |cs|, 1) && exists j :: 0 <= j < |cs| && Ends(names, cs[j])
  }

  /** One directory, whole streams, and exactly the streams that the directory names, unless it names none. */
  ghost predicate GoodChunks(u: Setup, cs: seq<Chunk>)
  {
    && (exists declared ::
          && GoodDirectoryChunks(u.names, Project(cs, Directory), declared)
          && (declared == {} || declared == Lanes(cs)))
    && (forall l :: l in Lanes(cs) ==> WholeStream(u.names, Project(cs, l)))
    && Total(cs) <= u.limit && |Lanes(cs)| <= 3
    && |LanesOf(Lanes(cs), Video)| == 1 && |LanesOf(Lanes(cs), Audio)| <= 1 && |LanesOf(Lanes(cs), Alpha)| <= 1
  }

  ghost predicate GoodDirectoryChunks(names: Names, cs: seq<Chunk>, declared: set<Lane>)
  {
    |cs| == 1 && GoodDirectory(names, cs[0], declared)
  }

  lemma DirectoryDeclares(u: Setup, cs: seq<Chunk>, declared: set<Lane>)
    ensures Declares(u, cs) == Some(Some(declared)) <==>
      GoodDirectoryChunks(u.names, Project(cs, Directory), declared)
  {
    var own := Project(cs, Directory);
    if |own| == 1 {
      DirectoryReads(u.names, own[0], declared);
    }
    hide Project, DirectoryOf, GoodDirectory;
  }

  lemma StreamsAccepted(u: Setup, cs: seq<Chunk>, l: Lane)
    ensures LaneRun(u, cs, l).Some? <==> Grammar(u.names, Project(cs, l))
    ensures LaneRun(u, cs, l).Some? ==>
      (LaneRun(u, cs, l).value.header && LaneRun(u, cs, l).value.ended <==> WholeStream(u.names, Project(cs, l)))
  {
    TrackAccepts(u.names, u.masks, Project(cs, l));
    hide TrackRun, Project, Grammar, Has, Ends, Payloads;
  }

  lemma FinalChecks(u: Setup, cs: seq<Chunk>, s: State)
    requires Accepted(u, cs) && Matches(u, cs, s)
    ensures Complete(s) <==> GoodChunks(u, cs)
  {
    hide LaneRun, Lanes, Total, Project, Declares, WholeStream, GoodDirectoryChunks;
    forall l | l in Lanes(cs)
      ensures s.tracks[l].header && s.tracks[l].ended <==> WholeStream(u.names, Project(cs, l))
    {
      StreamsAccepted(u, cs, l);
    }
    forall declared
      ensures Declares(u, cs) == Some(Some(declared)) <==>
        GoodDirectoryChunks(u.names, Project(cs, Directory), declared)
    {
      DirectoryDeclares(u, cs, declared);
    }
    forall kind: Kind ensures UsmDemux.OfKind(s.tracks, kind) == LanesOf(Lanes(cs), kind) {
    }
  }

  lemma GoodIsAccepted(u: Setup, cs: seq<Chunk>)
    requires GoodChunks(u, cs)
    ensures Accepted(u, cs)
  {
    hide LaneRun, Lanes, Total, Project, Declares, GoodDirectoryChunks, Has, Ends;
    forall l | l in Lanes(cs) ensures LaneRun(u, cs, l).Some? {
      StreamsAccepted(u, cs, l);
    }
    var declared :| GoodDirectoryChunks(u.names, Project(cs, Directory), declared);
    DirectoryDeclares(u, cs, declared);
  }

  /** A file is accepted exactly when it can be cut into chunks and these are good. */
  lemma DemuxAccepts(u: Setup, file: bytes)
    ensures Demux(u, file).Some? <==>
      Chunks(file, true, u.limit).Some? && GoodChunks(u, Chunks(file, true, u.limit).value)
  {
    hide Chunks, Accepted, Matches, Run, Complete, GoodChunks;
    if Chunks(file, true, u.limit).Some? {
      var cs := Chunks(file, true, u.limit).value;
      RunIsLanewise(u, cs);
      if Run(u, cs).Some? {
        FinalChecks(u, cs, Run(u, cs).value);
      }
      if GoodChunks(u, cs) {
        GoodIsAccepted(u, cs);
      }
    }
  }

  lemma {:induction false} ProjectSameKind(cs: seq<Chunk>, l: Lane)
    requires l.Stream?
    ensures SameKind(Project(cs, l), l.kind)
  {
    if cs != [] {
      ProjectSameKind(cs[..|cs| - 1], l);
    }
  }

  lemma {:induction false} NoDirectoryLane(cs: seq<Chunk>, l: Lane)
    requires l in Lanes(cs)
    ensures l.Stream? && l.kind != Crid
  {
    if l in Lanes(cs[..|cs| - 1]) {
      NoDirectoryLane(cs[..|cs| - 1], l);
    }
  }

  /** What an accepted file leaves: each stream with the content, and the video numbers, that its own chunks say. */
  lemma DemuxContent(u: Setup, file: bytes, l: Lane)
    requires Demux(u, file).Some? && l in Demux(u, file).value
    ensures Chunks(file, true, u.limit).Some? && l.Stream?
    ensures var own, t := Project(Chunks(file, true, u.limit).value, l), Demux(u, file).value[l];
      Content(u.names, u.masks, l.kind, own, t.data) && Named(u.names, l.kind, own, t) && t.chunks == |Payloads(own)|
  {
    var cs := Chunks(file, true, u.limit).value;
    hide Chunks, Run, Complete, Lanes, Project, TrackRun, Content, Named, Total, Payloads;
    RunIsLanewise(u, cs);
    NoDirectoryLane(cs, l);
    ProjectSameKind(cs, l);
    assert LaneRun(u, cs, l) == Some(Demux(u, file).value[l]);
    StreamContent(u.names, u.masks, l.kind, Project(cs, l));
    TrackNames(u.names, u.masks, l.kind, Project(cs, l));
    TrackAccepts(u.names, u.masks, Project(cs, l));
  }
}
