/**
 Every run of the uploader against one remote store, as a state machine: the check of the local tree, requests in
 flight, replies, checks, retries, cancellation, crashes and later runs.
 */
module UploadRuns {
  import opened Bytes
  import Text
  import TreePlan
  import TreeExport
  import opened Upload

  // ----- the local tree

  /**
   What a run takes for granted: the digest, how an index file reads (None when it does not), and the key of the index
   file, under which it is also published.
   */
  datatype World = World(digest: bytes -> bytes, listed: bytes -> Option<seq<Object>>, key: bytes)

  const MANIFEST_KEY := Text.Literal("_meta/manifest.json")

  /** The entry of the manifest itself, but for its key, length and digest. */
  const MANIFEST := TreePlan.Object(
    [], Text.Literal("_meta"), Text.Literal("manifest"), Text.Literal("manifest"), Text.Literal("application/json"),
    0, [], [], [], Text.Literal("manifest"), [])

  function ManifestOf(world: World, body: bytes): Object
  {
    MANIFEST.(objectKey := world.key, size := |body|, sha := world.digest(body))
  }

  predicate DistinctObjects(objects: seq<Object>)
  {
    forall i, j :: 0 <= i < j < |objects| ==> objects[i].objectKey != objects[j].objectKey
  }

  /** The listed file is there, with the length and the digest of its entry. */
  predicate Intact(world: World, files: map<bytes, bytes>, o: Object)
  {
    && TreePlan.SafePath(o.objectKey) && o.objectKey in files
    && Matches(world.digest, files[o.objectKey], o)
  }

  /** What is checked before any request: no key twice, and every listed file intact in the tree. */
  predicate Preflight(world: World, files: map<bytes, bytes>)
  {
    && world.key in files && world.listed(files[world.key]).Some?
    && var objects := world.listed(files[world.key]).value;
    && DistinctObjects(objects) && forall o :: o in objects ==> Intact(world, files, o)
  }

  // ----- state

  /** Who created a stored object; a request of the uploader for a manifest carries the objects that it lists. */
  datatype Author = Foreign | Uploader(lists: Option<seq<Object>>)

  datatype Stored = Stored(body: bytes, author: Author)

  type Remote = map<bytes, Stored>

  /** A conditional creation on its way; the body that arrives may be anything. */
  datatype Request = Request(key: bytes, body: bytes, lists: Option<seq<Object>>)

  datatype Stage = Waiting | Sending | Checking | Pausing | Verified | Failed

  datatype Worker = Worker(stage: Stage, attempt: nat)

  const IDLE := Worker(Waiting, 1)

  /** One run: a worker for each listed object, and one for the manifest. */
  datatype Run = Run(
    objects: seq<Object>, manifest: Object, workers: map<bytes, Worker>, last: Worker, cancelled: bool)

  datatype State = State(remote: Remote, flying: set<Request>, run: Option<Run>)

  datatype Who = Member(o: Object) | Last

  datatype Label =
    | Start(files: map<bytes, bytes>)
    | Send(who: Who, body: bytes)
    | Land(request: Request)
    | Lose(request: Request)
    | Create(key: bytes, body: bytes)
    | Reply(who: Who)
    | Check(who: Who, ok: bool)
    | Fail(who: Who)
    | Retry(who: Who)
    | Cancel
    | Stop

  // ----- steps

  predicate Knows(r: Run, who: Who)
  {
    who.Member? ==> who.o in r.objects && who.o.objectKey in r.workers
  }

  function WorkerOf(r: Run, who: Who): Worker
    requires Knows(r, who)
  {
    match who
    case Member(o) => r.workers[o.objectKey]
    case Last => r.last
  }

  function Target(r: Run, who: Who): Object
  {
    match who
    case Member(o) => o
    case Last => r.manifest
  }

  function Put(r: Run, who: Who, w: Worker): Run
  {
    match who
    case Member(o) => r.(workers := r.workers[o.objectKey := w])
    case Last => r.(last := w)
  }

  predicate AllVerified(r: Run)
  {
    forall o :: o in r.objects ==> o.objectKey in r.workers && r.workers[o.objectKey].stage.Verified?
  }

  /** The worker is at this stage; the manifest's worker only moves once every object is verified. */
  predicate Acts(s: State, who: Who, stage: Stage)
  {
    && s.run.Some? && Knows(s.run.value, who) && WorkerOf(s.run.value, who).stage == stage
    && (who.Last? ==> AllVerified(s.run.value))
  }

  /** The object is stored with its length and digest. */
  predicate StoredAs(digest: bytes -> bytes, remote: Remote, o: Object)
  {
    o.objectKey in remote && Matches(digest, remote[o.objectKey].body, o)
  }

  predicate Enabled(world: World, s: State, l: Label)
  {
    match l
    case Start(files) => s.run.None? && Preflight(world, files)
    case Send(who, _) => Acts(s, who, Waiting)
    case Land(request) => request in s.flying
    case Lose(request) => request in s.flying
    case Create(_, _) => true
    case Reply(who) => Acts(s, who, Sending) && Target(s.run.value, who).objectKey in s.remote
    case Check(who, ok) => Acts(s, who, Checking) && (ok ==> StoredAs(world.digest, s.remote, Target(s.run.value, who)))
    case Fail(who) => Acts(s, who, Sending) || Acts(s, who, Waiting)
    case Retry(who) => Acts(s, who, Pausing) && !s.run.value.cancelled
    case Cancel => s.run.Some?
    case Stop => true
  }

  /** The worker after a failed attempt: a pause before the next one, unless it was the last or the run is cancelled. */
  function AfterFailure(r: Run, w: Worker): Worker
  {
    if w.attempt >= MAX_ATTEMPTS || r.cancelled then w.(stage := Failed) else w.(stage := Pausing)
  }

  /** A run begins with one idle worker for each listed object and one for the manifest. */
  function Began(world: World, files: map<bytes, bytes>): Run
    requires Preflight(world, files)
  {
    var objects := world.listed(files[world.key]).value;
    Run(objects, ManifestOf(world, files[world.key]), map o | o in objects :: o.objectKey := IDLE, IDLE, false)
  }

  function Absent(remote: Remote, key: bytes, stored: Stored): Remote
  {
    if key in remote then remote else remote[key := stored]
  }

  function Moved(s: State, who: Who, w: Worker): State
    requires s.run.Some?
  {
    s.(run := Some(Put(s.run.value, who, w)))
  }

  function Apply(world: World, s: State, l: Label): State
    requires Enabled(world, s, l)
  {
    match l
    case Start(files) => s.(run := Some(Began(world, files)))
    case Send(who, body) =>
      var r := s.run.value;
      var request := Request(Target(r, who).objectKey, body, if who.Last? then Some(r.objects) else None);
      Moved(s, who, WorkerOf(r, who).(stage := Sending)).(flying := s.flying + {request})
    case Land(request) =>
      s.(remote := Absent(s.remote, request.key, Stored(request.body, Uploader(request.lists))))
    case Lose(request) => s.(flying := s.flying - {request})
    case Create(key, body) => s.(remote := Absent(s.remote, key, Stored(body, Foreign)))
    case Reply(who) => Moved(s, who, WorkerOf(s.run.value, who).(stage := Checking))
    case Check(who, ok) =>
      var w := WorkerOf(s.run.value, who);
      Moved(s, who, if ok then w.(stage := Verified) else AfterFailure(s.run.value, w))
    case Fail(who) => Moved(s, who, AfterFailure(s.run.value, WorkerOf(s.run.value, who)))
    case Retry(who) => Moved(s, who, Worker(Waiting, WorkerOf(s.run.value, who).attempt + 1))
    case Cancel => s.(run := Some(s.run.value.(cancelled := true)))
    case Stop => s.(run := None)
  }

  // ----- the invariant

  predicate Grows(a: Remote, b: Remote)
  {
    forall k :: k in a ==> k in b && b[k] == a[k]
  }

  predicate AllStored(digest: bytes -> bytes, remote: Remote, objects: seq<Object>)
  {
    forall o :: o in objects ==> StoredAs(digest, remote, o)
  }

  predicate InRange(w: Worker)
  {
    1 <= w.attempt <= MAX_ATTEMPTS && (w.stage.Pausing? ==> w.attempt < MAX_ATTEMPTS)
  }

  predicate WorkersOk(digest: bytes -> bytes, remote: Remote, r: Run)
  {
    forall o :: o in r.objects ==>
      && o.objectKey in r.workers && InRange(r.workers[o.objectKey])
      && (r.workers[o.objectKey].stage.Verified? ==> StoredAs(digest, remote, o))
  }

  predicate RunOk(digest: bytes -> bytes, remote: Remote, r: Run)
  {
    && DistinctObjects(r.objects) && WorkersOk(digest, remote, r) && InRange(r.last)
    && (r.last.stage.Verified? ==> AllVerified(r) && StoredAs(digest, remote, r.manifest))
  }

  ghost predicate ListsStored(digest: bytes -> bytes, remote: Remote, lists: Option<seq<Object>>)
  {
    lists.Some? ==> AllStored(digest, remote, lists.value)
  }

  ghost predicate Inv(digest: bytes -> bytes, s: State)
  {
    && (forall q :: q in s.flying ==> ListsStored(digest, s.remote, q.lists))
    && (forall k :: k in s.remote && s.remote[k].author.Uploader? ==>
          ListsStored(digest, s.remote, s.remote[k].author.lists))
    && (s.run.Some? ==> RunOk(digest, s.remote, s.run.value))
  }

  /**
   A run starts exactly on a tree whose index file reads, lists no key twice and lists only files that are there with
   their length and digest; and it starts with every worker at its first attempt.
   */
  lemma StartsExactly(world: World, s: State, files: map<bytes, bytes>)
    ensures Enabled(world, s, Start(files)) <==>
      && s.run == None && world.key in files && world.listed(files[world.key]).Some?
      && var objects := world.listed(files[world.key]).value;
      && (forall i, j :: 0 <= i < |objects| && 0 <= j < |objects| && objects[i].objectKey == objects[j].objectKey ==>
            i == j)
      && forall o :: o in objects ==>
        && TreePlan.SafePath(o.objectKey) && o.objectKey in files
        && |files[o.objectKey]| == o.size && world.digest(files[o.objectKey]) == o.sha
    ensures Enabled(world, s, Start(files)) ==>
      && var r := Apply(world, s, Start(files)).run.value;
      && Some(r.objects) == world.listed(files[world.key]) && r.last == Worker(Waiting, 1) && !r.cancelled
      && r.workers.Keys == (set o | o in r.objects :: o.objectKey)
      && forall k :: k in r.workers ==> r.workers[k] == Worker(Waiting, 1)
  {
    hide TreePlan.SafePath;
  }

  /** A worker after a step of its own. */
  predicate Ends(world: World, s: State, l: Label, who: Who, w: Worker)
    requires Enabled(world, s, l) && s.run.Some? && Knows(s.run.value, who)
  {
    && Apply(world, s, l).run.Some? && Knows(Apply(world, s, l).run.value, who)
    && WorkerOf(Apply(world, s, l).run.value, who) == w
  }

  /**
   After a failed attempt a worker pauses before the next one, unless that was the third or the run is cancelled;
   a cancelled run never begins another attempt.
   */
  lemma FailedAttempt(world: World, s: State, l: Label, who: Who)
    requires Enabled(world, s, l) && s.run.Some? && Knows(s.run.value, who)
    ensures var w := WorkerOf(s.run.value, who);
      && (l == Fail(who) || l == Check(who, false) ==>
            Ends(world, s, l, who,
              Worker(if w.attempt < 3 && !s.run.value.cancelled then Pausing else Failed, w.attempt)))
      && (l == Check(who, true) ==> Ends(world, s, l, who, Worker(Verified, w.attempt)))
      && (l == Retry(who) ==> Ends(world, s, l, who, Worker(Waiting, w.attempt + 1)) && !s.run.value.cancelled)
  {
    hide StoredAs, AllVerified, DistinctObjects, Preflight;
  }

  /** What is stored never changes. */
  lemma StepGrows(world: World, s: State, l: Label)
    requires Enabled(world, s, l)
    ensures Grows(s.remote, Apply(world, s, l).remote)
  {
    hide StoredAs, AllVerified, DistinctObjects;
  }

  lemma StoredStays(digest: bytes -> bytes, a: Remote, b: Remote, o: Object)
    requires Grows(a, b) && StoredAs(digest, a, o)
    ensures StoredAs(digest, b, o)
  {
  }

  lemma ListsStay(digest: bytes -> bytes, a: Remote, b: Remote, lists: Option<seq<Object>>)
    requires Grows(a, b) && ListsStored(digest, a, lists)
    ensures ListsStored(digest, b, lists)
  {
    if lists.Some? {
      forall o | o in lists.value ensures StoredAs(digest, b, o) {
        StoredStays(digest, a, b, o);
      }
    }
  }

  /** A larger store keeps the invariant, whatever was added. */
  lemma InvGrows(digest: bytes -> bytes, s: State, remote: Remote)
    requires Inv(digest, s) && Grows(s.remote, remote)
    requires forall k :: k in remote && k !in s.remote && remote[k].author.Uploader? ==>
      ListsStored(digest, s.remote, remote[k].author.lists)
    ensures Inv(digest, s.(remote := remote))
  {
    hide ListsStored, StoredAs;
    forall q | q in s.flying ensures ListsStored(digest, remote, q.lists) {
      ListsStay(digest, s.remote, remote, q.lists);
    }
    forall k | k in remote && remote[k].author.Uploader? ensures ListsStored(digest, remote, remote[k].author.lists) {
      ListsStay(digest, s.remote, remote, remote[k].author.lists);
    }
    if s.run.Some? {
      var r := s.run.value;
      forall o | o in r.objects && r.workers[o.objectKey].stage.Verified? ensures StoredAs(digest, remote, o) {
        StoredStays(digest, s.remote, remote, o);
      }
      if r.last.stage.Verified? {
        StoredStays(digest, s.remote, remote, r.manifest);
      }
    }
  }

  lemma SameObject(objects: seq<Object>, a: Object, b: Object)
    requires DistinctObjects(objects) && a in objects && b in objects && a.objectKey == b.objectKey
    ensures a == b
  {
    var i :| 0 <= i < |objects| && objects[i] == a;
    var j :| 0 <= j < |objects| && objects[j] == b;
  }

  /** A worker that was not done moves to a sound state. */
  lemma MoveKeeps(digest: bytes -> bytes, s: State, who: Who, w: Worker)
    requires Inv(digest, s) && s.run.Some? && Knows(s.run.value, who) && InRange(w)
    requires !WorkerOf(s.run.value, who).stage.Verified? && (who.Last? ==> AllVerified(s.run.value))
    requires w.stage.Verified? ==> StoredAs(digest, s.remote, Target(s.run.value, who))
    ensures Inv(digest, Moved(s, who, w))
  {
    hide ListsStored, StoredAs;
    var r := s.run.value;
    var t := Put(r, who, w);
    if who.Member? {
      assert !r.last.stage.Verified? by {
        assert r.workers[who.o.objectKey].stage != Verified;
      }
      forall o | o in t.objects
        ensures o.objectKey in t.workers && InRange(t.workers[o.objectKey])
        ensures t.workers[o.objectKey].stage.Verified? ==> StoredAs(digest, s.remote, o)
      {
        if o.objectKey == who.o.objectKey {
          SameObject(r.objects, o, who.o);
        }
      }
    }
    assert RunOk(digest, s.remote, t);
  }

  lemma AfterFailureInRange(r: Run, w: Worker)
    requires InRange(w)
    ensures InRange(AfterFailure(r, w)) && !AfterFailure(r, w).stage.Verified?
  {
  }

  lemma WorkerInRange(digest: bytes -> bytes, s: State, who: Who)
    requires Inv(digest, s) && s.run.Some? && Knows(s.run.value, who)
    ensures InRange(WorkerOf(s.run.value, who))
  {
    hide ListsStored, StoredAs, InRange;
  }

  /** The manifest is only sent when everything that it lists is stored. */
  lemma SendKeeps(world: World, s: State, who: Who, body: bytes)
    requires Inv(world.digest, s) && Enabled(world, s, Send(who, body))
    ensures Inv(world.digest, Apply(world, s, Send(who, body)))
  {
    var r := s.run.value;
    WorkerInRange(world.digest, s, who);
    MoveKeeps(world.digest, s, who, WorkerOf(r, who).(stage := Sending));
    hide StoredAs;
    if who.Last? {
      assert ListsStored(world.digest, s.remote, Some(r.objects));
    }
    hide ListsStored, RunOk;
  }

  lemma StartKeeps(world: World, s: State, files: map<bytes, bytes>)
    requires Inv(world.digest, s) && Enabled(world, s, Start(files))
    ensures Inv(world.digest, Apply(world, s, Start(files)))
  {
    hide ListsStored, StoredAs, Intact, ManifestOf, DistinctObjects;
    var r := Began(world, files);
    forall o | o in r.objects ensures o.objectKey in r.workers && r.workers[o.objectKey] == IDLE {
    }
  }

  lemma StoreKeeps(world: World, s: State, l: Label)
    requires Inv(world.digest, s) && Enabled(world, s, l) && (l.Land? || l.Create?)
    ensures Inv(world.digest, Apply(world, s, l))
  {
    StepGrows(world, s, l);
    hide ListsStored, StoredAs, RunOk;
    InvGrows(world.digest, s, Apply(world, s, l).remote);
  }

  lemma WorkKeeps(world: World, s: State, l: Label)
    requires Inv(world.digest, s) && Enabled(world, s, l) && (l.Reply? || l.Check? || l.Fail? || l.Retry?)
    ensures Inv(world.digest, Apply(world, s, l))
  {
    var r, who := s.run.value, l.who;
    WorkerInRange(world.digest, s, who);
    AfterFailureInRange(r, WorkerOf(r, who));
    hide ListsStored, StoredAs, RunOk, AllVerified;
    var w := match l
      case Reply(_) => WorkerOf(r, who).(stage := Checking)
      case Check(_, ok) => if ok then WorkerOf(r, who).(stage := Verified) else AfterFailure(r, WorkerOf(r, who))
      case Fail(_) => AfterFailure(r, WorkerOf(r, who))
      case Retry(_) => Worker(Waiting, WorkerOf(r, who).attempt + 1)
      case _ => IDLE;
    MoveKeeps(world.digest, s, who, w);
  }

  lemma InvKept(world: World, s: State, l: Label)
    requires Inv(world.digest, s) && Enabled(world, s, l)
    ensures Inv(world.digest, Apply(world, s, l))
  {
    match l
    case Start(files) => StartKeeps(world, s, files);
    case Send(who, body) => SendKeeps(world, s, who, body);
    case Land(_) => StoreKeeps(world, s, l);
    case Create(_, _) => StoreKeeps(world, s, l);
    case Lose(_) =>
    case Cancel => hide ListsStored, StoredAs;
    case Stop =>
    case _ => WorkKeeps(world, s, l);
  }

  // ----- whole runs

  ghost predicate Steps(world: World, s: State, ls: seq<Label>, t: State)
    decreases |ls|
  {
    if ls == [] then t == s else Enabled(world, s, ls[0]) && Steps(world, Apply(world, s, ls[0]), ls[1..], t)
  }

  predicate Initial(s: State)
  {
    s.flying == {} && s.run.None? && forall k :: k in s.remote ==> s.remote[k].author.Foreign?
  }

  /** Over any steps the invariant holds, and whatever was stored keeps its bytes. */
  lemma {:induction false} StepsKeep(world: World, s: State, ls: seq<Label>, t: State)
    requires Inv(world.digest, s) && Steps(world, s, ls, t)
    ensures Inv(world.digest, t) && Grows(s.remote, t.remote)
    decreases |ls|
  {
    hide Inv, Enabled, Apply;
    if ls != [] {
      InvKept(world, s, ls[0]);
      StepGrows(world, s, ls[0]);
      StepsKeep(world, Apply(world, s, ls[0]), ls[1..], t);
    }
  }

  /** In every run: where the uploader has created a manifest, everything it lists is stored as listed. */
  lemma ManifestLast(world: World, s: State, ls: seq<Label>, t: State, k: bytes, objects: seq<Object>)
    requires Initial(s) && Steps(world, s, ls, t)
    requires k in t.remote && t.remote[k].author == Uploader(Some(objects))
    ensures AllStored(world.digest, t.remote, objects)
  {
    StepsKeep(world, s, ls, t);
    hide AllStored, RunOk;
    assert ListsStored(world.digest, t.remote, t.remote[k].author.lists);
  }

  /** The run follows this index file: it works on what the file lists, and its manifest is the file. */
  ghost predicate Follows(world: World, r: Run, body: bytes)
  {
    world.listed(body) == Some(r.objects) && r.manifest == ManifestOf(world, body)
  }

  ghost predicate Sourced(world: World, s: State)
  {
    s.run.Some? ==> exists body :: Follows(world, s.run.value, body)
  }

  lemma SourcedKept(world: World, s: State, l: Label)
    requires Sourced(world, s) && Enabled(world, s, l)
    ensures Sourced(world, Apply(world, s, l))
  {
    hide StoredAs, AllVerified, AfterFailure, ManifestOf, Intact, DistinctObjects;
    if l.Start? {
      assert Follows(world, Began(world, l.files), l.files[world.key]);
    } else if s.run.Some? && !l.Stop? {
      var body :| Follows(world, s.run.value, body);
      assert Follows(world, Apply(world, s, l).run.value, body);
    }
  }

  lemma {:induction false} StepsSourced(world: World, s: State, ls: seq<Label>, t: State)
    requires Sourced(world, s) && Steps(world, s, ls, t)
    ensures Sourced(world, t)
    decreases |ls|
  {
    hide Sourced, Enabled, Apply;
    if ls != [] {
      SourcedKept(world, s, ls[0]);
      StepsSourced(world, Apply(world, s, ls[0]), ls[1..], t);
    }
  }

  /**
   A run whose manifest is verified has published one index file whole: the body at the manifest's key has the length
   and digest of a file that lists exactly the objects of the run, and all of these are stored.
   */
  lemma DoneMeansStored(world: World, s: State, ls: seq<Label>, t: State)
    requires Initial(s) && Steps(world, s, ls, t) && t.run.Some? && t.run.value.last.stage.Verified?
    ensures exists body ::
      && world.listed(body) == Some(t.run.value.objects)
      && StoredAs(world.digest, t.remote, ManifestOf(world, body))
    ensures AllStored(world.digest, t.remote, t.run.value.objects)
  {
    StepsKeep(world, s, ls, t);
    StepsSourced(world, s, ls, t);
    hide StoredAs, ListsStored, ManifestOf;
    var body :| Follows(world, t.run.value, body);
    assert StoredAs(world.digest, t.remote, ManifestOf(world, body));
  }

  // ----- the manifest's key

  /** The index does not list the key under which its manifest is published. */
  predicate Clean(key: bytes, objects: seq<Object>)
  {
    forall o :: o in objects ==> o.objectKey != key
  }

  /** An index file that lists its own key with its own length and digest. */
  predicate NamesItself(world: World, body: bytes)
  {
    world.listed(body).Some? &&
      exists o :: o in world.listed(body).value && o.objectKey == world.key && Matches(world.digest, body, o)
  }

  /** The preflight refuses every index that lists its own key, but for one that holds its own length and digest. */
  lemma PreflightIsClean(world: World, files: map<bytes, bytes>)
    requires Preflight(world, files)
    ensures Clean(world.key, world.listed(files[world.key]).value) <==> !NamesItself(world, files[world.key])
  {
    var objects := world.listed(files[world.key]).value;
    hide Matches, DistinctObjects, TreePlan.SafePath;
    forall o | o in objects && o.objectKey == world.key ensures NamesItself(world, files[world.key]) {
      assert Intact(world, files, o);
    }
  }

  /** A run is not started on an index file that names itself. */
  predicate StartsClean(world: World, l: Label)
  {
    l.Start? && world.key in l.files ==> !NamesItself(world, l.files[world.key])
  }

  predicate CleanState(key: bytes, s: State)
  {
    && (forall q :: q in s.flying && q.key == key ==> q.lists.Some?)
    && (key in s.remote && s.remote[key].author.Uploader? ==> s.remote[key].author.lists.Some?)
    && (s.run.Some? ==> Clean(key, s.run.value.objects))
  }

  lemma CleanKept(world: World, s: State, l: Label)
    requires CleanState(world.key, s) && Enabled(world, s, l) && StartsClean(world, l)
    ensures CleanState(world.key, Apply(world, s, l))
  {
    if l.Start? {
      PreflightIsClean(world, l.files);
    }
    hide StoredAs, AllVerified, NamesItself, Preflight, AfterFailure, ManifestOf;
  }

  lemma {:induction false} CleanSteps(world: World, s: State, ls: seq<Label>, t: State)
    requires CleanState(world.key, s) && Steps(world, s, ls, t)
    requires forall i :: 0 <= i < |ls| ==> StartsClean(world, ls[i])
    ensures CleanState(world.key, t)
    decreases |ls|
  {
    hide CleanState, Enabled, Apply, StartsClean;
    if ls != [] {
      assert StartsClean(world, ls[0]);
      CleanKept(world, s, ls[0]);
      assert forall i :: 0 <= i < |ls[1..]| ==> ls[1..][i] == ls[i + 1];
      CleanSteps(world, Apply(world, s, ls[0]), ls[1..], t);
    }
  }

  /**
   When no index file that is uploaded names itself, the manifest's key exists by the uploader's hand only after
   everything that the manifest lists.
   */
  lemma ManifestAtKey(world: World, s: State, ls: seq<Label>, t: State)
    requires Initial(s) && Steps(world, s, ls, t) && forall i :: 0 <= i < |ls| ==> StartsClean(world, ls[i])
    requires world.key in t.remote && t.remote[world.key].author.Uploader?
    ensures var lists := t.remote[world.key].author.lists;
      lists.Some? && AllStored(world.digest, t.remote, lists.value)
  {
    CleanSteps(world, s, ls, t);
    ManifestLast(world, s, ls, t, world.key, t.remote[world.key].author.lists.value);
  }

  /**
   The condition cannot be dropped: on an index file that names itself beside another object, a run that has passed
   the preflight can create the key while the other object is missing.
   */
  lemma SelfNamingComesEarly(world: World, files: map<bytes, bytes>, other: Object, body: bytes)
    returns (ls: seq<Label>, t: State)
    requires Preflight(world, files) && NamesItself(world, files[world.key])
    requires other in world.listed(files[world.key]).value && other.objectKey != world.key
    ensures Steps(world, State(map[], {}, None), ls, t)
    ensures world.key in t.remote && t.remote[world.key].author.Uploader? && !StoredAs(world.digest, t.remote, other)
  {
    var o :| o in world.listed(files[world.key]).value && o.objectKey == world.key;
    hide StoredAs, AllVerified, Preflight, NamesItself, Matches, ManifestOf;
    var s0 := State(map[], {}, None);
    var l0, l1 := Start(files), Send(Member(o), body);
    var l2 := Land(Request(world.key, body, None));
    var s1 := Apply(world, s0, l0);
    assert s1.run.value.workers[o.objectKey] == IDLE;
    var s2 := Apply(world, s1, l1);
    assert Request(world.key, body, None) in s2.flying;
    t := Apply(world, s2, l2);
    ls := [l0, l1, l2];
    assert ls[1..] == [l1, l2] && [l1, l2][1..] == [l2] && [l2][1..] == [];
    assert Steps(world, t, [], t);
    assert Steps(world, s2, [l2], t);
    assert Steps(world, s1, [l1, l2], t);
    assert t.remote.Keys == {world.key};
    NotStored(world.digest, t.remote, other);
  }

  lemma NotStored(digest: bytes -> bytes, remote: Remote, o: Object)
    requires o.objectKey !in remote
    ensures !StoredAs(digest, remote, o)
  {
  }

  /** The index that a tree export leaves does not list its own key, so it never names itself. */
  lemma TreeIndexIsClean(s: TreePlan.Source, world: World, body: bytes, objects: seq<Object>, name: bytes)
    requires TreePlan.SLASH !in s.words.meta && world.key == s.words.meta + [TreePlan.SLASH] + name
    requires world.listed(body) == Some(objects) && forall o :: o in objects ==> TreeExport.OutsideMeta(s, o)
    ensures Clean(world.key, objects) && !NamesItself(world, body)
  {
    var rest := [TreePlan.SLASH] + name;
    assert world.key == s.words.meta + rest;
    TreeExport.HeadOf(s.words.meta, rest);
    hide Matches;
  }
}
