/** The dependency plan of one key, and the selection that archives every HTTP resource. */
module Plans {
  import opened Bytes
  import opened Numbers
  import opened Order
  import opened Graph
  import opened Seqs
  import opened Sets
  import opened CatalogReader
  import opened Catalogs
  import opened Closure
  import Text

  const MAX_DEPENDENCIES := 512

  /** The URL schemes and resource types that the policy knows; everything below holds for any choice of them. */
  datatype Kinds = Kinds(
    https: bytes, http: bytes, textMeshFont: bytes, font: bytes, criPrefix: bytes, splitAcb: bytes, textAsset: bytes,
    texture: bytes, sprite: bytes, spriteAtlas: bytes)

  const KNOWN_KINDS := Kinds(
    Text.Literal("https://"), Text.Literal("http://"), Text.Literal("TMPro.TMP_FontAsset"),
    Text.Literal("UnityEngine.Font"), Text.Literal("CriWare."), Text.Literal("Fwk.Sound.SplitAcbData"),
    Text.Literal("UnityEngine.TextAsset"), Text.Literal("UnityEngine.Texture2D"), Text.Literal("UnityEngine.Sprite"),
    Text.Literal("UnityEngine.U2D.SpriteAtlas"))

  datatype Plan = Plan(
    target: Location, dependencies: seq<Location>, omittedLocal: seq<Location>, archive: bool, font: bool,
    embeddedCri: bool, supported: bool)

  datatype Unplanned = NotResolved(why: Unresolved) | NotClosed(cause: Unclosed) | AmbiguousMedia | TooMany

  function Remote(k: Kinds): Location -> bool
  {
    (l: Location) => k.https <= l.internal || k.http <= l.internal
  }

  function Local(k: Kinds): Location -> bool
  {
    (l: Location) => !Remote(k)(l)
  }

  function FromProvider(provider: bytes): Location -> bool
  {
    (l: Location) => l.provider == provider
  }

  predicate IsFont(k: Kinds, c: Catalog, key: bytes)
    requires key in c.keys
  {
    exists id :: id in c.keys[key] && id in c.locations &&
      (c.locations[id].resourceType == k.textMeshFont || c.locations[id].resourceType == k.font)
  }

  predicate IsMedia(k: Kinds, p: Providers, target: Location)
  {
    target.provider == p.cri || k.criPrefix <= target.resourceType
  }

  predicate HasPreview(k: Kinds, p: Providers, target: Location)
  {
    || target.resourceType == k.splitAcb || IsMedia(k, p, target) || target.resourceType == k.textAsset
    || target.resourceType == k.texture || target.resourceType == k.sprite || target.resourceType == k.spriteAtlas
  }

  // ----- ascending lists

  function ById(l: Location): bytes
  {
    ToBe(l.id, 4)
  }

  function Below(): (Location, Location) -> bool
  {
    (a: Location, b: Location) => a.id < b.id
  }

  function Differ(): (Location, Location) -> bool
  {
    (a: Location, b: Location) => a.id != b.id
  }

  lemma SortById(s: seq<Location>)
    requires Ordered(s, Differ())
    ensures Ordered(Sort(s, ById), Below()) && multiset(Sort(s, ById)) == multiset(s)
    ensures forall l :: l in Sort(s, ById) <==> l in s
  {
    Powers();
    forall a: Location, b: Location
      ensures (Less(ById(a), ById(b)) <==> a.id < b.id) && (ById(a) == ById(b) <==> a.id == b.id)
    {
      BigEndianOrder(a.id, b.id, 4);
    }
    hide ById, Sort, Less;
    forall i, j | 0 <= i < j < |s| ensures ById(s[i]) != ById(s[j]) {
      assert Differ()(s[i], s[j]);
    }
    SortSorts(s, ById);
    SortElements(s, ById);
    var r := Sort(s, ById);
    forall i, j | 0 <= i < j < |r| ensures Below()(r[i], r[j]) {
      assert Less(ById(r[i]), ById(r[j]));
    }
  }

  // ----- the plan

  /** `l` is one of the downloadable locations reached from `id`. */
  ghost predicate Needs(c: Catalog, id: u32, l: Location)
  {
    From(c, id, l.id) && Downloadable(c, l.id) && c.locations[l.id] == l
  }

  ghost predicate NeedsMedia(k: Kinds, p: Providers, c: Catalog, id: u32, l: Location)
  {
    Needs(c, id, l) && Remote(k)(l) && l.provider == p.cri
  }

  ghost predicate TwoMedia(k: Kinds, p: Providers, c: Catalog, id: u32)
  {
    exists a: Location, b: Location :: a.id != b.id && NeedsMedia(k, p, c, id, a) && NeedsMedia(k, p, c, id, b)
  }

  ghost predicate SomeMedia(k: Kinds, p: Providers, c: Catalog, id: u32)
  {
    exists l :: NeedsMedia(k, p, c, id, l)
  }

  ghost predicate TooManyRemote(k: Kinds, c: Catalog, id: u32)
  {
    exists many :: |many| > MAX_DEPENDENCIES && Ordered(many, Below()) &&
      forall l :: l in many ==> Needs(c, id, l) && Remote(k)(l)
  }

  /** A media preview that has its own remote media file; `whole` when everything is archived. */
  ghost predicate Narrows(k: Kinds, p: Providers, c: Catalog, target: Location, whole: bool)
  {
    IsMedia(k, p, target) && !whole && SomeMedia(k, p, c, target.id)
  }

  ghost predicate Narrowed(k: Kinds, p: Providers, c: Catalog, plan: Plan)
  {
    Narrows(k, p, c, plan.target, plan.archive)
  }

  /** A media preview with two media files cannot choose between them. */
  ghost predicate Undecided(k: Kinds, p: Providers, c: Catalog, target: Location, whole: bool)
  {
    IsMedia(k, p, target) && !whole && TwoMedia(k, p, c, target.id)
  }

  ghost predicate Overfull(k: Kinds, p: Providers, c: Catalog, target: Location, whole: bool)
  {
    TooManyRemote(k, c, target.id) && !Narrows(k, p, c, target, whole)
  }

  ghost predicate Content(k: Kinds, p: Providers, c: Catalog, plan: Plan)
  {
    && Ordered(plan.dependencies, Below()) && |plan.dependencies| <= MAX_DEPENDENCIES
    && (forall l :: l in plan.omittedLocal <==> Needs(c, plan.target.id, l) && !Remote(k)(l))
    && (forall l :: l in plan.dependencies <==>
          Needs(c, plan.target.id, l) && Remote(k)(l) && (Narrowed(k, p, c, plan) ==> l.provider == p.cri))
    && (Narrowed(k, p, c, plan) ==> |plan.dependencies| == 1)
    && (plan.embeddedCri <==> IsMedia(k, p, plan.target) && !plan.archive && !Narrowed(k, p, c, plan))
  }

  ghost predicate Planned(k: Kinds, p: Providers, c: Catalog, key: bytes, s: Selector, archive: bool, plan: Plan)
  {
    && Resolve(c, key, s).Ok? && key in c.keys && plan.target == Resolve(c, key, s).value.(key := key)
    && plan.font == IsFont(k, c, key) && plan.archive == (archive || plan.font)
    && plan.supported == (plan.archive || HasPreview(k, p, plan.target)) && Content(k, p, c, plan)
  }

  /** An archive keeps everything: what is remote and what is left out make up the whole closure. */
  ghost predicate Lossless(c: Catalog, plan: Plan, ids: seq<u32>)
  {
    && Lists(c, plan.target.id, ids)
    && multiset(plan.dependencies) + multiset(plan.omittedLocal) == multiset(Pick(c, ids))
  }

  lemma PickedElements(c: Catalog, id: u32, ids: seq<u32>)
    requires Filed(c) && Lists(c, id, ids)
    ensures forall l :: l in Pick(c, ids) <==> Needs(c, id, l)
    ensures Ordered(Pick(c, ids), Differ())
  {
    var out := Pick(c, ids);
    forall l | l in out ensures Needs(c, id, l) {
      var i :| 0 <= i < |out| && out[i] == l;
      assert ids[i] in ids;
    }
    forall l | Needs(c, id, l) ensures l in out {
      assert l.id in ids;
      var i :| 0 <= i < |ids| && ids[i] == l.id;
      assert out[i] == l;
    }
    forall i, j | 0 <= i < j < |out| ensures Differ()(out[i], out[j]) {
      assert ids[i] in ids && ids[j] in ids && ids[i] != ids[j];
    }
  }

  lemma Partition(k: Kinds, c: Catalog, id: u32, ids: seq<u32>)
    requires Filed(c) && Lists(c, id, ids)
    ensures var closure := Pick(c, ids);
      var remote, local := Sort(Filter(closure, Remote(k)), ById), Filter(closure, Local(k));
      && Ordered(remote, Below()) && multiset(remote) + multiset(local) == multiset(closure)
      && (forall l :: l in remote <==> Needs(c, id, l) && Remote(k)(l))
      && (forall l :: l in local <==> Needs(c, id, l) && !Remote(k)(l))
  {
    var closure := Pick(c, ids);
    PickedElements(c, id, ids);
    FilterElements(closure, Remote(k));
    FilterElements(closure, Local(k));
    FilterOrdered(closure, Remote(k), Differ());
    SortById(Filter(closure, Remote(k)));
    FilterSplits(closure, Remote(k), Local(k));
    hide Filter, Sort, Needs, Remote, Pick, Lists;
  }

  lemma MediaElements(k: Kinds, p: Providers, c: Catalog, id: u32, remote: seq<Location>)
    requires Ordered(remote, Below()) && forall l :: l in remote <==> Needs(c, id, l) && Remote(k)(l)
    ensures var raw := Filter(remote, FromProvider(p.cri));
      Ordered(raw, Below()) && forall l :: l in raw <==> NeedsMedia(k, p, c, id, l)
  {
    FilterElements(remote, FromProvider(p.cri));
    FilterOrdered(remote, FromProvider(p.cri), Below());
    hide Filter, Needs, Remote;
  }

  /** Why a closure was refused. */
  ghost predicate Fails(p: Providers, c: Catalog, id: u32, cause: Unclosed)
  {
    match cause
    case DependencyMissing => exists x :: From(c, id, x) && x !in c.locations
    case UnsupportedProvider => exists x :: From(c, id, x) && Downloadable(c, x) && !Supported(p, c.locations[x])
    case NothingToDownload => forall x :: From(c, id, x) ==> Clean(c, p, x) && !Downloadable(c, x)
  }

  ghost predicate Closes(p: Providers, c: Catalog, id: u32)
  {
    && (forall x :: From(c, id, x) ==> Clean(c, p, x))
    && exists x :: From(c, id, x) && Downloadable(c, x)
  }

  /** Why no plan was made. */
  ghost predicate Explains(
    k: Kinds, p: Providers, c: Catalog, key: bytes, s: Selector, archive: bool, e: Unplanned)
  {
    match e
    case NotResolved(why) => Resolve(c, key, s) == Err(why)
    case NotClosed(cause) =>
      Resolve(c, key, s).Ok? && Fails(p, c, Resolve(c, key, s).value.id, cause)
    case AmbiguousMedia =>
      Resolve(c, key, s).Ok? && key in c.keys && var target := Resolve(c, key, s).value;
      Closes(p, c, target.id) && Undecided(k, p, c, target, archive || IsFont(k, c, key))
    case TooMany =>
      Resolve(c, key, s).Ok? && key in c.keys && var target := Resolve(c, key, s).value;
      Closes(p, c, target.id) && Overfull(k, p, c, target, archive || IsFont(k, c, key))
  }

  /** The keys that have a plan. */
  ghost predicate Plannable(k: Kinds, p: Providers, c: Catalog, key: bytes, s: Selector, archive: bool)
  {
    Resolve(c, key, s).Ok? && key in c.keys && var target := Resolve(c, key, s).value;
    var whole := archive || IsFont(k, c, key);
    Closes(p, c, target.id) && !Undecided(k, p, c, target, whole) && !Overfull(k, p, c, target, whole)
  }

  /** No reason to refuse holds of a key that has a plan. */
  lemma ExplainedIsNotPlannable(
    k: Kinds, p: Providers, c: Catalog, key: bytes, s: Selector, archive: bool, e: Unplanned)
    requires Explains(k, p, c, key, s, archive, e)
    ensures !Plannable(k, p, c, key, s, archive)
  {
    hide Resolve, IsFont, Undecided, Overfull;
  }

  /** A list of distinct locations is no longer than one that holds them all. */
  lemma NoLonger(many: seq<Location>, all: seq<Location>)
    requires Ordered(many, Below()) && Ordered(all, Below()) && forall l :: l in many ==> l in all
    ensures |many| <= |all|
  {
    forall i, j | 0 <= i < j < |many| ensures many[i] != many[j] {
      assert Below()(many[i], many[j]);
    }
    forall i, j | 0 <= i < j < |all| ensures all[i] != all[j] {
      assert Below()(all[i], all[j]);
    }
    DistinctSize(many);
    DistinctSize(all);
    SubsetSize(set l | l in many, set l | l in all);
  }

  lemma ResolvedKey(c: Catalog, key: bytes, s: Selector)
    ensures Resolve(c, key, s).Ok? ==> key in c.keys
  {
  }

  ghost predicate RemoteNeeds(k: Kinds, c: Catalog, id: u32, ls: seq<Location>)
  {
    Ordered(ls, Below()) && forall l :: l in ls <==> Needs(c, id, l) && Remote(k)(l)
  }

  /** A media preview keeps its one media file; without one the media is embedded. */
  method Narrow(k: Kinds, p: Providers, c: Catalog, ghost id: u32, remote: seq<Location>)
    returns (kept: seq<Location>, embedded: bool, ambiguous: bool)
    requires RemoteNeeds(k, c, id, remote)
    ensures ambiguous <==> TwoMedia(k, p, c, id)
    ensures !ambiguous ==> Ordered(kept, Below()) && (embedded <==> !SomeMedia(k, p, c, id))
    ensures !ambiguous && embedded ==> kept == remote
    ensures !ambiguous && !embedded ==> |kept| == 1 && forall l :: l in kept <==> NeedsMedia(k, p, c, id, l)
  {
    var raw := Filter(remote, FromProvider(p.cri));
    MediaElements(k, p, c, id, remote);
    hide Filter, NeedsMedia;
    if |raw| > 1 {
      assert raw[0] in raw && raw[1] in raw && Below()(raw[0], raw[1]);
      return remote, false, true;
    }
    assert !TwoMedia(k, p, c, id) by {
      forall a: Location, b: Location | NeedsMedia(k, p, c, id, a) && NeedsMedia(k, p, c, id, b) ensures a.id == b.id {
        assert a in raw && b in raw;
      }
    }
    if raw == [] {
      return remote, true, false;
    }
    assert raw[0] in raw;
    return raw, false, false;
  }

  lemma PlanContent(k: Kinds, p: Providers, c: Catalog, plan: Plan, remote: seq<Location>)
    requires RemoteNeeds(k, c, plan.target.id, remote)
    requires forall l :: l in plan.omittedLocal <==> Needs(c, plan.target.id, l) && !Remote(k)(l)
    requires Ordered(plan.dependencies, Below()) && |plan.dependencies| <= MAX_DEPENDENCIES
    requires var media := IsMedia(k, p, plan.target) && !plan.archive;
      && (plan.embeddedCri <==> media && !SomeMedia(k, p, c, plan.target.id))
      && (!media || plan.embeddedCri ==> plan.dependencies == remote)
      && (media && !plan.embeddedCri ==> |plan.dependencies| == 1)
      && (media && !plan.embeddedCri ==> forall l :: l in plan.dependencies <==> NeedsMedia(k, p, c, plan.target.id, l))
    ensures Content(k, p, c, plan)
  {
    hide Needs, Remote, IsMedia;
    assert Narrowed(k, p, c, plan) <==>
      IsMedia(k, p, plan.target) && !plan.archive && SomeMedia(k, p, c, plan.target.id);
    hide Narrowed;
  }

  lemma ManyRemote(k: Kinds, c: Catalog, id: u32, remote: seq<Location>)
    requires RemoteNeeds(k, c, id, remote)
    ensures TooManyRemote(k, c, id) <==> |remote| > MAX_DEPENDENCIES
  {
    hide Needs, Remote, Below;
    forall many | Ordered(many, Below()) && forall l :: l in many ==> Needs(c, id, l) && Remote(k)(l)
      ensures |many| <= |remote|
    {
      NoLonger(many, remote);
    }
  }

  /** The narrowing and the limit, on a closure that is already split and sorted. */
  method Finish(k: Kinds, p: Providers, c: Catalog, target: Location, font: bool, archive: bool,
    remote: seq<Location>, omittedLocal: seq<Location>)
    returns (r: Result<Plan, Unplanned>)
    requires RemoteNeeds(k, c, target.id, remote)
    requires forall l :: l in omittedLocal <==> Needs(c, target.id, l) && !Remote(k)(l)
    ensures r.Ok? ==> var plan := r.value;
      && plan.target == target && plan.font == font && plan.archive == archive && plan.omittedLocal == omittedLocal
      && plan.supported == (archive || HasPreview(k, p, target)) && Content(k, p, c, plan)
      && (archive ==> plan.dependencies == remote)
    ensures r.Ok? <==> !Undecided(k, p, c, target, archive) && !Overfull(k, p, c, target, archive)
    ensures r.Err? ==>
      || (r.error == AmbiguousMedia && Undecided(k, p, c, target, archive))
      || (r.error == TooMany && Overfull(k, p, c, target, archive))
  {
    hide IsMedia, Needs, Remote, NeedsMedia, TwoMedia, SomeMedia, HasPreview, TooManyRemote;
    ManyRemote(k, c, target.id, remote);
    var dependencies, embeddedCri := remote, false;
    if IsMedia(k, p, target) && !archive {
      var ambiguous: bool;
      dependencies, embeddedCri, ambiguous := Narrow(k, p, c, target.id, remote);
      if ambiguous {
        return Err(AmbiguousMedia);
      }
      MediaAreNeeds(k, p, c, target.id);
    }
    if |dependencies| > MAX_DEPENDENCIES {
      return Err(TooMany);
    }
    var plan := Plan(target, dependencies, omittedLocal, archive, font, embeddedCri,
      archive || HasPreview(k, p, target));
    PlanContent(k, p, c, plan, remote);
    hide Content;
    return Ok(plan);
  }

  lemma MediaAreNeeds(k: Kinds, p: Providers, c: Catalog, id: u32)
    ensures forall l :: NeedsMedia(k, p, c, id, l) ==> Needs(c, id, l) && Remote(k)(l)
  {
  }

  lemma ClosedAndNotEmpty(p: Providers, c: Catalog, id: u32, ids: seq<u32>)
    requires Lists(c, id, ids) && Pick(c, ids) != [] && forall x :: From(c, id, x) ==> Clean(c, p, x)
    ensures Closes(p, c, id)
  {
    hide From, Clean, Downloadable;
    assert ids[0] in ids;
  }

  /** The closure, split into its remote part, ascending by id, and its local part. */
  method Divide(k: Kinds, p: Providers, c: Catalog, id: u32)
    returns (cause: Option<Unclosed>, remote: seq<Location>, local: seq<Location>, ghost ids: seq<u32>)
    requires Filed(c)
    ensures cause.Some? ==> Fails(p, c, id, cause.value)
    ensures cause.None? ==> Closes(p, c, id)
    ensures cause.None? ==>
      && Lists(c, id, ids) && multiset(remote) + multiset(local) == multiset(Pick(c, ids))
      && RemoteNeeds(k, c, id, remote) && forall l :: l in local <==> Needs(c, id, l) && !Remote(k)(l)
  {
    hide Clean, Downloadable, Supported, From, Filter, Sort, Needs, Remote, Local, Lists, Pick;
    var closure: Result<seq<Location>, Unclosed>;
    closure, ids := ClosureFrom(c, p, id);
    if closure.Err? {
      return Some(closure.error), [], [], ids;
    }
    Partition(k, c, id, ids);
    ClosedAndNotEmpty(p, c, id, ids);
    return None, Sort(Filter(closure.value, Remote(k)), ById), Filter(closure.value, Local(k)), ids;
  }

  /** The name that a target goes by has no part in the policy. */
  lemma RenamedTarget(k: Kinds, p: Providers, c: Catalog, key: bytes, target: Location, whole: bool)
    ensures Undecided(k, p, c, target.(key := key), whole) <==> Undecided(k, p, c, target, whole)
    ensures Overfull(k, p, c, target.(key := key), whole) <==> Overfull(k, p, c, target, whole)
  {
    hide TwoMedia, SomeMedia, TooManyRemote;
  }

  lemma HasPlan(k: Kinds, p: Providers, c: Catalog, key: bytes, s: Selector, archive: bool)
    requires Resolve(c, key, s).Ok? && key in c.keys
    requires Closes(p, c, Resolve(c, key, s).value.id)
    ensures var target, whole := Resolve(c, key, s).value, archive || IsFont(k, c, key);
      Plannable(k, p, c, key, s, archive) <==>
      !Undecided(k, p, c, target, whole) && !Overfull(k, p, c, target, whole)
  {
    hide Resolve, IsFont, Undecided, Overfull, Closes;
  }

  /** A plan exactly for the keys that have one; otherwise a reason that holds. */
  method Build(k: Kinds, p: Providers, c: Catalog, key: bytes, s: Selector, archive: bool)
    returns (r: Result<Plan, Unplanned>, ghost ids: seq<u32>)
    requires Filed(c)
    ensures r.Ok? ==> Planned(k, p, c, key, s, archive, r.value)
    ensures r.Ok? && r.value.archive ==> Lossless(c, r.value, ids)
    ensures r.Ok? <==> Plannable(k, p, c, key, s, archive)
    ensures r.Err? ==> Explains(k, p, c, key, s, archive, r.error)
  {
    ResolvedKey(c, key, s);
    hide Resolve, IsFont, Content, HasPreview, Fails, Lists, Pick, Needs, Remote, IsMedia, Closes, TwoMedia, SomeMedia,
      TooManyRemote, Plannable;
    ids := [];
    var resolved := Resolve(c, key, s);
    if resolved.Err? {
      r := Err(NotResolved(resolved.error));
      ExplainedIsNotPlannable(k, p, c, key, s, archive, r.error);
      return;
    }
    var target := resolved.value.(key := key);
    var font := IsFont(k, c, key);
    var cause, remote, omittedLocal;
    cause, remote, omittedLocal, ids := Divide(k, p, c, target.id);
    if cause.Some? {
      r := Err(NotClosed(cause.value));
      ExplainedIsNotPlannable(k, p, c, key, s, archive, r.error);
      return;
    }
    r := Finish(k, p, c, target, font, archive || font, remote, omittedLocal);
    RenamedTarget(k, p, c, key, resolved.value, archive || font);
    HasPlan(k, p, c, key, s, archive);
  }

  // ----- the policy in words

  /** One byte string starts with another. */
  predicate Starts(s: bytes, prefix: bytes)
  {
    |prefix| <= |s| && s[..|prefix|] == prefix
  }

  /** What a plan says of its key, and where each location that it names is loaded from. */
  lemma PlanMeaning(k: Kinds, p: Providers, c: Catalog, key: bytes, s: Selector, archive: bool, plan: Plan)
    requires Planned(k, p, c, key, s, archive, plan)
    ensures plan.font <==>
      exists id :: id in c.keys[key] && id in c.locations && c.locations[id].resourceType in {k.textMeshFont, k.font}
    ensures plan.archive <==> archive || plan.font
    ensures plan.supported <==>
      || plan.archive || plan.target.provider == p.cri || Starts(plan.target.resourceType, k.criPrefix)
      || plan.target.resourceType in {k.splitAcb, k.textAsset, k.texture, k.sprite, k.spriteAtlas}
    ensures forall l :: l in plan.dependencies ==> Starts(l.internal, k.https) || Starts(l.internal, k.http)
    ensures forall l :: l in plan.omittedLocal ==> !Starts(l.internal, k.https) && !Starts(l.internal, k.http)
    ensures plan.embeddedCri ==>
      && !plan.archive && (plan.target.provider == p.cri || Starts(plan.target.resourceType, k.criPrefix))
      && forall l :: l in plan.dependencies ==> l.provider != p.cri
  {
    hide Resolve;
    assert forall l: Location, prefix :: prefix <= l.internal <==> Starts(l.internal, prefix);
    forall l | plan.embeddedCri && l in plan.dependencies ensures l.provider != p.cri {
      assert !NeedsMedia(k, p, c, plan.target.id, l);
    }
  }

  /** A closure is complete when nothing is missing and every file in it comes from one of the three providers. */
  lemma ClosesMeaning(p: Providers, c: Catalog, id: u32)
    ensures Closes(p, c, id) <==>
      && (forall x :: From(c, id, x) ==> x in c.locations)
      && (forall x :: From(c, id, x) && c.locations[x].options.Some? ==>
            c.locations[x].provider in {p.crypt, p.plain, p.cri})
      && exists x :: From(c, id, x) && x in c.locations && c.locations[x].options.Some?
    ensures Fails(p, c, id, UnsupportedProvider) ==>
      exists x :: From(c, id, x) && x in c.locations && c.locations[x].options.Some? &&
        c.locations[x].provider !in {p.crypt, p.plain, p.cri}
  {
    hide From;
  }

  // ----- archiving every resource

  const ANYTHING := Selector(None, None)

  predicate IsResource(k: Kinds, l: Location)
  {
    l.options.Some? && Remote(k)(l)
  }

  /** The location is the only one listed under its primary key. */
  predicate Addressable(c: Catalog, l: Location)
  {
    l.key in c.keys && c.keys[l.key] == [l.id]
  }

  /** One key for each HTTP resource; the order of the map does not matter. */
  method ArchiveKeys(k: Kinds, c: Catalog) returns (r: Option<seq<bytes>>)
    requires Filed(c)
    ensures r.Some? <==>
      forall id :: id in c.locations && IsResource(k, c.locations[id]) ==> Addressable(c, c.locations[id])
    ensures r.Some? ==> forall i, j :: 0 <= i < j < |r.value| ==> r.value[i] != r.value[j]
    ensures r.Some? ==> forall key :: key in r.value <==>
      exists id :: id in c.locations && IsResource(k, c.locations[id]) && c.locations[id].key == key
  {
    var todo, keys: seq<bytes> := c.locations.Keys, [];
    ghost var done: set<u32> := {};
    while todo != {}
      invariant done + todo == c.locations.Keys && done !! todo
      invariant forall id :: id in done && IsResource(k, c.locations[id]) ==> Addressable(c, c.locations[id])
      invariant forall i, j :: 0 <= i < j < |keys| ==> keys[i] != keys[j]
      invariant forall key :: key in keys <==>
        exists id :: id in done && IsResource(k, c.locations[id]) && c.locations[id].key == key
      decreases todo
    {
      var id :| id in todo;
      var l := c.locations[id];
      if IsResource(k, l) {
        if !Addressable(c, l) {
          return None;
        }
        KeyIsNew(k, c, done, id);
        assert l.key !in keys;
        keys := keys + [l.key];
      }
      done, todo := done + {id}, todo - {id};
    }
    return Some(keys);
  }

  lemma KeyIsNew(k: Kinds, c: Catalog, done: set<u32>, id: u32)
    requires Filed(c) && done <= c.locations.Keys && id in c.locations && id !in done && Addressable(c, c.locations[id])
    requires forall x :: x in done && IsResource(k, c.locations[x]) ==> Addressable(c, c.locations[x])
    ensures forall x :: x in done && IsResource(k, c.locations[x]) ==> c.locations[x].key != c.locations[id].key
  {
  }

  /** Whatever plan is made for the primary key of a resource, it downloads that resource. */
  lemma ArchiveHasResource(k: Kinds, p: Providers, c: Catalog, id: u32, plan: Plan)
    requires Filed(c) && id in c.locations && IsResource(k, c.locations[id]) && Addressable(c, c.locations[id])
    requires Planned(k, p, c, c.locations[id].key, ANYTHING, true, plan)
    ensures plan.target == c.locations[id] && c.locations[id] in plan.dependencies
  {
    var l := c.locations[id];
    ResourceResolves(c, id);
    hide Resolve, IsFont, HasPreview, Remote;
    RootReached(Edges(c), {id}, id);
    assert Needs(c, id, l);
  }

  /** The selection by itself always resolves to the resource. */
  lemma ResourceResolves(c: Catalog, id: u32)
    requires Filed(c) && id in c.locations && Addressable(c, c.locations[id])
    ensures Resolve(c, c.locations[id].key, ANYTHING) == Ok(c.locations[id])
  {
    var l := c.locations[id];
    assert c.keys[l.key] == [id];
    assert [id][1..] == [];
    assert Candidates(c, []) == Some([]) && [l] + [] == [l];
    assert Candidates(c, [id]) == Some([l]);
    assert Filter([l], Fits(ANYTHING)) == [l] by {
      assert [l][1..] == [] && [l] + [] == [l];
    }
  }
}
