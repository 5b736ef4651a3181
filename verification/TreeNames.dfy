/**
 What an export puts into a tree, said of the artifacts themselves: where each one goes, what its entry says, and which
 artifacts are acceptable at all.
 */
module TreeNames {
  import opened Bytes
  import opened Order
  import opened TreePlan
  import opened TreeExport
  import Component

  // ----- one artifact

  predicate AsciiAlphanumeric(c: byte)
  {
    0x30 <= c <= 0x39 || 0x41 <= c <= 0x5A || 0x61 <= c <= 0x7A
  }

  predicate HexOrDash(c: byte)
  {
    c == 0x2D || 0x30 <= c <= 0x39 || 0x41 <= c <= 0x46 || 0x61 <= c <= 0x66
  }

  /** The name of an artifact is a stem and, behind its last dot, a short alphanumeric extension. */
  ghost predicate Divides(name: bytes, stem: bytes, ext: bytes)
  {
    && name == stem + [0x2E] + ext && stem != [] && 0x2E !in ext
    && |ext| <= 12 && forall i :: 0 <= i < |ext| ==> AsciiAlphanumeric(ext[i])
  }

  /** The last part of a key, as it is written. */
  function Base(s: Source, key: bytes): bytes
  {
    Component.Named(s.digest, Split(key)[|Split(key)| - 1])
  }

  /** The first sixteen letters of a digest. */
  ghost predicate Abbreviates(s: Source, v: bytes, short: bytes)
  {
    short <= s.digest(v) && (|short| == 16 || (|short| < 16 && short == s.digest(v)))
  }

  /**
   The file name by role: an alpha mask is the last part of its key with the mask's suffix; color and video are that
   part with the artifact's extension; everything else is its title, a tilde and a digest of its stable id.
   */
  ghost predicate FileNamed(s: Source, m: Manifest, f: Artifact, role: bytes, ext: bytes, name: bytes)
  {
    if role == s.words.alphaMask then name == Base(s, m.key) + s.words.alphaSuffix
    else if role == s.words.color || role == s.words.video then name == Base(s, m.key) + [0x2E] + ext
    else exists short ::
      && Abbreviates(s, if f.stableId.Some? then f.stableId.value else f.id, short)
      && name == Component.Named(s.digest, f.title) + [0x7E] + short + [0x2E] + ext
  }

  /** The entry of one artifact, field by field. */
  ghost predicate Describes(s: Source, m: Manifest, f: Artifact, o: Object)
  {
    && o.assetKey == m.key && o.exportId == m.id && o.snapshot == m.snapshot && o.profile == m.profile
    && o.artifactId == f.id && o.title == f.title && o.contentType == f.mediaType && o.size == f.size && o.sha == f.sha
    && (f.role.Some? ==> o.role == f.role.value) && (f.role.None? ==> o.role == s.words.asset)
    && exists stem, ext, name ::
      && Divides(f.name, stem, ext) && FileNamed(s, m, f, o.role, ext, name)
      && o.objectKey == Directory(s, m.key) + [0x2F] + name
  }

  /** An artifact that can be exported: a plain name, a hexadecimal export id, and the declared content in the store. */
  ghost predicate Exportable(s: Source, m: Manifest, f: Artifact, o: Object)
  {
    && Describes(s, m, f, o) && SafePath(o.objectKey)
    && m.id != [] && (forall i :: 0 <= i < |m.id| ==> HexOrDash(m.id[i])) && 0x2F !in f.name && f.name != [0x2E, 0x2E]
    && SafePath(s.words.exports + [0x2F] + m.id + [0x2F] + f.name)
    && (m.id, f.name) in s.store && |s.store[(m.id, f.name)]| == f.size && s.digest(s.store[(m.id, f.name)]) == f.sha
  }

  lemma {:induction false} ExtensionSplits(name: bytes)
    ensures Extension(name).Some? ==> exists stem ::
      name == stem + [0x2E] + Extension(name).value && stem != [] && 0x2E !in Extension(name).value
  {
    if Extension(name).Some? {
      var last := name[|name| - 1];
      if last == DOT {
        assert name == name[..|name| - 1] + [0x2E] + [];
      } else {
        var front := name[..|name| - 1];
        ExtensionSplits(front);
        var stem :| front == stem + [0x2E] + Extension(front).value && stem != [];
        assert name == stem + [0x2E] + (Extension(front).value + [last]);
      }
    }
  }

  lemma {:induction false} SplitsExtension(name: bytes, stem: bytes, ext: bytes)
    requires name == stem + [0x2E] + ext && stem != [] && 0x2E !in ext
    ensures Extension(name) == Some(ext)
    decreases |ext|
  {
    if ext == [] {
      assert name[|name| - 1] == DOT;
    } else {
      var front, last := ext[..|ext| - 1], ext[|ext| - 1];
      assert ext == front + [last] && last in ext;
      assert name[..|name| - 1] == stem + [0x2E] + front;
      assert forall c :: c in front ==> c in ext;
      SplitsExtension(name[..|name| - 1], stem, front);
    }
  }

  lemma ExtensionDivides(name: bytes, ext: bytes)
    ensures Extension(name) == Some(ext) && GoodExtension(ext) <==> exists stem :: Divides(name, stem, ext)
  {
    if Extension(name) == Some(ext) && GoodExtension(ext) {
      ExtensionSplits(name);
      var stem :| name == stem + [0x2E] + ext && stem != [];
      assert Divides(name, stem, ext);
    }
    if stem :| Divides(name, stem, ext) {
      SplitsExtension(name, stem, ext);
    }
  }

  lemma NameFits(s: Source, m: Manifest, f: Artifact, ext: bytes, name: bytes)
    ensures FileNamed(s, m, f, RoleOf(s, f), ext, name) <==> name == FileName(s, m, f, ext)
  {
    hide Component.Named, Split;
    var v := StableId(f);
    assert Abbreviates(s, v, Component.Short(s.digest, v));
    forall short | Abbreviates(s, v, short) ensures short == Component.Short(s.digest, v) {
      assert |short| == 16 ==> short == s.digest(v)[..16];
    }
  }

  lemma PlainNames(m: Manifest, f: Artifact)
    ensures PlainId(m.id) <==> m.id != [] && forall i :: 0 <= i < |m.id| ==> HexOrDash(m.id[i])
    ensures Extension(f.name).Some? ==> (PlainName(f.name) <==> 0x2F !in f.name && f.name != [DOT, DOT])
  {
  }

  lemma EntryFits(s: Source, m: Manifest, f: Artifact, o: Object)
    ensures Describes(s, m, f, o) <==>
      Extension(f.name).Some? && GoodExtension(Extension(f.name).value) &&
      o == ObjectOf(s, m, f, Extension(f.name).value)
  {
    hide FileNamed, FileName, Divides, Directory, Extension, GoodExtension;
    if Describes(s, m, f, o) {
      var stem, ext, name :| Divides(f.name, stem, ext) && FileNamed(s, m, f, o.role, ext, name)
        && o.objectKey == Directory(s, m.key) + [0x2F] + name;
      ExtensionDivides(f.name, ext);
      NameFits(s, m, f, ext, name);
    }
    if Extension(f.name).Some? && GoodExtension(Extension(f.name).value) {
      var ext := Extension(f.name).value;
      ExtensionDivides(f.name, ext);
      var stem :| Divides(f.name, stem, ext);
      NameFits(s, m, f, ext, FileName(s, m, f, ext));
      if o == ObjectOf(s, m, f, ext) {
        assert FileNamed(s, m, f, o.role, ext, FileName(s, m, f, ext));
      }
    }
  }

  /** An artifact is taken up exactly when it can be exported, with its entry and its stored content. */
  lemma ItemFits(s: Source, m: Manifest, f: Artifact, o: Object, content: bytes)
    ensures ItemOf(s, m, f) == Some(Item(o, content)) <==>
      Exportable(s, m, f, o) && content == s.store[(m.id, f.name)]
  {
    EntryFits(s, m, f, o);
    PlainNames(m, f);
    if Extension(f.name).Some? {
      var ext := Extension(f.name).value;
      EntryFits(s, m, f, ObjectOf(s, m, f, ext));
      hide Describes, FileName, Directory, Extension, GoodExtension, SafePath, PlainId, PlainName;
    }
  }

  // ----- a whole export

  ghost predicate Stands(s: Source, ms: seq<Manifest>, o: Object, content: bytes)
  {
    exists m, f :: m in ms && f in m.files && Exportable(s, m, f, o) && content == s.store[(m.id, f.name)]
  }

  lemma {:induction false} ItemsStand(s: Source, m: Manifest, files: seq<Artifact>)
    requires ItemsOf(s, m, files).Some?
    ensures forall x :: x in ItemsOf(s, m, files).value ==>
      exists f :: f in files && ItemOf(s, m, f) == Some(x)
    ensures forall f :: f in files ==> ItemOf(s, m, f).Some? && ItemOf(s, m, f).value in ItemsOf(s, m, files).value
  {
    hide ItemOf;
    if files != [] {
      var front, last := files[..|files| - 1], files[|files| - 1];
      assert files == front + [last];
      ItemsStand(s, m, front);
    }
  }

  lemma {:induction false} AllStand(s: Source, ms: seq<Manifest>)
    requires AllItems(s, ms).Some?
    ensures forall x :: x in AllItems(s, ms).value ==>
      exists m, f :: m in ms && f in m.files && ItemOf(s, m, f) == Some(x)
    ensures forall m, f :: m in ms && f in m.files ==>
      ItemOf(s, m, f).Some? && ItemOf(s, m, f).value in AllItems(s, ms).value
  {
    hide ItemOf, Reserved;
    if ms != [] {
      var front, last := ms[..|ms| - 1], ms[|ms| - 1];
      assert ms == front + [last];
      AllStand(s, front);
      ItemsStand(s, last, last.files);
    }
  }

  /** Whatever is planned anew is the entry and the content of an artifact of one of the manifests. */
  lemma PlannedStand(s: Source, t: Tree, ms: seq<Manifest>, p: Plan, x: Item)
    requires Planned(s, t, ms) == Some(p) && x in p.items
    ensures Stands(s, ms, x.entry, x.content)
  {
    PlannedFrom(s, Lowered(IndexOf(t).objects), t.files, AllItems(s, ms).value);
    AllStand(s, ms);
    hide PlanItems, AllItems, Exportable, ItemOf, Checked;
    var m, f :| m in ms && f in m.files && ItemOf(s, m, f) == Some(x);
    ItemFits(s, m, f, x.entry, x.content);
  }

  /** Every object that an export adds is an artifact of one of the manifests, named and described as its role says. */
  lemma AddedObjects(s: Source, t: Tree, ms: seq<Manifest>, p: Plan, o: Object)
    requires Planned(s, t, ms) == Some(p)
    requires o in IndexOf(Finished(t, p)).objects && o !in IndexOf(t).objects
    ensures exists m, f :: m in ms && f in m.files && Exportable(s, m, f, o)
  {
    PlanIsSane(s, t, ms, p);
    FinishedIsBetween(t, p);
    BetweenObject(s, t, ms, p, |p.items|, |p.items|, Finished(t, p), o);
    hide Planned, Finished, Sane, Exportable;
    assert p.items[..|p.items|] == p.items;
    var x :| x in p.items && x.entry == o;
    PlannedStand(s, t, ms, p, x);
  }

  lemma {:induction false} PutOrigin(files: map<bytes, bytes>, items: seq<Item>, k: bytes)
    requires k in PutAll(files, items) && k !in files
    ensures exists x :: x in items && x.entry.objectKey == k && x.content == PutAll(files, items)[k]
  {
    var front, last := items[..|items| - 1], items[|items| - 1];
    assert items == front + [last];
    if k in PutAll(files, front) {
      PutOrigin(files, front, k);
    }
  }

  /** Every file that an export adds holds the stored content of an artifact, under the key that describes it. */
  lemma AddedFiles(s: Source, t: Tree, ms: seq<Manifest>, p: Plan, k: bytes)
    requires Planned(s, t, ms) == Some(p) && k in Finished(t, p).files && k !in t.files
    ensures exists o: Object :: o.objectKey == k && Stands(s, ms, o, Finished(t, p).files[k])
  {
    PutOrigin(t.files, p.items, k);
    hide Planned, PutAll, Stands;
    var x :| x in p.items && x.entry.objectKey == k && x.content == Finished(t, p).files[k];
    PlannedStand(s, t, ms, p, x);
  }

  lemma {:induction false} PlannedOrKnown(
    s: Source, e: map<bytes, Object>, files: map<bytes, bytes>, items: seq<Item>, x: Item)
    requires PlanItems(s, e, files, items).Some? && x in items
    ensures var known := Known(e, PlanItems(s, e, files, items).value);
      Key(x.entry) in known && known[Key(x.entry)] == x.entry
  {
    hide Key, Held;
    var front, last := items[..|items| - 1], items[|items| - 1];
    assert items == front + [last];
    var before := PlanItems(s, e, files, front).value;
    assert (before + [last])[..|before|] == before;
    if x in front {
      PlannedOrKnown(s, e, files, front, x);
    }
  }

  lemma {:induction false} LoweredIsListed(objects: seq<Object>, k: bytes)
    requires k in Lowered(objects)
    ensures Lowered(objects)[k] in objects
  {
    hide Key;
    if Key(objects[|objects| - 1]) != k {
      LoweredIsListed(objects[..|objects| - 1], k);
    }
  }

  /** Every artifact of every manifest is listed afterwards with the entry that describes it. */
  lemma EveryArtifactListed(s: Source, t: Tree, ms: seq<Manifest>, p: Plan, m: Manifest, f: Artifact)
    requires Planned(s, t, ms) == Some(p) && m in ms && f in m.files
    ensures exists o :: o in IndexOf(Finished(t, p)).objects && Exportable(s, m, f, o)
  {
    var objects := IndexOf(t).objects;
    var e := Lowered(objects);
    AllStand(s, ms);
    var x := ItemOf(s, m, f).value;
    ItemFits(s, m, f, x.entry, x.content);
    PlannedOrKnown(s, e, t.files, AllItems(s, ms).value, x);
    KnownIsLowered(objects, p.items);
    PlanIsSane(s, t, ms, p);
    hide PlanItems, AllItems, Exportable, ItemOf, Known, Lowered, Key, Checked, Merged;
    LoweredIsListed(objects + Objects(p.items), Key(x.entry));
    assert p.items[..|p.items|] == p.items;
    MergedElements(objects, p.items, |p.items|);
  }

  // ----- empty exports and the index

  predicate Entered(m: Manifest, e: Empty)
  {
    e.assetKey == m.key && e.exportId == m.id && e.snapshot == m.snapshot && e.profile == m.profile
  }

  /** The empty exports listed are those listed before and one for each manifest that is empty, with its own fields. */
  lemma {:induction false} EmptyEntries(empties: seq<Empty>, ms: seq<Manifest>, e: Empty)
    requires e in Empties(empties, ms) && e !in empties
    ensures exists m :: m in ms && m.empty && Entered(m, e)
  {
    hide ListsExport;
    var front, last := ms[..|ms| - 1], ms[|ms| - 1];
    assert ms == front + [last];
    if e in Empties(empties, front) {
      EmptyEntries(empties, front, e);
    } else {
      assert last in ms;
    }
  }

  /** The finished tree publishes its index as the upload plan; a list that has grown is in ascending order of keys. */
  lemma FinishedIndex(s: Source, t: Tree, ms: seq<Manifest>, p: Plan)
    requires Planned(s, t, ms) == Some(p)
    ensures var c := Finished(t, p);
      && c.index.Some? && c.uploadPlan == c.index && c.index.value.empties == Empties(IndexOf(t).empties, ms)
      && (p.items == [] ==> c.index.value.objects == IndexOf(t).objects && c.files == t.files)
      && (p.items != [] ==> forall i, j :: 0 <= i < j < |c.index.value.objects| ==>
            Less(c.index.value.objects[i].objectKey, c.index.value.objects[j].objectKey))
  {
    PlanIsSane(s, t, ms, p);
    hide PlanItems, AllItems, Checked, Sort, Less;
    if p.items != [] {
      MergedSorts(IndexOf(t).objects, p.items);
      SortedObjects(IndexOf(t).objects + Objects(p.items));
    }
  }

  // ----- when there is a plan

  ghost predicate Described(s: Source, ms: seq<Manifest>, o: Object)
  {
    exists m, f :: m in ms && f in m.files && Exportable(s, m, f, o)
  }

  /** No artifact is in conflict with another one, with what is listed, or with a file in its way. */
  ghost predicate Unopposed(s: Source, t: Tree, ms: seq<Manifest>)
  {
    && (forall o, q :: Described(s, ms, o) && Described(s, ms, q) && Lower(o.objectKey) == Lower(q.objectKey) ==>
          o == q)
    && (forall o, q :: Described(s, ms, o) && q in IndexOf(t).objects && Lower(o.objectKey) == Lower(q.objectKey) ==>
          o == q)
    && forall o :: Described(s, ms, o) && o !in IndexOf(t).objects && o.objectKey in t.files ==>
      |t.files[o.objectKey]| == o.size && s.digest(t.files[o.objectKey]) == o.sha
  }

  ghost predicate CanExport(s: Source, m: Manifest, f: Artifact)
  {
    exists o :: Exportable(s, m, f, o)
  }

  ghost predicate AllExportable(s: Source, ms: seq<Manifest>)
  {
    forall m :: m in ms ==> !Reserved(s, m) && forall f :: f in m.files ==> CanExport(s, m, f)
  }

  lemma ItemExists(s: Source, m: Manifest, f: Artifact)
    ensures ItemOf(s, m, f).Some? <==> CanExport(s, m, f)
  {
    if ItemOf(s, m, f).Some? {
      ItemFits(s, m, f, ItemOf(s, m, f).value.entry, ItemOf(s, m, f).value.content);
    }
    if o :| Exportable(s, m, f, o) {
      ItemFits(s, m, f, o, s.store[(m.id, f.name)]);
    }
    hide ItemOf, Exportable;
  }

  lemma {:induction false} ItemsExist(s: Source, m: Manifest, files: seq<Artifact>)
    ensures ItemsOf(s, m, files).Some? <==> forall f :: f in files ==> CanExport(s, m, f)
  {
    hide ItemOf, CanExport;
    if files != [] {
      var front, last := files[..|files| - 1], files[|files| - 1];
      assert files == front + [last];
      ItemsExist(s, m, front);
      ItemExists(s, m, last);
      assert forall f :: f in files <==> f in front || f == last;
    }
  }

  lemma {:induction false} AllExist(s: Source, ms: seq<Manifest>)
    ensures AllItems(s, ms).Some? <==> AllExportable(s, ms)
  {
    hide ItemsOf, CanExport, Reserved;
    if ms != [] {
      var front, last := ms[..|ms| - 1], ms[|ms| - 1];
      assert ms == front + [last];
      AllExist(s, front);
      ItemsExist(s, last, last.files);
      assert forall m :: m in ms <==> m in front || m == last;
    }
  }

  /** The items agree with each other, with what is known, and with the files in their way. */
  ghost predicate Harmonious(s: Source, e: map<bytes, Object>, files: map<bytes, bytes>, items: seq<Item>)
  {
    && (forall x, y :: x in items && y in items && Key(x.entry) == Key(y.entry) ==> x.entry == y.entry)
    && forall x :: x in items ==>
      && (Key(x.entry) in e ==> e[Key(x.entry)] == x.entry)
      && (Key(x.entry) !in e && x.entry.objectKey in files ==> Held(s, files, x.entry))
  }

  lemma {:induction false} KnownFrom(e: map<bytes, Object>, p: seq<Item>, k: bytes)
    requires New(e, p) && k in Known(e, p)
    ensures (k in e && Known(e, p)[k] == e[k]) ||
      exists x :: x in p && Key(x.entry) == k && Known(e, p)[k] == x.entry
  {
    hide Key, Known, New;
    if p == [] {
      KnownNothing(e);
    } else {
      var front, last := p[..|p| - 1], p[|p| - 1];
      assert p == front + [last];
      KnownStep(e, front, last);
      if k != Key(last.entry) {
        NewFront(e, p);
        KnownFrom(e, front, k);
      }
    }
  }

  lemma KnownNothing(e: map<bytes, Object>)
    ensures Known(e, []) == e
  {
  }

  lemma NewFront(e: map<bytes, Object>, p: seq<Item>)
    requires New(e, p) && p != []
    ensures New(e, p[..|p| - 1])
  {
    hide Key, Known;
    var front := p[..|p| - 1];
    forall i | 0 <= i < |front| ensures Key(front[i].entry) !in Known(e, front[..i]) {
      assert front[..i] == p[..i];
    }
  }

  lemma HarmoniousStep(
    s: Source, e: map<bytes, Object>, files: map<bytes, bytes>, front: seq<Item>, last: Item, p: seq<Item>)
    requires Harmonious(s, e, files, front) && New(e, p)
    requires forall x :: x in front ==> Key(x.entry) in Known(e, p) && Known(e, p)[Key(x.entry)] == x.entry
    requires forall x :: x in p ==> x in front
    requires forall k :: k in e ==> k in Known(e, p) && Known(e, p)[k] == e[k]
    ensures Decide(s, e, files, p, last).Some? <==> Harmonious(s, e, files, front + [last])
  {
    hide Key, Held, New, Known;
    var k := Key(last.entry);
    if k in Known(e, p) {
      KnownFrom(e, p, k);
    }
    assert forall x :: x in front + [last] <==> x in front || x == last;
  }

  lemma {:induction false} KnownKeeps(e: map<bytes, Object>, p: seq<Item>)
    requires New(e, p)
    ensures forall k :: k in e ==> k in Known(e, p) && Known(e, p)[k] == e[k]
  {
    KnownGrows(e, p, 0, |p|);
    assert p[..0] == [] && p[..|p|] == p;
    hide Key;
  }

  lemma {:induction false} PlanItemsExist(
    s: Source, e: map<bytes, Object>, files: map<bytes, bytes>, items: seq<Item>)
    ensures PlanItems(s, e, files, items).Some? <==> Harmonious(s, e, files, items)
  {
    hide Decide, Held, Key, New, Known;
    if items != [] {
      var front, last := items[..|items| - 1], items[|items| - 1];
      assert items == front + [last];
      PlanItemsExist(s, e, files, front);
      if PlanItems(s, e, files, front).Some? {
        var p := PlanItems(s, e, files, front).value;
        PlannedNew(s, e, files, front);
        PlannedFrom(s, e, files, front);
        KnownKeeps(e, p);
        forall x | x in front ensures Key(x.entry) in Known(e, p) && Known(e, p)[Key(x.entry)] == x.entry {
          PlannedOrKnown(s, e, files, front, x);
        }
        HarmoniousStep(s, e, files, front, last, p);
      } else {
        assert forall x :: x in front ==> x in items;
      }
    }
  }

  lemma LoweredFinds(objects: seq<Object>, k: bytes)
    requires DistinctKeys(objects)
    ensures forall o :: o in objects && Key(o) == k ==> k in Lowered(objects) && Lowered(objects)[k] == o
    ensures k in Lowered(objects) ==> Lowered(objects)[k] in objects && Key(Lowered(objects)[k]) == k
  {
    hide Key, Lowered;
    forall o | o in objects && Key(o) == k ensures k in Lowered(objects) && Lowered(objects)[k] == o {
      var i :| 0 <= i < |objects| && objects[i] == o;
      LoweredElement(objects, i);
    }
    if k in Lowered(objects) {
      LoweredKeys(objects);
      var i :| 0 <= i < |objects| && Key(objects[i]) == k;
      LoweredElement(objects, i);
    }
  }

  lemma DescribedItems(s: Source, ms: seq<Manifest>, o: Object)
    requires AllItems(s, ms).Some?
    ensures Described(s, ms, o) <==> exists x :: x in AllItems(s, ms).value && x.entry == o
  {
    AllStand(s, ms);
    hide AllItems, ItemOf, Exportable;
    if m, f :| m in ms && f in m.files && Exportable(s, m, f, o) {
      ItemStands(s, m, f, o);
    }
    if x :| x in AllItems(s, ms).value && x.entry == o {
      var m, f :| m in ms && f in m.files && ItemOf(s, m, f) == Some(x);
      ItemFits(s, m, f, x.entry, x.content);
    }
  }

  lemma ItemStands(s: Source, m: Manifest, f: Artifact, o: Object)
    requires Exportable(s, m, f, o)
    ensures ItemOf(s, m, f).Some? && ItemOf(s, m, f).value.entry == o
  {
    ItemFits(s, m, f, o, s.store[(m.id, f.name)]);
    hide ItemOf, Exportable;
  }

  lemma HarmonyIsUnopposed(s: Source, t: Tree, ms: seq<Manifest>)
    requires AllItems(s, ms).Some? && DistinctKeys(IndexOf(t).objects)
    ensures Harmonious(s, Lowered(IndexOf(t).objects), t.files, AllItems(s, ms).value) <==> Unopposed(s, t, ms)
  {
    var objects, items := IndexOf(t).objects, AllItems(s, ms).value;
    forall o ensures Described(s, ms, o) <==> exists x :: x in items && x.entry == o {
      DescribedItems(s, ms, o);
    }
    forall k
      ensures forall o :: o in objects && Key(o) == k ==> k in Lowered(objects) && Lowered(objects)[k] == o
      ensures k in Lowered(objects) ==> Lowered(objects)[k] in objects && Key(Lowered(objects)[k]) == k
    {
      LoweredFinds(objects, k);
    }
    hide AllItems, Described, Lowered, DistinctKeys, Lower;
    HarmonyWords(s, t, ms, objects, items);
  }

  lemma HarmonyWords(s: Source, t: Tree, ms: seq<Manifest>, objects: seq<Object>, items: seq<Item>)
    requires objects == IndexOf(t).objects
    requires forall o :: Described(s, ms, o) <==> exists x :: x in items && x.entry == o
    requires forall o :: o in objects ==> Key(o) in Lowered(objects) && Lowered(objects)[Key(o)] == o
    requires forall k :: k in Lowered(objects) ==> Lowered(objects)[k] in objects && Key(Lowered(objects)[k]) == k
    ensures Harmonious(s, Lowered(objects), t.files, items) <==> Unopposed(s, t, ms)
  {
    hide Described, Lowered, Lower;
    if Harmonious(s, Lowered(objects), t.files, items) {
      assert Unopposed(s, t, ms);
    }
    if Unopposed(s, t, ms) {
      forall x | x in items ensures Described(s, ms, x.entry) {
      }
    }
  }

  /** There is a plan exactly when the tree is sound and every artifact can be added to it without a conflict. */
  lemma PlanExists(s: Source, t: Tree, ms: seq<Manifest>)
    ensures Planned(s, t, ms).Some? <==>
      && DistinctKeys(IndexOf(t).objects) && AllHeld(s, t) && NoClash(s, AssetKeys(ms, IndexOf(t).objects))
      && Compatibly(Logical(IndexOf(t)), ms) && AllExportable(s, ms) && Unopposed(s, t, ms)
  {
    AssignedIff(Logical(IndexOf(t)), ms);
    AllExist(s, ms);
    hide PlanItems, AllItems, AllHeld, NoClash, AssetKeys, Compatibly, Logical, Assigned, AllExportable, Unopposed,
      DistinctKeys, Lowered;
    if DistinctKeys(IndexOf(t).objects) && AllItems(s, ms).Some? {
      HarmonyIsUnopposed(s, t, ms);
      PlanItemsExist(s, Lowered(IndexOf(t).objects), t.files, AllItems(s, ms).value);
    }
  }

  // ----- the alpha masks

  lemma DotAt(a: bytes, b: bytes)
    requires 0x2E !in b
    ensures var whole := a + [0x2E] + b;
      whole[|a|] == 0x2E && forall i :: |a| < i < |whole| ==> whole[i] != 0x2E
  {
    var whole := a + [0x2E] + b;
    assert forall i :: |a| < i < |whole| ==> whole[i] == b[i - |a| - 1];
  }

  lemma LastDot(a: bytes, b: bytes, p: bytes, q: bytes)
    requires a + [0x2E] + b == p + [0x2E] + q && 0x2E !in b && 0x2E !in q
    ensures a == p && b == q
  {
    var whole := a + [0x2E] + b;
    DotAt(a, b);
    DotAt(p, q);
    assert a == whole[..|a|] && p == whole[..|p|];
    assert b == whole[|a| + 1..] && q == whole[|p| + 1..];
  }

  lemma NoDotNear(front: bytes, short: bytes, base: bytes, a: bytes)
    requires |a| < |short| && 0x2E !in short
    ensures front + short != base + [0x2E] + a
  {
    var x, y := front + short, base + [0x2E] + a;
    assert y[|base|] == 0x2E;
    assert forall i :: |front| <= i < |x| ==> x[i] == short[i - |front|];
  }

  lemma TitledIsNoMask(front: bytes, short: bytes, ext: bytes, base: bytes, a: bytes, b: bytes)
    requires |a| < |short| && 0x2E !in short && 0x2E !in ext && 0x2E !in b
    ensures front + short + [0x2E] + ext != base + ([0x2E] + a + [0x2E] + b)
  {
    NoDotNear(front, short, base, a);
    var mask := base + [0x2E] + a;
    assert base + ([0x2E] + a + [0x2E] + b) == mask + [0x2E] + b;
    if front + short + [0x2E] + ext == mask + [0x2E] + b {
      LastDot(front + short, ext, mask, b);
    }
  }

  lemma MediaIsNoMask(base: bytes, ext: bytes, a: bytes, b: bytes)
    requires 0x2E !in ext
    ensures base + [0x2E] + ext != base + ([0x2E] + a + [0x2E] + b)
  {
    var x, y := base + [0x2E] + ext, base + ([0x2E] + a + [0x2E] + b);
    DotAt(base, ext);
    assert y[|base| + 1 + |a|] == 0x2E;
  }

  lemma ShortHasNoDot(s: Source, v: bytes, short: bytes)
    requires Component.Printed(s.digest) && Abbreviates(s, v, short)
    ensures |short| == 16 && 0x2E !in short
  {
    assert forall i :: 0 <= i < |short| ==> short[i] == s.digest(v)[i];
  }

  /** Where digests are printed and the mask's suffix has two dots, an alpha mask is known by its key as by its role. */
  lemma MaskByKey(s: Source, m: Manifest, f: Artifact, o: Object, a: bytes, b: bytes)
    requires Component.Printed(s.digest) && s.words.alphaSuffix == [0x2E] + a + [0x2E] + b
    requires |a| < 16 && 0x2E !in a && 0x2E !in b && Describes(s, m, f, o)
    ensures o.role == s.words.alphaMask <==>
      o.objectKey == Directory(s, m.key) + [0x2F] + (Base(s, m.key) + s.words.alphaSuffix)
  {
    hide Directory, Base, Component.Named, Component.Printed, Abbreviates;
    var stem, ext, name :| Divides(f.name, stem, ext) && FileNamed(s, m, f, o.role, ext, name)
      && o.objectKey == Directory(s, m.key) + [0x2F] + name;
    var base, mask := Base(s, m.key), Base(s, m.key) + s.words.alphaSuffix;
    assert o.objectKey[|Directory(s, m.key)| + 1..] == name;
    assert (Directory(s, m.key) + [0x2F] + mask)[|Directory(s, m.key)| + 1..] == mask;
    if o.role == s.words.color || o.role == s.words.video {
      MediaIsNoMask(base, ext, a, b);
    } else if o.role != s.words.alphaMask {
      var v, title := if f.stableId.Some? then f.stableId.value else f.id, Component.Named(s.digest, f.title);
      var short :| Abbreviates(s, v, short) && name == title + [0x7E] + short + [0x2E] + ext;
      ShortHasNoDot(s, v, short);
      TitledIsNoMask(title + [0x7E], short, ext, base, a, b);
    }
  }
}
