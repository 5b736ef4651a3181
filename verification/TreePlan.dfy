/**
 Planning a tree export: every name, directory, identity and content is checked before anything is written.
 */
module TreePlan {
  import opened Bytes
  import Component
  import Text

  const MAX_PATH := 1024
  const MAX_EXTENSION := 12
  const SLASH: byte := 0x2F
  const DOT: byte := 0x2E
  const BACKSLASH: byte := 0x5C
  const COLON: byte := 0x3A
  const DASH: byte := 0x2D
  const TILDE: byte := 0x7E

  // ----- paths

  function Split(k: bytes): (r: seq<bytes>)
    ensures |r| > 0
  {
    if k == [] then [[]] else
      var rest := Split(k[1..]);
      if k[0] == SLASH then [[]] + rest else [[k[0]] + rest[0]] + rest[1..]
  }

  function Join(parts: seq<bytes>): bytes
  {
    if parts == [] then [] else if |parts| == 1 then parts[0] else parts[0] + [SLASH] + Join(parts[1..])
  }

  lemma JoinCons(part: bytes, rest: seq<bytes>)
    requires rest != []
    ensures Join([part] + rest) == part + [SLASH] + Join(rest)
  {
    assert ([part] + rest)[1..] == rest;
  }

  lemma JoinOne(part: bytes)
    ensures Join([part]) == part
  {
  }

  lemma JoinLonger(c: byte, part: bytes, rest: seq<bytes>)
    ensures Join([[c] + part] + rest) == [c] + Join([part] + rest)
  {
    var longer := [c] + part;
    if rest == [] {
      JoinOne(part);
      JoinOne(longer);
      hide Join;
      assert [longer] + rest == [longer] && [part] + rest == [part];
    } else {
      JoinCons(longer, rest);
      JoinCons(part, rest);
      hide Join;
      var tail := [SLASH] + Join(rest);
      assert longer + [SLASH] + Join(rest) == longer + tail && part + [SLASH] + Join(rest) == part + tail;
      assert longer + tail == [c] + (part + tail);
    }
  }

  lemma {:induction false} JoinSplit(k: bytes)
    ensures Join(Split(k)) == k
  {
    if k == [] {
    } else {
      var rest := Split(k[1..]);
      JoinSplit(k[1..]);
      JoinCons([], rest);
      JoinLonger(k[0], rest[0], rest[1..]);
      hide Join;
      assert rest == [rest[0]] + rest[1..];
      assert k == [k[0]] + k[1..];
      assert [] + [SLASH] + k[1..] == [SLASH] + k[1..];
    }
  }

  function Lower(s: bytes): (r: bytes)
    ensures |r| == |s|
  {
    if s == [] then [] else [if 0x41 <= s[0] <= 0x5A then s[0] + 0x20 else s[0]] + Lower(s[1..])
  }

  /** A relative path of at most 1024 bytes without drive, backslash, zero byte, empty or dotted parts. */
  predicate SafePath(p: bytes)
  {
    && |p| <= MAX_PATH && BACKSLASH !in p && COLON !in p && 0 !in p
    && forall part :: part in Split(p) ==> part != [] && part != [DOT] && part != [DOT, DOT]
  }

  // ----- entities

  datatype Artifact = Artifact(
    id: bytes, name: bytes, title: bytes, mediaType: bytes, size: nat, sha: bytes, stableId: Option<bytes>,
    role: Option<bytes>)

  datatype Manifest = Manifest(
    id: bytes, key: bytes, snapshot: bytes, profile: bytes, empty: bool, files: seq<Artifact>)

  datatype Object = Object(
    objectKey: bytes, assetKey: bytes, artifactId: bytes, title: bytes, contentType: bytes, size: nat, sha: bytes,
    snapshot: bytes, profile: bytes, role: bytes, exportId: bytes)

  datatype Empty = Empty(assetKey: bytes, exportId: bytes, snapshot: bytes, profile: bytes)

  datatype Index = Index(objects: seq<Object>, empties: seq<Empty>)

  /** The words of the format; everything below holds for any choice of them. */
  datatype Words = Words(
    meta: bytes, exports: bytes, alphaMask: bytes, color: bytes, video: bytes, asset: bytes, alphaSuffix: bytes)

  const FORMAT := Words(
    Text.Literal("_meta"), Text.Literal("exports"), Text.Literal("alpha-mask"), Text.Literal("color"),
    Text.Literal("video"), Text.Literal("asset"), Text.Literal(".alpha.mkv"))

  /** The service's export directory: the content of each artifact by export id and name. */
  type Store = map<(bytes, bytes), bytes>

  /** What a run reads but never changes. */
  datatype Source = Source(digest: bytes -> bytes, words: Words, store: Store)

  /** What is on the disk below the root of the tree. */
  datatype Tree = Tree(files: map<bytes, bytes>, index: Option<Index>, uploadPlan: Option<Index>)

  datatype Item = Item(entry: Object, content: bytes)

  datatype Plan = Plan(items: seq<Item>, empties: seq<Empty>)

  const NO_INDEX := Index([], [])

  function IndexOf(t: Tree): Index
  {
    if t.index.Some? then t.index.value else NO_INDEX
  }

  // ----- names

  function Named(s: Source, parts: seq<bytes>): (r: seq<bytes>)
    ensures |r| == |parts|
  {
    seq(|parts|, i requires 0 <= i < |parts| => Component.Named(s.digest, parts[i]))
  }

  function Directory(s: Source, key: bytes): bytes
  {
    Join(Named(s, Split(key)))
  }

  /** What follows the last dot, when something stands before it. */
  function Extension(name: bytes): Option<bytes>
  {
    if name == [] then None
    else if name[|name| - 1] == DOT then if |name| == 1 then None else Some([])
    else
      var rest :- Extension(name[..|name| - 1]);
      Some(rest + [name[|name| - 1]])
  }

  predicate PlainName(name: bytes)
  {
    name != [] && SLASH !in name && name != [DOT] && name != [DOT, DOT]
  }

  predicate PlainId(id: bytes)
  {
    id != [] && forall i :: 0 <= i < |id| ==>
      id[i] == DASH || Component.Digit(id[i]) || 0x41 <= id[i] <= 0x46 || 0x61 <= id[i] <= 0x66
  }

  function RoleOf(s: Source, f: Artifact): bytes
  {
    if f.role.Some? then f.role.value else s.words.asset
  }

  function StableId(f: Artifact): bytes
  {
    if f.stableId.Some? then f.stableId.value else f.id
  }

  function FileName(s: Source, m: Manifest, f: Artifact, ext: bytes): bytes
  {
    var parts := Named(s, Split(m.key));
    var base, role := parts[|parts| - 1], RoleOf(s, f);
    if role == s.words.alphaMask then base + s.words.alphaSuffix
    else if role == s.words.color || role == s.words.video then base + [DOT] + ext
    else Component.Named(s.digest, f.title) + [TILDE] + Component.Short(s.digest, StableId(f)) + [DOT] + ext
  }

  function ObjectOf(s: Source, m: Manifest, f: Artifact, ext: bytes): Object
  {
    Object(Directory(s, m.key) + [SLASH] + FileName(s, m, f, ext), m.key, f.id, f.title, f.mediaType, f.size, f.sha,
      m.snapshot, m.profile, RoleOf(s, f), m.id)
  }

  /** The content has the declared length and digest. */
  predicate Intact(s: Source, content: bytes, o: Object)
  {
    |content| == o.size && s.digest(content) == o.sha
  }

  predicate GoodExtension(ext: bytes)
  {
    |ext| <= MAX_EXTENSION && forall i :: 0 <= i < |ext| ==> Component.Alphanumeric(ext[i])
  }

  function ItemOf(s: Source, m: Manifest, f: Artifact): Option<Item>
  {
    var ext :- Extension(f.name);
    var o := ObjectOf(s, m, f, ext);
    if !GoodExtension(ext) || !SafePath(o.objectKey) || !PlainId(m.id) || !PlainName(f.name) then None
    else if !SafePath(s.words.exports + [SLASH] + m.id + [SLASH] + f.name) || (m.id, f.name) !in s.store then None
    else if !Intact(s, s.store[(m.id, f.name)], o) then None
    else Some(Item(o, s.store[(m.id, f.name)]))
  }

  function ItemsOf(s: Source, m: Manifest, files: seq<Artifact>): Option<seq<Item>>
  {
    if files == [] then Some([]) else
      var front :- ItemsOf(s, m, files[..|files| - 1]);
      var item :- ItemOf(s, m, files[|files| - 1]);
      Some(front + [item])
  }

  /** The first directory must not be the tree's own. */
  predicate Reserved(s: Source, m: Manifest)
  {
    Lower(Named(s, Split(m.key))[0]) == Lower(s.words.meta)
  }

  function AllItems(s: Source, ms: seq<Manifest>): Option<seq<Item>>
  {
    if ms == [] then Some([]) else
      var front :- AllItems(s, ms[..|ms| - 1]);
      var m := ms[|ms| - 1];
      if Reserved(s, m) then None else
        var items :- ItemsOf(s, m, m.files);
        Some(front + items)
  }

  // ----- directories

  function AsSet(keys: seq<bytes>): set<bytes>
  {
    set k | k in keys
  }

  predicate Position(k: bytes, i: nat)
  {
    0 < i <= |Split(k)|
  }

  /** The first `j` parts of a key, as they are and as they are written. */
  function Original(k: bytes, j: nat): bytes
    requires Position(k, j)
  {
    Join(Split(k)[..j])
  }

  function Encoded(s: Source, k: bytes, j: nat): bytes
    requires Position(k, j)
  {
    Lower(Join(Named(s, Split(k)[..j])))
  }

  /** Two prefixes of keys that are written alike, ignoring case, are the same. */
  predicate Agree(s: Source, a: bytes, i: nat, b: bytes, j: nat)
    requires Position(a, i) && Position(b, j)
  {
    Encoded(s, a, i) == Encoded(s, b, j) ==> Original(a, i) == Original(b, j)
  }

  ghost predicate NoClash(s: Source, keys: set<bytes>)
  {
    forall a, i: nat, b, j: nat :: a in keys && b in keys && Position(a, i) && Position(b, j) ==> Agree(s, a, i, b, j)
  }

  lemma WholeKey(s: Source, k: bytes)
    ensures Position(k, |Split(k)|) && Original(k, |Split(k)|) == k
    ensures Encoded(s, k, |Split(k)|) == Lower(Directory(s, k))
  {
    JoinSplit(k);
    assert Split(k)[..|Split(k)|] == Split(k);
  }

  /** One directory per key: distinct keys have directories that differ even ignoring case. */
  lemma OneDirectory(s: Source, keys: set<bytes>, a: bytes, b: bytes)
    requires NoClash(s, keys) && a in keys && b in keys && Lower(Directory(s, a)) == Lower(Directory(s, b))
    ensures a == b
  {
    WholeKey(s, a);
    WholeKey(s, b);
    hide Split, Original, Encoded, Directory;
    assert Agree(s, a, |Split(a)|, b, |Split(b)|);
  }

  /** Every prefix met so far is recorded under its written form, and nothing else is recorded. */
  ghost predicate Recorded(s: Source, d: map<bytes, bytes>, seen: set<(bytes, nat)>)
  {
    && (forall p :: p in seen ==>
          Position(p.0, p.1) && Encoded(s, p.0, p.1) in d && d[Encoded(s, p.0, p.1)] == Original(p.0, p.1))
    && forall e :: e in d ==> exists p :: p in seen && Position(p.0, p.1) && Encoded(s, p.0, p.1) == e
  }

  lemma RecordOne(s: Source, d: map<bytes, bytes>, seen: set<(bytes, nat)>, k: bytes, i: nat)
    requires Recorded(s, d, seen) && Position(k, i)
    requires Encoded(s, k, i) in d ==> d[Encoded(s, k, i)] == Original(k, i)
    ensures Recorded(s, d[Encoded(s, k, i) := Original(k, i)], seen + {(k, i)})
  {
    hide Encoded, Original, Position;
    var e := Encoded(s, k, i);
    var f := d[e := Original(k, i)];
    forall x | x in f ensures exists p :: p in seen + {(k, i)} && Position(p.0, p.1) && Encoded(s, p.0, p.1) == x {
      if x == e {
        var p := (k, i);
        assert p in seen + {(k, i)} && Position(p.0, p.1) && Encoded(s, p.0, p.1) == x;
      } else {
        var p :| p in seen && Position(p.0, p.1) && Encoded(s, p.0, p.1) == x;
        assert p in seen + {(k, i)};
      }
    }
  }

  lemma ClashFound(s: Source, d: map<bytes, bytes>, seen: set<(bytes, nat)>, keys: set<bytes>, k: bytes, i: nat)
    requires Recorded(s, d, seen) && k in keys && Position(k, i) && forall p :: p in seen ==> p.0 in keys
    requires Encoded(s, k, i) in d && d[Encoded(s, k, i)] != Original(k, i)
    ensures !NoClash(s, keys)
  {
    hide Encoded, Original, Position;
    var p :| p in seen && Position(p.0, p.1) && Encoded(s, p.0, p.1) == Encoded(s, k, i);
    assert !Agree(s, p.0, p.1, k, i);
  }

  lemma AllRecorded(s: Source, d: map<bytes, bytes>, seen: set<(bytes, nat)>, keys: set<bytes>)
    requires Recorded(s, d, seen) && forall k, i: nat :: k in keys && Position(k, i) ==> (k, i) in seen
    ensures NoClash(s, keys)
  {
    hide Encoded, Original, Position;
    forall a, i: nat, b, j: nat | a in keys && b in keys && Position(a, i) && Position(b, j)
      ensures Agree(s, a, i, b, j)
    {
      assert (a, i) in seen && (b, j) in seen;
    }
  }

  ghost predicate Covered(keys: seq<bytes>, n: nat, seen: set<(bytes, nat)>)
    requires n <= |keys|
  {
    forall m: nat, i: nat :: m < n && Position(keys[m], i) ==> (keys[m], i) in seen
  }

  ghost predicate Within(seen: set<(bytes, nat)>, keys: set<bytes>)
  {
    forall p :: p in seen ==> p.0 in keys
  }

  /** The first `i` prefixes of `k` have been met. */
  ghost predicate UpTo(k: bytes, i: nat, seen: set<(bytes, nat)>)
  {
    forall j: nat :: 0 < j <= i ==> (k, j) in seen
  }

  /** One prefix: recorded, or found to clash with one recorded before. */
  method RecordPrefix(
    s: Source, d: map<bytes, bytes>, k: bytes, i: nat, ghost seen: set<(bytes, nat)>, ghost keys: set<bytes>)
    returns (ok: bool, e: map<bytes, bytes>)
    requires Recorded(s, d, seen) && k in keys && Within(seen, keys) && Position(k, i)
    ensures !ok ==> !NoClash(s, keys)
    ensures ok ==> Recorded(s, e, seen + {(k, i)}) && Within(seen + {(k, i)}, keys)
  {
    hide Recorded, NoClash;
    var written, original := Encoded(s, k, i), Original(k, i);
    if written in d && d[written] != original {
      ClashFound(s, d, seen, keys, k, i);
      return false, d;
    }
    RecordOne(s, d, seen, k, i);
    return true, d[written := original];
  }

  /** One key: each of its prefixes is recorded, or clashes with one recorded before. */
  method RecordKey(s: Source, d: map<bytes, bytes>, k: bytes, ghost seen: set<(bytes, nat)>, ghost keys: set<bytes>)
    returns (ok: bool, e: map<bytes, bytes>, ghost now: set<(bytes, nat)>)
    requires Recorded(s, d, seen) && k in keys && Within(seen, keys)
    ensures !ok ==> !NoClash(s, keys)
    ensures ok ==> Recorded(s, e, now) && seen <= now && Within(now, keys) && UpTo(k, |Split(k)|, now)
  {
    e, now := d, seen;
    hide Recorded, NoClash, Within;
    for i := 1 to |Split(k)| + 1
      invariant Recorded(s, e, now) && seen <= now && Within(now, keys) && UpTo(k, i - 1, now)
    {
      ok, e := RecordPrefix(s, e, k, i, now, keys);
      if !ok {
        return false, e, now;
      }
      now := now + {(k, i)};
    }
    return true, e, now;
  }

  lemma CoveredNext(keys: seq<bytes>, n: nat, seen: set<(bytes, nat)>, now: set<(bytes, nat)>)
    requires n < |keys| && Covered(keys, n, seen) && seen <= now && UpTo(keys[n], |Split(keys[n])|, now)
    ensures Covered(keys, n + 1, now)
  {
  }

  /** The map of directories, filled prefix by prefix. */
  method CheckDirectories(s: Source, keys: seq<bytes>) returns (ok: bool)
    ensures ok <==> NoClash(s, AsSet(keys))
  {
    var d: map<bytes, bytes> := map[];
    ghost var seen: set<(bytes, nat)> := {};
    assert Recorded(s, d, seen);
    hide Recorded, NoClash;
    for n := 0 to |keys|
      invariant Recorded(s, d, seen) && Covered(keys, n, seen) && Within(seen, AsSet(keys))
    {
      ghost var before := seen;
      ok, d, seen := RecordKey(s, d, keys[n], seen, AsSet(keys));
      if !ok {
        return false;
      }
      CoveredNext(keys, n, before, seen);
    }
    AllRecorded(s, d, seen, AsSet(keys));
    return true;
  }

  // ----- one export per key

  function OfObjects(l: map<bytes, bytes>, objects: seq<Object>): map<bytes, bytes>
  {
    if objects == [] then l else
      var o := objects[|objects| - 1];
      OfObjects(l, objects[..|objects| - 1])[o.assetKey := o.exportId]
  }

  function OfEmpties(l: map<bytes, bytes>, empties: seq<Empty>): map<bytes, bytes>
  {
    if empties == [] then l else
      var e := empties[|empties| - 1];
      OfEmpties(l, empties[..|empties| - 1])[e.assetKey := e.exportId]
  }

  /** The export of each asset key that the index names; a later entry wins. */
  function Logical(i: Index): map<bytes, bytes>
  {
    OfEmpties(OfObjects(map[], i.objects), i.empties)
  }

  function Assigned(l: map<bytes, bytes>, ms: seq<Manifest>): Option<map<bytes, bytes>>
  {
    if ms == [] then Some(l) else
      var front :- Assigned(l, ms[..|ms| - 1]);
      var m := ms[|ms| - 1];
      if m.key in front && front[m.key] != m.id then None else Some(front[m.key := m.id])
  }

  predicate ListsExport(empties: seq<Empty>, id: bytes)
  {
    exists e :: e in empties && e.exportId == id
  }

  /** An empty export is listed once. */
  function WithEmpty(empties: seq<Empty>, m: Manifest): seq<Empty>
  {
    if m.empty && !ListsExport(empties, m.id) then empties + [Empty(m.key, m.id, m.snapshot, m.profile)] else empties
  }

  function Empties(empties: seq<Empty>, ms: seq<Manifest>): seq<Empty>
  {
    if ms == [] then empties else WithEmpty(Empties(empties, ms[..|ms| - 1]), ms[|ms| - 1])
  }

  // ----- object keys

  function Key(o: Object): bytes
  {
    Lower(o.objectKey)
  }

  function Lowered(objects: seq<Object>): map<bytes, Object>
  {
    if objects == [] then map[] else
      Lowered(objects[..|objects| - 1])[Key(objects[|objects| - 1]) := objects[|objects| - 1]]
  }

  predicate DistinctKeys(objects: seq<Object>)
  {
    forall i, j :: 0 <= i < j < |objects| ==> Key(objects[i]) != Key(objects[j])
  }

  function Objects(items: seq<Item>): (r: seq<Object>)
    ensures |r| == |items|
  {
    seq(|items|, i requires 0 <= i < |items| => items[i].entry)
  }

  /** What is known of each key after `items` have been planned. */
  function Known(e: map<bytes, Object>, items: seq<Item>): map<bytes, Object>
  {
    if items == [] then e else
      Known(e, items[..|items| - 1])[Key(items[|items| - 1].entry) := items[|items| - 1].entry]
  }

  predicate Held(s: Source, files: map<bytes, bytes>, o: Object)
  {
    o.objectKey in files && Intact(s, files[o.objectKey], o)
  }

  /** A known key must stand for the same object, and a file in the way must have the content. */
  function Decide(s: Source, e: map<bytes, Object>, files: map<bytes, bytes>, front: seq<Item>, x: Item)
    : Option<seq<Item>>
  {
    var known := Known(e, front);
    if Key(x.entry) in known then if known[Key(x.entry)] == x.entry then Some(front) else None
    else if x.entry.objectKey in files && !Held(s, files, x.entry) then None
    else Some(front + [x])
  }

  /** The items that are new. */
  function PlanItems(s: Source, e: map<bytes, Object>, files: map<bytes, bytes>, items: seq<Item>): Option<seq<Item>>
  {
    if items == [] then Some([]) else
      var front :- PlanItems(s, e, files, items[..|items| - 1]);
      Decide(s, e, files, front, items[|items| - 1])
  }

  // ----- the whole plan

  function KeyList(ms: seq<Manifest>, objects: seq<Object>): seq<bytes>
  {
    seq(|ms|, i requires 0 <= i < |ms| => ms[i].key) +
    seq(|objects|, i requires 0 <= i < |objects| => objects[i].assetKey)
  }

  /** The asset keys of the manifests and of what is already there. */
  function AssetKeys(ms: seq<Manifest>, objects: seq<Object>): set<bytes>
  {
    AsSet(KeyList(ms, objects))
  }

  /** The files that the index lists are all there. */
  predicate AllHeld(s: Source, t: Tree)
  {
    forall o :: o in IndexOf(t).objects ==> SafePath(o.objectKey) && Held(s, t.files, o)
  }

  ghost predicate Checked(s: Source, t: Tree, ms: seq<Manifest>)
  {
    && DistinctKeys(IndexOf(t).objects) && AllHeld(s, t) && NoClash(s, AssetKeys(ms, IndexOf(t).objects))
    && Assigned(Logical(IndexOf(t)), ms).Some? && AllItems(s, ms).Some?
  }

  ghost function Planned(s: Source, t: Tree, ms: seq<Manifest>): Option<Plan>
  {
    if !Checked(s, t, ms) then None else
      var items :- PlanItems(s, Lowered(IndexOf(t).objects), t.files, AllItems(s, ms).value);
      Some(Plan(items, Empties(IndexOf(t).empties, ms)))
  }

  // ----- the planning loops

  lemma {:induction false} LoweredKeys(objects: seq<Object>)
    ensures forall k :: k in Lowered(objects) <==> exists i :: 0 <= i < |objects| && Key(objects[i]) == k
  {
    hide Key;
    if objects != [] {
      var front, last := objects[..|objects| - 1], objects[|objects| - 1];
      LoweredKeys(front);
      forall k | k in Lowered(objects) ensures exists i :: 0 <= i < |objects| && Key(objects[i]) == k {
        if k != Key(last) {
          assert k in Lowered(front);
          var i :| 0 <= i < |front| && Key(front[i]) == k;
          assert Key(objects[i]) == k;
        }
      }
      forall i | 0 <= i < |objects| ensures Key(objects[i]) in Lowered(objects) {
        if i < |front| {
          assert Key(front[i]) in Lowered(front);
        }
      }
    }
  }

  lemma SizeOfUpdate<K, V>(m: map<K, V>, k: K, v: V)
    ensures |m[k := v]| == |m| + if k in m then 0 else 1
  {
    assert m[k := v].Keys == m.Keys + {k};
    if k in m {
      assert m.Keys + {k} == m.Keys;
    }
    assert |m.Keys| == |m| && |m[k := v].Keys| == |m[k := v]|;
  }

  lemma DistinctStep(front: seq<Object>, last: Object)
    ensures DistinctKeys(front + [last]) <==> DistinctKeys(front) && Key(last) !in Lowered(front)
  {
    hide Key;
    LoweredKeys(front);
    var objects := front + [last];
    if Key(last) in Lowered(front) {
      var i :| 0 <= i < |front| && Key(front[i]) == Key(last);
      assert Key(objects[i]) == Key(objects[|front|]);
    }
    if DistinctKeys(objects) {
      forall i, j | 0 <= i < j < |front| ensures Key(front[i]) != Key(front[j]) {
        assert Key(objects[i]) != Key(objects[j]);
      }
    }
  }

  /** The map is as large as the list exactly when no key comes twice. */
  lemma {:induction false} LoweredSize(objects: seq<Object>)
    ensures |Lowered(objects)| <= |objects|
    ensures |Lowered(objects)| == |objects| <==> DistinctKeys(objects)
  {
    hide Key, DistinctKeys;
    if objects != [] {
      var front, last := objects[..|objects| - 1], objects[|objects| - 1];
      LoweredSize(front);
      DistinctStep(front, last);
      SizeOfUpdate(Lowered(front), Key(last), last);
      assert objects == front + [last];
    } else {
      NoneDistinct();
    }
  }

  lemma NoneDistinct()
    ensures DistinctKeys([])
  {
  }

  lemma LoweredStep(objects: seq<Object>, i: nat)
    requires i < |objects|
    ensures Lowered(objects[..i + 1]) == Lowered(objects[..i])[Key(objects[i]) := objects[i]]
    ensures OfObjects(map[], objects[..i + 1]) ==
      OfObjects(map[], objects[..i])[objects[i].assetKey := objects[i].exportId]
  {
    assert objects[..i + 1][..i] == objects[..i];
  }

  method ReadObjects(s: Source, files: map<bytes, bytes>, objects: seq<Object>)
    returns (ok: bool, existing: map<bytes, Object>, logical: map<bytes, bytes>)
    ensures existing == Lowered(objects) && logical == OfObjects(map[], objects)
    ensures ok <==> forall o :: o in objects ==> SafePath(o.objectKey) && Held(s, files, o)
  {
    existing, logical, ok := map[], map[], true;
    hide SafePath, Held, Lowered, OfObjects, Key;
    assert objects[..0] == [] && Lowered([]) == map[] && OfObjects(map[], []) == map[] by {
      StartMaps();
    }
    for i := 0 to |objects|
      invariant existing == Lowered(objects[..i]) && logical == OfObjects(map[], objects[..i])
      invariant ok <==> forall o :: o in objects[..i] ==> SafePath(o.objectKey) && Held(s, files, o)
    {
      LoweredStep(objects, i);
      var o := objects[i];
      assert objects[..i + 1] == objects[..i] + [o];
      existing, logical := existing[Key(o) := o], logical[o.assetKey := o.exportId];
      ok := ok && SafePath(o.objectKey) && Held(s, files, o);
    }
    assert objects[..|objects|] == objects;
  }

  lemma StartMaps()
    ensures Lowered([]) == map[] && OfObjects(map[], []) == map[]
  {
  }

  method ReadEmpties(l: map<bytes, bytes>, empties: seq<Empty>) returns (logical: map<bytes, bytes>)
    ensures logical == OfEmpties(l, empties)
  {
    logical := l;
    for i := 0 to |empties|
      invariant logical == OfEmpties(l, empties[..i])
    {
      assert empties[..i + 1][..i] == empties[..i];
      logical := logical[empties[i].assetKey := empties[i].exportId];
    }
    assert empties[..|empties|] == empties;
  }

  /** The maps built from the index, and the check that everything it lists is there. */
  method ReadIndex(s: Source, t: Tree) returns (ok: bool, existing: map<bytes, Object>, logical: map<bytes, bytes>)
    ensures existing == Lowered(IndexOf(t).objects) && logical == Logical(IndexOf(t))
    ensures ok <==> DistinctKeys(IndexOf(t).objects) && AllHeld(s, t)
  {
    var objects := IndexOf(t).objects;
    ok, existing, logical := ReadObjects(s, t.files, objects);
    LoweredSize(objects);
    ok := ok && |existing| == |objects|;
    logical := ReadEmpties(logical, IndexOf(t).empties);
  }

  lemma {:induction false} PlanItemsPrefix(
    s: Source, e: map<bytes, Object>, files: map<bytes, bytes>, items: seq<Item>, more: seq<Item>)
    requires PlanItems(s, e, files, items + more).Some?
    ensures PlanItems(s, e, files, items).Some?
    decreases |more|
  {
    hide Held, Known;
    if more == [] {
      assert items + more == items;
    } else {
      assert (items + more)[..|items + more| - 1] == items + more[..|more| - 1];
      PlanItemsPrefix(s, e, files, items, more[..|more| - 1]);
    }
  }

  lemma PlanItemsStep(s: Source, e: map<bytes, Object>, files: map<bytes, bytes>, items: seq<Item>, x: Item)
    ensures PlanItems(s, e, files, items + [x]) ==
      match PlanItems(s, e, files, items) case None => None case Some(front) => Decide(s, e, files, front, x)
  {
    assert (items + [x])[..|items|] == items;
    hide Decide;
  }

  lemma KnownStep(e: map<bytes, Object>, items: seq<Item>, x: Item)
    ensures Known(e, items + [x]) == Known(e, items)[Key(x.entry) := x.entry]
  {
    assert (items + [x])[..|items|] == items;
  }

  lemma ItemsStep(s: Source, m: Manifest, files: seq<Artifact>, i: nat)
    requires i < |files|
    ensures ItemsOf(s, m, files[..i + 1]) ==
      match ItemsOf(s, m, files[..i]) case None => None case Some(front) =>
      match ItemOf(s, m, files[i]) case None => None case Some(x) => Some(front + [x])
  {
    assert files[..i + 1][..i] == files[..i];
    hide ItemOf;
  }

  lemma {:induction false} ItemsPrefix(s: Source, m: Manifest, files: seq<Artifact>, i: nat)
    requires i <= |files| && ItemsOf(s, m, files).Some?
    ensures ItemsOf(s, m, files[..i]).Some? && ItemsOf(s, m, files[..i]).value <= ItemsOf(s, m, files).value
    decreases |files|
  {
    hide ItemOf;
    if i < |files| {
      assert files[..|files| - 1][..i] == files[..i];
      ItemsPrefix(s, m, files[..|files| - 1], i);
    } else {
      assert files[..i] == files;
    }
  }

  /** Planning `items` after `done` is possible. */
  ghost predicate Plannable(
    s: Source, e: map<bytes, Object>, files: map<bytes, bytes>, done: seq<Item>, items: Option<seq<Item>>)
  {
    items.Some? && PlanItems(s, e, files, done + items.value).Some?
  }

  lemma BlockedItem(s: Source, e: map<bytes, Object>, files: map<bytes, bytes>, done: seq<Item>, m: Manifest, i: nat)
    requires i < |m.files| && ItemsOf(s, m, m.files[..i]).Some?
    requires ItemOf(s, m, m.files[i]).None? ||
      PlanItems(s, e, files, done + ItemsOf(s, m, m.files[..i]).value + [ItemOf(s, m, m.files[i]).value]).None?
    ensures !Plannable(s, e, files, done, ItemsOf(s, m, m.files))
  {
    hide ItemOf, ItemsOf, PlanItems;
    if Plannable(s, e, files, done, ItemsOf(s, m, m.files)) {
      ItemIsPlannable(s, e, files, done, m, i);
    }
  }

  lemma ItemIsPlannable(
    s: Source, e: map<bytes, Object>, files: map<bytes, bytes>, done: seq<Item>, m: Manifest, i: nat)
    requires i < |m.files| && Plannable(s, e, files, done, ItemsOf(s, m, m.files))
    ensures ItemsOf(s, m, m.files[..i]).Some? && ItemOf(s, m, m.files[i]).Some?
    ensures PlanItems(s, e, files, done + ItemsOf(s, m, m.files[..i]).value + [ItemOf(s, m, m.files[i]).value]).Some?
  {
    hide ItemOf, PlanItems;
    var items := ItemsOf(s, m, m.files);
    ItemsPrefix(s, m, m.files, i + 1);
    ItemsStep(s, m, m.files, i);
    var front := ItemsOf(s, m, m.files[..i + 1]).value;
    var more := items.value[|front|..];
    assert items.value == front + more;
    assert done + (front + more) == (done + front) + more;
    PlanItemsPrefix(s, e, files, done + front, more);
    assert done + front == done + ItemsOf(s, m, m.files[..i]).value + [ItemOf(s, m, m.files[i]).value];
  }

  /** One item: known already, in the way of something else, or new. */
  method PlanOne(s: Source, ghost e: map<bytes, Object>, files: map<bytes, bytes>, ghost items: seq<Item>,
    planned: seq<Item>, existing: map<bytes, Object>, x: Item)
    returns (ok: bool, more: seq<Item>, known: map<bytes, Object>)
    requires PlanItems(s, e, files, items) == Some(planned) && existing == Known(e, planned)
    ensures PlanItems(s, e, files, items + [x]) == if ok then Some(more) else None
    ensures ok ==> known == Known(e, more)
  {
    PlanItemsStep(s, e, files, items, x);
    KnownStep(e, planned, x);
    hide PlanItems, Known, Held, Key;
    var o := x.entry;
    if Key(o) in existing {
      return existing[Key(o)] == o, planned, existing;
    }
    if o.objectKey in files && !Held(s, files, o) {
      return false, planned, existing;
    }
    return true, planned + [x], existing[Key(o) := o];
  }

  /** The state of the inner loop after `i` files. */
  ghost predicate Midway(
    s: Source, e: map<bytes, Object>, files: map<bytes, bytes>, done: seq<Item>, m: Manifest, i: nat,
    items: seq<Item>, planned: seq<Item>, existing: map<bytes, Object>)
  {
    && i <= |m.files| && ItemsOf(s, m, m.files[..i]) == Some(items)
    && PlanItems(s, e, files, done + items) == Some(planned) && existing == Known(e, planned)
  }

  method PlanFile(s: Source, ghost e: map<bytes, Object>, files: map<bytes, bytes>, ghost done: seq<Item>, m: Manifest,
    i: nat, ghost items: seq<Item>, planned: seq<Item>, existing: map<bytes, Object>)
    returns (ok: bool, more: seq<Item>, known: map<bytes, Object>, ghost now: seq<Item>)
    requires i < |m.files| && Midway(s, e, files, done, m, i, items, planned, existing)
    ensures ok ==> Midway(s, e, files, done, m, i + 1, now, more, known)
    ensures !ok ==> !Plannable(s, e, files, done, ItemsOf(s, m, m.files))
  {
    hide ItemsOf, PlanItems, Known, ItemOf, Plannable;
    more, known, now := planned, existing, items;
    ItemsStep(s, m, m.files, i);
    var x := ItemOf(s, m, m.files[i]);
    if x.None? {
      BlockedItem(s, e, files, done, m, i);
      return false, more, known, now;
    }
    ok, more, known := PlanOne(s, e, files, done + items, more, known, x.value);
    now := items + [x.value];
    assert done + items + [x.value] == done + now;
    if !ok {
      BlockedItem(s, e, files, done, m, i);
    }
  }

  /** The files of one manifest. */
  method PlanManifest(
    s: Source, ghost e: map<bytes, Object>, files: map<bytes, bytes>, ghost done: seq<Item>, m: Manifest,
    planned: seq<Item>, existing: map<bytes, Object>)
    returns (ok: bool, more: seq<Item>, known: map<bytes, Object>, ghost items: seq<Item>)
    requires PlanItems(s, e, files, done) == Some(planned) && existing == Known(e, planned)
    ensures !ok ==> !Plannable(s, e, files, done, ItemsOf(s, m, m.files))
    ensures ok ==> ItemsOf(s, m, m.files) == Some(items) && PlanItems(s, e, files, done + items) == Some(more)
    ensures ok ==> known == Known(e, more)
  {
    more, known, items := planned, existing, [];
    assert done + [] == done && ItemsOf(s, m, m.files[..0]) == Some([]);
    assert Midway(s, e, files, done, m, 0, items, more, known);
    assert m.files[..|m.files|] == m.files;
    hide ItemsOf, PlanItems, Known, Plannable;
    for i := 0 to |m.files|
      invariant Midway(s, e, files, done, m, i, items, more, known)
    {
      ok, more, known, items := PlanFile(s, e, files, done, m, i, items, more, known);
      if !ok {
        return false, more, known, items;
      }
    }
    return true, more, known, items;
  }

  lemma ManifestStep(s: Source, l: map<bytes, bytes>, empties: seq<Empty>, ms: seq<Manifest>, i: nat)
    requires i < |ms|
    ensures Assigned(l, ms[..i + 1]) ==
      match Assigned(l, ms[..i]) case None => None case Some(front) =>
      if ms[i].key in front && front[ms[i].key] != ms[i].id then None else Some(front[ms[i].key := ms[i].id])
    ensures AllItems(s, ms[..i + 1]) ==
      match AllItems(s, ms[..i]) case None => None case Some(front) =>
      if Reserved(s, ms[i]) then None else
      match ItemsOf(s, ms[i], ms[i].files) case None => None case Some(items) => Some(front + items)
    ensures Empties(empties, ms[..i + 1]) == WithEmpty(Empties(empties, ms[..i]), ms[i])
  {
    assert ms[..i + 1][..i] == ms[..i];
    hide ItemsOf, Reserved, ListsExport;
  }

  lemma {:induction false} AssignedPrefix(l: map<bytes, bytes>, ms: seq<Manifest>, i: nat)
    requires i <= |ms| && Assigned(l, ms).Some?
    ensures Assigned(l, ms[..i]).Some?
    decreases |ms|
  {
    if i < |ms| {
      assert ms[..|ms| - 1][..i] == ms[..i];
      AssignedPrefix(l, ms[..|ms| - 1], i);
    } else {
      assert ms[..i] == ms;
    }
  }

  lemma {:induction false} AllItemsPrefix(s: Source, ms: seq<Manifest>, i: nat)
    requires i <= |ms| && AllItems(s, ms).Some?
    ensures AllItems(s, ms[..i]).Some? && AllItems(s, ms[..i]).value <= AllItems(s, ms).value
    decreases |ms|
  {
    hide ItemsOf, Reserved;
    if i < |ms| {
      assert ms[..|ms| - 1][..i] == ms[..i];
      AllItemsPrefix(s, ms[..|ms| - 1], i);
    } else {
      assert ms[..i] == ms;
    }
  }

  /** The state of the outer loop after `i` manifests. */
  ghost predicate Halfway(s: Source, t: Tree, ms: seq<Manifest>, i: nat, done: seq<Item>, logical: map<bytes, bytes>,
    existing: map<bytes, Object>, plan: Plan)
  {
    && i <= |ms| && Assigned(Logical(IndexOf(t)), ms[..i]) == Some(logical)
    && AllItems(s, ms[..i]) == Some(done) && plan.empties == Empties(IndexOf(t).empties, ms[..i])
    && PlanItems(s, Lowered(IndexOf(t).objects), t.files, done) == Some(plan.items)
    && existing == Known(Lowered(IndexOf(t).objects), plan.items)
  }

  lemma BlockedManifest(s: Source, t: Tree, ms: seq<Manifest>, i: nat, done: seq<Item>)
    requires i < |ms| && AllItems(s, ms[..i]) == Some(done)
    requires
      || Assigned(Logical(IndexOf(t)), ms[..i + 1]).None? || Reserved(s, ms[i])
      || !Plannable(s, Lowered(IndexOf(t).objects), t.files, done, ItemsOf(s, ms[i], ms[i].files))
    ensures Planned(s, t, ms).None?
  {
    hide ItemsOf, Reserved, PlanItems, Assigned, Logical, Empties, NoClash, AllHeld;
    if Planned(s, t, ms).Some? {
      var e := Lowered(IndexOf(t).objects);
      AssignedPrefix(Logical(IndexOf(t)), ms, i + 1);
      AllItemsPrefix(s, ms, i + 1);
      ManifestStep(s, Logical(IndexOf(t)), [], ms, i);
      var front := AllItems(s, ms[..i + 1]).value;
      var more := AllItems(s, ms).value[|front|..];
      assert AllItems(s, ms).value == front + more;
      PlanItemsPrefix(s, e, t.files, front, more);
    }
  }

  method PlanNext(s: Source, t: Tree, ms: seq<Manifest>, i: nat, ghost done: seq<Item>, logical: map<bytes, bytes>,
    existing: map<bytes, Object>, plan: Plan)
    returns (ok: bool, ghost now: seq<Item>, settled: map<bytes, bytes>, known: map<bytes, Object>, next: Plan)
    requires i < |ms| && Halfway(s, t, ms, i, done, logical, existing, plan)
    ensures ok ==> Halfway(s, t, ms, i + 1, now, settled, known, next)
    ensures !ok ==> Planned(s, t, ms).None?
  {
    hide ItemsOf, PlanItems, Known, Plannable, Assigned, AllItems, Empties, ListsExport, Planned, Logical, Reserved;
    var m, items := ms[i], plan.items;
    ManifestStep(s, Logical(IndexOf(t)), IndexOf(t).empties, ms, i);
    now, settled, known, next := done, logical, existing, plan;
    if m.key in logical && logical[m.key] != m.id {
      BlockedManifest(s, t, ms, i, done);
      return false, now, settled, known, next;
    }
    settled := logical[m.key := m.id];
    var empties := plan.empties;
    if m.empty && !ListsExport(empties, m.id) {
      empties := empties + [Empty(m.key, m.id, m.snapshot, m.profile)];
    }
    if Reserved(s, m) {
      BlockedManifest(s, t, ms, i, done);
      return false, now, settled, known, next;
    }
    ghost var more;
    ok, items, known, more := PlanManifest(s, Lowered(IndexOf(t).objects), t.files, done, m, items, existing);
    if !ok {
      BlockedManifest(s, t, ms, i, done);
      return false, now, settled, known, next;
    }
    return true, done + more, settled, known, Plan(items, empties);
  }

  /** All checks, in the order of the source; nothing is written. */
  method PlanTree(s: Source, t: Tree, ms: seq<Manifest>) returns (r: Option<Plan>)
    ensures r == Planned(s, t, ms)
  {
    var objects := IndexOf(t).objects;
    var ok, existing, logical := ReadIndex(s, t);
    if !ok {
      return None;
    }
    ok := CheckDirectories(s, KeyList(ms, objects));
    if !ok {
      return None;
    }
    var plan := Plan([], IndexOf(t).empties);
    ghost var done := [];
    assert ms[..0] == [] && ms[..|ms|] == ms;
    assert Halfway(s, t, ms, 0, done, logical, existing, plan);
    hide Halfway, Planned, AllHeld, NoClash, AssetKeys, KeyList, DistinctKeys;
    for i := 0 to |ms|
      invariant Halfway(s, t, ms, i, done, logical, existing, plan)
    {
      ok, done, logical, existing, plan := PlanNext(s, t, ms, i, done, logical, existing, plan);
      if !ok {
        return None;
      }
    }
    WholePlan(s, t, ms, done, logical, existing, plan);
    return Some(plan);
  }

  lemma WholePlan(s: Source, t: Tree, ms: seq<Manifest>, done: seq<Item>, logical: map<bytes, bytes>,
    existing: map<bytes, Object>, plan: Plan)
    requires DistinctKeys(IndexOf(t).objects) && AllHeld(s, t) && NoClash(s, AssetKeys(ms, IndexOf(t).objects))
    requires Halfway(s, t, ms, |ms|, done, logical, existing, plan)
    ensures Planned(s, t, ms) == Some(plan)
  {
    assert ms[..|ms|] == ms;
    hide PlanItems, Known, Assigned, AllItems, Empties, Logical, AllHeld, NoClash, AssetKeys, Lowered;
  }
}
