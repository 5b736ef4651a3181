/**
 Applying a tree plan file by file, and convergence: whatever point a run is cut off at, the next run ends with the
 same tree, and the one after that changes nothing.
 */
module TreeExport {
  import opened Bytes
  import opened Order
  import opened TreePlan

  function ByKey(o: Object): bytes
  {
    o.objectKey
  }

  /** A file is only ever created. */
  function Put(files: map<bytes, bytes>, x: Item): map<bytes, bytes>
  {
    if x.entry.objectKey in files then files else files[x.entry.objectKey := x.content]
  }

  function PutAll(files: map<bytes, bytes>, items: seq<Item>): map<bytes, bytes>
  {
    if items == [] then files else Put(PutAll(files, items[..|items| - 1]), items[|items| - 1])
  }

  /** The listed objects after `items` have been added; the list is sorted whenever one is. */
  function Merged(objects: seq<Object>, items: seq<Item>): seq<Object>
  {
    if items == [] then objects else Sort(objects + Objects(items), ByKey)
  }

  function Finished(t: Tree, p: Plan): Tree
  {
    var index := Index(Merged(IndexOf(t).objects, p.items), p.empties);
    Tree(PutAll(t.files, p.items), Some(index), Some(index))
  }

  /**
   The tree left by a run cut off after `k` files are listed: `stray` when file k+1 is already in place, `saved` when
   the index has been written.
   */
  function CutOff(t: Tree, p: Plan, k: nat, stray: bool, saved: bool): Tree
    requires k + (if stray then 1 else 0) <= |p.items|
  {
    Tree(
      PutAll(t.files, p.items[..k + if stray then 1 else 0]),
      if saved then Some(Index(Merged(IndexOf(t).objects, p.items[..k]), p.empties)) else t.index,
      t.uploadPlan)
  }

  lemma PlanItemsLast(s: Source, e: map<bytes, Object>, files: map<bytes, bytes>, items: seq<Item>)
    requires items != []
    ensures PlanItems(s, e, files, items) ==
      match PlanItems(s, e, files, items[..|items| - 1]) case None => None case Some(front) =>
      Decide(s, e, files, front, items[|items| - 1])
  {
    hide Held, Known, Key;
  }

  lemma DecideDistinct(
    s: Source, e: map<bytes, Object>, files: map<bytes, bytes>, objects: seq<Object>, front: seq<Item>, x: Item)
    requires DistinctKeys(objects + Objects(front)) && Lowered(objects + Objects(front)) == Known(e, front)
    requires Decide(s, e, files, front, x).Some?
    ensures var p := Decide(s, e, files, front, x).value;
      DistinctKeys(objects + Objects(p)) && Lowered(objects + Objects(p)) == Known(e, p)
  {
    hide Key, Held, Lowered, Known, DistinctKeys;
    if Decide(s, e, files, front, x).value != front {
      assert objects + Objects(front + [x]) == (objects + Objects(front)) + [x.entry];
      KnownStep(e, front, x);
      DistinctStep(objects + Objects(front), x.entry);
      LoweredSnoc(objects + Objects(front), x.entry);
    }
  }

  /** The keys stay distinct while a plan is added. */
  lemma {:induction false} PlannedDistinct(
    s: Source, e: map<bytes, Object>, files: map<bytes, bytes>, items: seq<Item>, objects: seq<Object>)
    requires DistinctKeys(objects) && e == Lowered(objects) && PlanItems(s, e, files, items).Some?
    ensures var p := PlanItems(s, e, files, items).value;
      DistinctKeys(objects + Objects(p)) && Lowered(objects + Objects(p)) == Known(e, p)
  {
    if items == [] {
      assert objects + Objects([]) == objects;
    } else {
      PlanItemsLast(s, e, files, items);
      hide *;
      PlannedDistinct(s, e, files, items[..|items| - 1], objects);
      DecideDistinct(s, e, files, objects, PlanItems(s, e, files, items[..|items| - 1]).value, items[|items| - 1]);
    }
  }

  lemma LoweredSnoc(objects: seq<Object>, o: Object)
    ensures Lowered(objects + [o]) == Lowered(objects)[Key(o) := o]
  {
    assert (objects + [o])[..|objects|] == objects;
  }

  // ----- lists of objects with distinct keys

  lemma DistinctElements(a: seq<Object>, x: Object, y: Object)
    requires DistinctKeys(a) && x in a && y in a && Key(x) == Key(y)
    ensures x == y
  {
    hide Key;
    var i :| 0 <= i < |a| && a[i] == x;
    var j :| 0 <= j < |a| && a[j] == y;
  }

  lemma SortedObjects(a: seq<Object>)
    requires DistinctKeys(a)
    ensures Sorted(Sort(a, ByKey), ByKey) && DistinctKeys(Sort(a, ByKey))
    ensures forall o :: o in Sort(a, ByKey) <==> o in a
  {
    forall i, j | 0 <= i < j < |a| ensures ByKey(a[i]) != ByKey(a[j]) {
      assert Key(a[i]) != Key(a[j]);
    }
    SortSorts(a, ByKey);
    SortElements(a, ByKey);
    var b := Sort(a, ByKey);
    hide Sort, Key, Less;
    forall i, j | 0 <= i < j < |b| ensures Key(b[i]) != Key(b[j]) {
      assert b[i] in a && b[j] in a && Less(ByKey(b[i]), ByKey(b[j]));
      if Key(b[i]) == Key(b[j]) {
        DistinctElements(a, b[i], b[j]);
        LessIrreflexive(ByKey(b[i]));
      }
    }
  }

  lemma {:induction false} LoweredElement(a: seq<Object>, i: nat)
    requires DistinctKeys(a) && i < |a|
    ensures Key(a[i]) in Lowered(a) && Lowered(a)[Key(a[i])] == a[i]
  {
    hide Key;
    var front := a[..|a| - 1];
    if i < |front| {
      LoweredElement(front, i);
      assert front[i] == a[i] && Key(a[i]) != Key(a[|a| - 1]);
    }
  }

  /** The map depends on the elements alone, not on their order. */
  lemma LoweredBySet(a: seq<Object>, b: seq<Object>)
    requires DistinctKeys(a) && DistinctKeys(b) && forall o :: o in a <==> o in b
    ensures Lowered(a) == Lowered(b)
  {
    LoweredHalf(a, b);
    LoweredHalf(b, a);
    hide Lowered, Key, DistinctKeys;
    assert Lowered(a).Keys == Lowered(b).Keys;
  }

  lemma LoweredHalf(a: seq<Object>, b: seq<Object>)
    requires DistinctKeys(a) && DistinctKeys(b) && forall o :: o in a <==> o in b
    ensures forall k :: k in Lowered(a) ==> k in Lowered(b) && Lowered(a)[k] == Lowered(b)[k]
  {
    LoweredKeys(a);
    hide Lowered, Key;
    forall k | k in Lowered(a) ensures k in Lowered(b) && Lowered(a)[k] == Lowered(b)[k] {
      var i :| 0 <= i < |a| && Key(a[i]) == k;
      assert a[i] in b;
      var j :| 0 <= j < |b| && b[j] == a[i];
      LoweredElement(a, i);
      LoweredElement(b, j);
    }
  }

  lemma ObjectsOfPrefix(items: seq<Item>, k: nat)
    requires k <= |items|
    ensures Objects(items) == Objects(items[..k]) + Objects(items[k..])
  {
  }

  /** What is listed after `k` files: the same objects in any order, still with distinct keys. */
  lemma MergedElements(objects: seq<Object>, items: seq<Item>, k: nat)
    requires DistinctKeys(objects + Objects(items)) && k <= |items|
    ensures DistinctKeys(objects + Objects(items[..k])) && DistinctKeys(Merged(objects, items[..k]))
    ensures forall o :: o in Merged(objects, items[..k]) <==> o in objects + Objects(items[..k])
    ensures Lowered(Merged(objects, items[..k])) == Lowered(objects + Objects(items[..k]))
  {
    ObjectsOfPrefix(items, k);
    var all, some := objects + Objects(items), objects + Objects(items[..k]);
    hide Key, Objects, Lowered;
    assert forall i :: 0 <= i < |some| ==> some[i] == all[i];
    assert DistinctKeys(some);
    if k > 0 {
      SortedObjects(some);
      LoweredBySet(Merged(objects, items[..k]), some);
    } else {
      assert some == objects;
    }
  }

  lemma MergedSorts(objects: seq<Object>, items: seq<Item>)
    requires items != []
    ensures Merged(objects, items) == Sort(objects + Objects(items), ByKey)
  {
  }

  lemma RestDistinct(a: seq<Object>, b: seq<Object>, rest: seq<Object>)
    requires DistinctKeys(a) && DistinctKeys(b + rest) && forall o :: o in a <==> o in b
    ensures DistinctKeys(a + rest)
  {
    hide Key;
    var x, y := a + rest, b + rest;
    forall i, j | 0 <= i < j < |x| ensures Key(x[i]) != Key(x[j]) {
      if i < |a| && j >= |a| {
        assert a[i] in b;
        var m :| 0 <= m < |b| && b[m] == a[i];
        assert y[m] == x[i] && y[|b| + (j - |a|)] == x[j];
      } else if i >= |a| {
        assert y[|b| + (i - |a|)] == x[i] && y[|b| + (j - |a|)] == x[j];
      }
    }
  }

  lemma SortTwice(begun: seq<Object>, some: seq<Object>, rest: seq<Object>)
    requires DistinctKeys(begun) && DistinctKeys(some + rest) && forall o :: o in begun <==> o in some
    ensures Sort(begun + rest, ByKey) == Sort(some + rest, ByKey)
  {
    RestDistinct(begun, some, rest);
    SortedObjects(begun + rest);
    SortedObjects(some + rest);
    hide *;
    SortedUnique(Sort(begun + rest, ByKey), Sort(some + rest, ByKey), ByKey);
  }

  /** Adding the rest to a sorted beginning gives the same list as adding everything at once. */
  lemma MergedTwice(objects: seq<Object>, items: seq<Item>, k: nat)
    requires DistinctKeys(objects + Objects(items)) && k <= |items|
    ensures Merged(Merged(objects, items[..k]), items[k..]) == Merged(objects, items)
  {
    if k == |items| {
      assert items[..k] == items;
    } else if k == 0 {
      assert items[k..] == items;
    } else {
      MergedElements(objects, items, k);
      ObjectsOfPrefix(items, k);
      var begun, some, rest := Merged(objects, items[..k]), objects + Objects(items[..k]), Objects(items[k..]);
      MergedSorts(begun, items[k..]);
      MergedSorts(objects, items);
      hide *;
      assert objects + Objects(items) == some + rest;
      SortTwice(begun, some, rest);
    }
  }

  // ----- files

  lemma {:induction false} PutKeeps(files: map<bytes, bytes>, items: seq<Item>)
    ensures forall k :: k in files ==> k in PutAll(files, items) && PutAll(files, items)[k] == files[k]
    ensures forall x :: x in items ==> x.entry.objectKey in PutAll(files, items)
  {
    if items != [] {
      PutKeeps(files, items[..|items| - 1]);
      assert items == items[..|items| - 1] + [items[|items| - 1]];
    }
  }

  lemma {:induction false} PutConcat(files: map<bytes, bytes>, a: seq<Item>, b: seq<Item>)
    ensures PutAll(files, a + b) == PutAll(PutAll(files, a), b)
  {
    if b == [] {
      assert a + b == a;
    } else {
      assert (a + b)[..|a + b| - 1] == a + b[..|b| - 1];
      PutConcat(files, a, b[..|b| - 1]);
    }
  }

  /** A file that is already in place does not matter. */
  lemma PutAgain(files: map<bytes, bytes>, items: seq<Item>, k: nat, j: nat)
    requires k <= j <= |items| && j <= k + 1
    ensures PutAll(PutAll(files, items[..j]), items[k..]) == PutAll(files, items)
  {
    PutConcat(files, items[..j], items[j..]);
    assert items[..j] + items[j..] == items;
    if j == k + 1 {
      var there := PutAll(files, items[..j]);
      PutKeeps(files, items[..j]);
      assert items[k] == items[..j][k];
      PutConcat(there, [items[k]], items[j..]);
      assert [items[k]] + items[j..] == items[k..];
      assert [items[k]][..0] == [];
      assert PutAll(there, [items[k]]) == there;
    }
  }

  /** The content is right, and so is any file already standing there. */
  ghost predicate Fresh(s: Source, files: map<bytes, bytes>, x: Item)
  {
    Intact(s, x.content, x.entry) && (x.entry.objectKey in files ==> Held(s, files, x.entry))
  }

  lemma {:induction false} PutHolds(s: Source, files: map<bytes, bytes>, items: seq<Item>, j: nat, x: Item)
    requires DistinctKeys(Objects(items)) && j <= |items| && x in items && forall y :: y in items ==> Fresh(s, files, y)
    ensures x.entry.objectKey in PutAll(files, items[..j]) ==> Held(s, PutAll(files, items[..j]), x.entry)
    decreases j
  {
    hide Intact;
    if j > 0 {
      PutHolds(s, files, items, j - 1, x);
      assert items[..j][..j - 1] == items[..j - 1];
      var y := items[j - 1];
      var before := PutAll(files, items[..j - 1]);
      assert PutAll(files, items[..j]) == Put(before, y);
      if y.entry.objectKey == x.entry.objectKey && x.entry.objectKey !in before {
        var i :| 0 <= i < |items| && items[i] == x;
        SameKeySameItem(items, i, j - 1);
        assert x == y;
        assert Fresh(s, files, y);
      }
    } else {
      assert items[..j] == [];
      assert Fresh(s, files, x);
    }
  }

  lemma SameKeySameItem(items: seq<Item>, i: nat, j: nat)
    requires DistinctKeys(Objects(items)) && i < |items| && j < |items|
    requires items[i].entry.objectKey == items[j].entry.objectKey
    ensures i == j
  {
    var o := Objects(items);
    assert o[i] == items[i].entry && o[j] == items[j].entry;
    assert Key(o[i]) == Key(o[j]);
  }

  // ----- planning again

  lemma {:induction false} KnownConcat(e: map<bytes, Object>, a: seq<Item>, b: seq<Item>)
    ensures Known(e, a + b) == Known(Known(e, a), b)
  {
    hide Key;
    if b == [] {
      assert a + b == a;
    } else {
      assert (a + b)[..|a + b| - 1] == a + b[..|b| - 1];
      KnownConcat(e, a, b[..|b| - 1]);
    }
  }

  /** Nothing that is planned was known before. */
  ghost predicate New(e: map<bytes, Object>, p: seq<Item>)
  {
    forall i :: 0 <= i < |p| ==> Key(p[i].entry) !in Known(e, p[..i])
  }

  lemma NewAt(e: map<bytes, Object>, p: seq<Item>, n: nat)
    requires New(e, p) && n < |p|
    ensures Key(p[n].entry) !in Known(e, p[..n])
  {
  }

  lemma KnownNext(e: map<bytes, Object>, p: seq<Item>, n: nat)
    requires n < |p|
    ensures Known(e, p[..n + 1]) == Known(e, p[..n])[Key(p[n].entry) := p[n].entry]
  {
    hide *;
    KnownStep(e, p[..n], p[n]);
    assert p[..n + 1] == p[..n] + [p[n]];
  }

  /** What is known stays known, and each planned item is known once it is planned. */
  lemma {:induction false} KnownGrows(e: map<bytes, Object>, p: seq<Item>, i: nat, j: nat)
    requires New(e, p) && i <= j <= |p|
    ensures forall k :: k in Known(e, p[..i]) ==> k in Known(e, p[..j]) && Known(e, p[..j])[k] == Known(e, p[..i])[k]
    ensures forall m :: i <= m < j ==>
      Key(p[m].entry) in Known(e, p[..j]) && Known(e, p[..j])[Key(p[m].entry)] == p[m].entry
    decreases j - i
  {
    hide *;
    if i < j {
      KnownGrows(e, p, i, j - 1);
      NewAt(e, p, j - 1);
      KnownNext(e, p, j - 1);
    }
  }

  lemma {:induction false} PlannedNew(s: Source, e: map<bytes, Object>, files: map<bytes, bytes>, items: seq<Item>)
    requires PlanItems(s, e, files, items).Some?
    ensures New(e, PlanItems(s, e, files, items).value)
  {
    hide Key, Held, Known;
    if items != [] {
      var front := items[..|items| - 1];
      PlannedNew(s, e, files, front);
      var before, after := PlanItems(s, e, files, front).value, PlanItems(s, e, files, items).value;
      if after != before {
        assert after[..|before|] == before;
        forall i | 0 <= i < |after| ensures Key(after[i].entry) !in Known(e, after[..i]) {
          if i < |before| {
            assert after[..i] == before[..i];
          }
        }
      }
    }
  }

  /** Every planned item is one of the items, and nothing wrong stands in its place. */
  lemma {:induction false} PlannedFrom(s: Source, e: map<bytes, Object>, files: map<bytes, bytes>, items: seq<Item>)
    requires PlanItems(s, e, files, items).Some?
    ensures forall x :: x in PlanItems(s, e, files, items).value ==>
      x in items && (x.entry.objectKey in files ==> Held(s, files, x.entry))
  {
    hide Key, Held, Known;
    if items != [] {
      PlannedFrom(s, e, files, items[..|items| - 1]);
    }
  }

  /** Files that do not stand in the way of any planned item. */
  ghost predicate Compatible(s: Source, files: map<bytes, bytes>, p: seq<Item>)
  {
    forall x :: x in p && x.entry.objectKey in files ==> Held(s, files, x.entry)
  }

  function From(q: seq<Item>, k: nat): seq<Item>
  {
    if |q| <= k then [] else q[k..]
  }

  /** What is known when the first `k` items are listed already and `q` has been planned. */
  lemma KnownAgain(e: map<bytes, Object>, p: seq<Item>, k: nat, n: nat)
    requires k <= |p| && n <= |p|
    ensures Known(Known(e, p[..k]), From(p[..n], k)) == Known(e, p[..if n <= k then k else n])
  {
    if n > k {
      KnownConcat(e, p[..k], p[..n][k..]);
      assert p[..k] + p[..n][k..] == p[..n];
    }
  }

  /** An item known at the first planning, or planned among the first `k`, is known now. */
  lemma StillKnown(e: map<bytes, Object>, p: seq<Item>, k: nat, n: nat, x: Item)
    requires New(e, p) && k <= |p| && n <= |p|
    requires var known := Known(e, p[..n]);
      (Key(x.entry) in known && known[Key(x.entry)] == x.entry) || (n < k && p[n] == x)
    ensures var known := Known(Known(e, p[..k]), From(p[..n], k));
      Key(x.entry) in known && known[Key(x.entry)] == x.entry
  {
    KnownAgain(e, p, k, n);
    KnownGrows(e, p, n, if n <= k then k else n);
    hide Key, Known, New, From;
  }

  /** An item planned after the first `k` is new again. */
  lemma StillNew(e: map<bytes, Object>, p: seq<Item>, k: nat, n: nat)
    requires New(e, p) && k <= n < |p|
    ensures Key(p[n].entry) !in Known(Known(e, p[..k]), From(p[..n], k))
  {
    NewAt(e, p, n);
    KnownAgain(e, p, k, n);
    hide *;
    assert (if n <= k then k else n) == n;
  }

  lemma FromNext(p: seq<Item>, k: nat, n: nat)
    requires k <= n < |p|
    ensures From(p[..n + 1], k) == From(p[..n], k) + [p[n]]
  {
    FromSlice(p, k, n);
    FromSlice(p, k, n + 1);
    hide *;
    assert p[k..n + 1] == p[k..n] + [p[n]];
  }

  lemma FromSlice(p: seq<Item>, k: nat, n: nat)
    requires k <= n <= |p|
    ensures From(p[..n], k) == p[k..n]
  {
  }

  lemma DecideAgain(
    s: Source, e: map<bytes, Object>, files: map<bytes, bytes>, other: map<bytes, bytes>, p: seq<Item>, k: nat,
    n: nat, x: Item)
    requires New(e, p) && k <= |p| && n <= |p| && Compatible(s, other, p)
    requires var after := Decide(s, e, files, p[..n], x); after.Some? && after.value <= p
    ensures Decide(s, Known(e, p[..k]), other, From(p[..n], k), x) ==
            Some(From(Decide(s, e, files, p[..n], x).value, k))
  {
    hide Key, Held, Known, New;
    if Key(x.entry) in Known(e, p[..n]) {
      StillKnown(e, p, k, n, x);
    } else {
      assert p[..n] + [x] <= p && (p[..n] + [x])[n] == x;
      assert p[..n] + [x] == p[..n + 1];
      if n < k {
        StillKnown(e, p, k, n, x);
      } else {
        StillNew(e, p, k, n);
        FromNext(p, k, n);
        assert p[n] in p;
      }
    }
  }

  /** Planning again on a tree that lists the first `k` planned items plans exactly the others. */
  lemma {:induction false} Replan(
    s: Source, e: map<bytes, Object>, files: map<bytes, bytes>, other: map<bytes, bytes>, items: seq<Item>,
    p: seq<Item>, k: nat)
    requires New(e, p) && k <= |p| && Compatible(s, other, p)
    requires PlanItems(s, e, files, items).Some? && PlanItems(s, e, files, items).value <= p
    ensures PlanItems(s, Known(e, p[..k]), other, items) == Some(From(PlanItems(s, e, files, items).value, k))
    decreases |items|
  {
    if items != [] {
      var front, x := items[..|items| - 1], items[|items| - 1];
      PlanItemsLast(s, e, files, items);
      PlanItemsLast(s, Known(e, p[..k]), other, items);
      var before := PlanItems(s, e, files, front).value;
      assert before <= PlanItems(s, e, files, items).value;
      hide PlanItems, Known, New, Compatible, From, Decide;
      assert before == p[..|before|];
      Replan(s, e, files, other, front, p, k);
      DecideAgain(s, e, files, other, p, k, |before|, x);
    }
  }

  // ----- one export per asset key

  function Pairs(i: Index): set<(bytes, bytes)>
  {
    (set o | o in i.objects :: (o.assetKey, o.exportId)) + (set e | e in i.empties :: (e.assetKey, e.exportId))
  }

  function ManifestPairs(ms: seq<Manifest>): set<(bytes, bytes)>
  {
    set m | m in ms :: (m.key, m.id)
  }

  predicate OneEach(pairs: set<(bytes, bytes)>)
  {
    forall p, q :: p in pairs && q in pairs && p.0 == q.0 ==> p.1 == q.1
  }

  /** No asset key is listed with two exports. */
  predicate Consistent(i: Index)
  {
    OneEach(Pairs(i))
  }

  lemma {:induction false} ObjectPairs(l: map<bytes, bytes>, objects: seq<Object>)
    ensures forall k :: k in OfObjects(l, objects) ==>
      || (k in l && OfObjects(l, objects)[k] == l[k])
      || exists o :: o in objects && (o.assetKey, o.exportId) == (k, OfObjects(l, objects)[k])
    ensures forall k :: k in l ==> k in OfObjects(l, objects)
    ensures forall o :: o in objects ==> o.assetKey in OfObjects(l, objects)
  {
    if objects != [] {
      ObjectPairs(l, objects[..|objects| - 1]);
      assert objects == objects[..|objects| - 1] + [objects[|objects| - 1]];
    }
  }

  lemma {:induction false} EmptyPairs(l: map<bytes, bytes>, empties: seq<Empty>)
    ensures forall k :: k in OfEmpties(l, empties) ==>
      || (k in l && OfEmpties(l, empties)[k] == l[k])
      || exists e :: e in empties && (e.assetKey, e.exportId) == (k, OfEmpties(l, empties)[k])
    ensures forall k :: k in l ==> k in OfEmpties(l, empties)
    ensures forall e :: e in empties ==> e.assetKey in OfEmpties(l, empties)
  {
    if empties != [] {
      EmptyPairs(l, empties[..|empties| - 1]);
      assert empties == empties[..|empties| - 1] + [empties[|empties| - 1]];
    }
  }

  lemma LogicalPairs(i: Index)
    ensures forall k :: k in Logical(i) ==> (k, Logical(i)[k]) in Pairs(i)
    ensures forall p :: p in Pairs(i) ==> p.0 in Logical(i)
  {
    var l := OfObjects(map[], i.objects);
    ObjectPairs(map[], i.objects);
    EmptyPairs(l, i.empties);
    hide OfObjects, OfEmpties;
    forall k | k in Logical(i) ensures (k, Logical(i)[k]) in Pairs(i) {
      if e :| e in i.empties && (e.assetKey, e.exportId) == (k, Logical(i)[k]) {
      } else {
        var o :| o in i.objects && (o.assetKey, o.exportId) == (k, Logical(i)[k]);
      }
    }
  }

  lemma {:induction false} AssignedValues(l: map<bytes, bytes>, ms: seq<Manifest>)
    requires Assigned(l, ms).Some?
    ensures var v := Assigned(l, ms).value;
      && (forall m :: m in ms ==> m.key in v && v[m.key] == m.id)
      && (forall k :: k in l ==> k in v && v[k] == l[k])
      && forall k :: k in v ==> (k in l && v[k] == l[k]) || (k, v[k]) in ManifestPairs(ms)
  {
    if ms != [] {
      var front, m := ms[..|ms| - 1], ms[|ms| - 1];
      AssignedValues(l, front);
      assert ms == front + [m];
      PairsStep(front, m);
      hide ManifestPairs;
    }
  }

  lemma PairsStep(front: seq<Manifest>, m: Manifest)
    ensures ManifestPairs(front + [m]) == ManifestPairs(front) + {(m.key, m.id)}
  {
    var ms := front + [m];
    forall x | x in ms ensures x in front || x == m {
    }
    assert m in ms;
    forall p | p in ManifestPairs(front) ensures p in ManifestPairs(ms) {
      var x :| x in front && (x.key, x.id) == p;
      assert x in ms;
    }
  }

  ghost predicate Compatibly(l: map<bytes, bytes>, ms: seq<Manifest>)
  {
    OneEach(ManifestPairs(ms)) && forall m :: m in ms && m.key in l ==> l[m.key] == m.id
  }

  lemma CompatiblyFront(l: map<bytes, bytes>, front: seq<Manifest>, m: Manifest)
    requires Compatibly(l, front + [m])
    ensures Compatibly(l, front)
  {
    PairsStep(front, m);
    assert forall x :: x in front ==> x in front + [m];
    hide ManifestPairs;
  }

  /** The manifests can be added when they agree with each other and with what is there. */
  lemma {:induction false} AssignedIff(l: map<bytes, bytes>, ms: seq<Manifest>)
    ensures Assigned(l, ms).Some? <==> Compatibly(l, ms)
  {
    if ms != [] {
      var front, m := ms[..|ms| - 1], ms[|ms| - 1];
      AssignedIff(l, front);
      assert ms == front + [m];
      PairsStep(front, m);
      if Assigned(l, front).Some? {
        AssignedValues(l, front);
        AddManifest(l, front, m, Assigned(l, front).value);
      } else {
        hide ManifestPairs;
        if Compatibly(l, ms) {
          CompatiblyFront(l, front, m);
        }
      }
    }
  }

  lemma AddManifest(l: map<bytes, bytes>, front: seq<Manifest>, m: Manifest, v: map<bytes, bytes>)
    requires Compatibly(l, front) && forall x :: x in front ==> x.key in v && v[x.key] == x.id
    requires forall k :: k in l ==> k in v && v[k] == l[k]
    requires forall k :: k in v ==> (k in l && v[k] == l[k]) || (k, v[k]) in ManifestPairs(front)
    ensures Compatibly(l, front + [m]) <==> (m.key in v ==> v[m.key] == m.id)
  {
    PairsStep(front, m);
    assert m in front + [m];
    assert forall x :: x in front + [m] <==> x in front || x == m;
    forall p | p in ManifestPairs(front) ensures p.0 in v && v[p.0] == p.1 {
      var x :| x in front && (x.key, x.id) == p;
    }
    hide ManifestPairs;
    assert (m.key, m.id) in ManifestPairs(front + [m]);
    assert m.key in v && (m.key, v[m.key]) in ManifestPairs(front) ==> (m.key, v[m.key]) in ManifestPairs(front + [m]);
  }

  // ----- empty exports

  lemma {:induction false} EmptiesList(empties: seq<Empty>, ms: seq<Manifest>)
    ensures empties <= Empties(empties, ms)
    ensures forall m :: m in ms && m.empty ==> ListsExport(Empties(empties, ms), m.id)
    ensures forall e :: e in Empties(empties, ms) ==> e in empties || (e.assetKey, e.exportId) in ManifestPairs(ms)
  {
    if ms != [] {
      var front, m := ms[..|ms| - 1], ms[|ms| - 1];
      EmptiesList(empties, front);
      assert ms == front + [m];
      PairsStep(front, m);
      hide ManifestPairs;
      var before, after := Empties(empties, front), Empties(empties, ms);
      assert forall e :: e in before ==> e in after;
      forall x | x in ms && x.empty ensures ListsExport(after, x.id) {
        if x in front {
          var e :| e in before && e.exportId == x.id;
          assert e in after;
        }
      }
    }
  }

  lemma {:induction false} EmptiesStay(empties: seq<Empty>, ms: seq<Manifest>)
    requires forall m :: m in ms && m.empty ==> ListsExport(empties, m.id)
    ensures Empties(empties, ms) == empties
  {
    hide ListsExport;
    if ms != [] {
      var front, m := ms[..|ms| - 1], ms[|ms| - 1];
      assert ms == front + [m];
      EmptiesStay(empties, front);
    }
  }

  // ----- where items come from

  ghost predicate Origin(s: Source, ms: seq<Manifest>, x: Item)
  {
    exists m :: m in ms && OriginIn(s, m, x)
  }

  predicate OriginIn(s: Source, m: Manifest, x: Item)
  {
    && x.entry.assetKey == m.key && x.entry.exportId == m.id && Intact(s, x.content, x.entry) && !Reserved(s, m)
    && SafePath(x.entry.objectKey) && Directory(s, m.key) + [SLASH] <= x.entry.objectKey
  }

  lemma ItemOrigin(s: Source, m: Manifest, f: Artifact)
    requires ItemOf(s, m, f).Some? && !Reserved(s, m)
    ensures OriginIn(s, m, ItemOf(s, m, f).value)
  {
    hide SafePath, Reserved, Intact, Directory, FileName;
  }

  lemma {:induction false} ItemsOrigin(s: Source, m: Manifest, files: seq<Artifact>)
    requires ItemsOf(s, m, files).Some? && !Reserved(s, m)
    ensures forall x :: x in ItemsOf(s, m, files).value ==> OriginIn(s, m, x)
  {
    hide OriginIn, ItemOf, Reserved;
    if files != [] {
      ItemsOrigin(s, m, files[..|files| - 1]);
      ItemOrigin(s, m, files[|files| - 1]);
    }
  }

  lemma {:induction false} AllOrigins(s: Source, ms: seq<Manifest>)
    requires AllItems(s, ms).Some?
    ensures forall x :: x in AllItems(s, ms).value ==> Origin(s, ms, x)
  {
    hide OriginIn, ItemsOf, Reserved;
    if ms != [] {
      var front, m := ms[..|ms| - 1], ms[|ms| - 1];
      AllOrigins(s, front);
      ItemsOrigin(s, m, m.files);
      assert ms == front + [m];
      forall x | x in AllItems(s, ms).value ensures Origin(s, ms, x) {
        if x in AllItems(s, front).value {
          var n :| n in front && OriginIn(s, n, x);
          assert n in ms;
        } else {
          assert x in ItemsOf(s, m, m.files).value;
          assert m in ms;
        }
      }
    }
  }

  /** What is known of every plan. */
  ghost predicate Sane(s: Source, t: Tree, ms: seq<Manifest>, p: Plan)
  {
    && DistinctKeys(IndexOf(t).objects + Objects(p.items)) && New(Lowered(IndexOf(t).objects), p.items)
    && forall x :: x in p.items ==> Origin(s, ms, x) && Fresh(s, t.files, x)
  }

  lemma PlanIsSane(s: Source, t: Tree, ms: seq<Manifest>, p: Plan)
    requires Planned(s, t, ms) == Some(p)
    ensures Sane(s, t, ms, p)
  {
    var e, items := Lowered(IndexOf(t).objects), AllItems(s, ms).value;
    PlannedDistinct(s, e, t.files, items, IndexOf(t).objects);
    PlannedNew(s, e, t.files, items);
    PlannedFrom(s, e, t.files, items);
    AllOrigins(s, ms);
    assert PlanItems(s, e, t.files, items) == Some(p.items);
    hide PlanItems, AllItems, Assigned, AllHeld, NoClash, Lowered, New, Held, Objects;
    forall x | x in p.items ensures Fresh(s, t.files, x) {
      var m :| m in ms && OriginIn(s, m, x);
    }
  }

  lemma {:induction false} KnownIsLowered(objects: seq<Object>, items: seq<Item>)
    ensures Known(Lowered(objects), items) == Lowered(objects + Objects(items))
  {
    if items == [] {
      assert objects + [] == objects;
    } else {
      var front, x := items[..|items| - 1], items[|items| - 1];
      assert items == front + [x];
      KnownIsLowered(objects, front);
      ObjectsSnoc(objects, front, x);
      LoweredSnoc(objects + Objects(front), x.entry);
      KnownStep(Lowered(objects), front, x);
      hide *;
    }
  }

  lemma ObjectsSnoc(objects: seq<Object>, items: seq<Item>, x: Item)
    ensures objects + Objects(items + [x]) == (objects + Objects(items)) + [x.entry]
  {
  }

  // ----- the checks on a tree that was cut off

  /** A tree between the plan's beginning and its end. */
  ghost predicate Between(t: Tree, p: Plan, k: nat, j: nat, c: Tree)
  {
    && k <= j <= |p.items| && j <= k + 1 && c.files == PutAll(t.files, p.items[..j])
    && IndexOf(c).objects == Merged(IndexOf(t).objects, p.items[..k])
    && (IndexOf(c).empties == IndexOf(t).empties || IndexOf(c).empties == p.empties)
  }

  lemma BetweenObject(s: Source, t: Tree, ms: seq<Manifest>, p: Plan, k: nat, j: nat, c: Tree, o: Object)
    requires Sane(s, t, ms, p) && Between(t, p, k, j, c) && o in IndexOf(c).objects
    ensures o in IndexOf(t).objects || exists x :: x in p.items[..k] && x.entry == o
  {
    var objects := IndexOf(t).objects;
    MergedElements(objects, p.items, k);
    if o !in objects {
      assert o in Objects(p.items[..k]);
      var i :| 0 <= i < k && Objects(p.items[..k])[i] == o;
      assert p.items[..k][i] in p.items[..k];
    }
  }

  lemma BetweenHeld(s: Source, t: Tree, ms: seq<Manifest>, p: Plan, k: nat, j: nat, c: Tree)
    requires AllHeld(s, t) && Sane(s, t, ms, p) && Between(t, p, k, j, c)
    ensures AllHeld(s, c) && Compatible(s, c.files, p.items)
  {
    ItemsDistinct(IndexOf(t).objects, p.items);
    PutKeeps(t.files, p.items[..j]);
    forall x | x in p.items ensures x.entry.objectKey in c.files ==> Held(s, c.files, x.entry) {
      PutHolds(s, t.files, p.items, j, x);
    }
    forall o | o in IndexOf(c).objects ensures SafePath(o.objectKey) && Held(s, c.files, o) {
      BetweenObject(s, t, ms, p, k, j, c, o);
      if o !in IndexOf(t).objects {
        var x :| x in p.items[..k] && x.entry == o;
        HeldItem(s, t, ms, p, k, j, c, x);
      }
    }
  }

  lemma HeldItem(s: Source, t: Tree, ms: seq<Manifest>, p: Plan, k: nat, j: nat, c: Tree, x: Item)
    requires Sane(s, t, ms, p) && Between(t, p, k, j, c) && x in p.items[..k]
    ensures SafePath(x.entry.objectKey) && Held(s, c.files, x.entry)
  {
    ItemsDistinct(IndexOf(t).objects, p.items);
    assert x in p.items && x in p.items[..j] by {
      var i :| 0 <= i < k && p.items[..k][i] == x;
      assert p.items[i] == x && p.items[..j][i] == x;
    }
    PutKeeps(t.files, p.items[..j]);
    PutHolds(s, t.files, p.items, j, x);
    hide SafePath, Intact, Reserved, Directory, PutAll, Held;
    var m :| m in ms && OriginIn(s, m, x);
  }

  lemma ItemsDistinct(objects: seq<Object>, items: seq<Item>)
    requires DistinctKeys(objects + Objects(items))
    ensures DistinctKeys(Objects(items))
  {
    hide Key;
    var all := objects + Objects(items);
    forall i, j | 0 <= i < j < |items| ensures Key(Objects(items)[i]) != Key(Objects(items)[j]) {
      assert all[|objects| + i] == Objects(items)[i] && all[|objects| + j] == Objects(items)[j];
    }
  }

  /** Nothing is listed that neither the old index nor a manifest names. */
  lemma BetweenPairs(s: Source, t: Tree, ms: seq<Manifest>, p: Plan, k: nat, j: nat, c: Tree)
    requires Sane(s, t, ms, p) && Between(t, p, k, j, c) && p.empties == Empties(IndexOf(t).empties, ms)
    ensures Pairs(IndexOf(c)) <= Pairs(IndexOf(t)) + ManifestPairs(ms)
  {
    EmptiesList(IndexOf(t).empties, ms);
    forall o | o in IndexOf(c).objects ensures (o.assetKey, o.exportId) in Pairs(IndexOf(t)) + ManifestPairs(ms) {
      BetweenObject(s, t, ms, p, k, j, c, o);
      if o !in IndexOf(t).objects {
        var x :| x in p.items[..k] && x.entry == o;
        assert x in p.items;
        var m :| m in ms && OriginIn(s, m, x);
      }
    }
    hide ManifestPairs, Empties;
    forall e | e in IndexOf(c).empties ensures (e.assetKey, e.exportId) in Pairs(IndexOf(t)) + ManifestPairs(ms) {
    }
  }

  lemma PairMatches(i: Index, ms: seq<Manifest>, p: (bytes, bytes), q: (bytes, bytes))
    requires Consistent(i) && Compatibly(Logical(i), ms) && p in Pairs(i) && q in ManifestPairs(ms) && p.0 == q.0
    ensures p.1 == q.1
  {
    LogicalPairs(i);
    var m :| m in ms && (m.key, m.id) == q;
    hide Logical, Pairs;
    assert (p.0, Logical(i)[p.0]) in Pairs(i);
  }

  /** The old index and the manifests name one export per asset key between them. */
  lemma PairsAgree(i: Index, ms: seq<Manifest>)
    requires Consistent(i) && Assigned(Logical(i), ms).Some?
    ensures OneEach(Pairs(i) + ManifestPairs(ms))
  {
    AssignedIff(Logical(i), ms);
    LogicalPairs(i);
    hide Assigned, Logical, Pairs;
    var all := Pairs(i) + ManifestPairs(ms);
    forall p, q | p in all && q in all && p.0 == q.0 ensures p.1 == q.1 {
      if p in Pairs(i) && q in ManifestPairs(ms) {
        PairMatches(i, ms, p, q);
      } else if q in Pairs(i) && p in ManifestPairs(ms) {
        PairMatches(i, ms, q, p);
      }
    }
  }

  lemma AssignedAgain(s: Source, t: Tree, ms: seq<Manifest>, p: Plan, k: nat, j: nat, c: Tree)
    requires Consistent(IndexOf(t)) && Assigned(Logical(IndexOf(t)), ms).Some?
    requires Sane(s, t, ms, p) && Between(t, p, k, j, c) && p.empties == Empties(IndexOf(t).empties, ms)
    ensures Assigned(Logical(IndexOf(c)), ms).Some? && Consistent(IndexOf(c))
  {
    PairsAgree(IndexOf(t), ms);
    BetweenPairs(s, t, ms, p, k, j, c);
    LogicalPairs(IndexOf(c));
    AssignedIff(Logical(IndexOf(c)), ms);
    AssignedIff(Logical(IndexOf(t)), ms);
    hide Assigned, Logical, Pairs, Between, Sane, IndexOf;
    var l := Logical(IndexOf(c));
    forall m | m in ms && m.key in l ensures l[m.key] == m.id {
      assert (m.key, l[m.key]) in Pairs(IndexOf(t)) + ManifestPairs(ms);
      assert (m.key, m.id) in ManifestPairs(ms);
    }
  }

  lemma DirectoriesAgain(s: Source, t: Tree, ms: seq<Manifest>, p: Plan, k: nat, j: nat, c: Tree)
    requires NoClash(s, AssetKeys(ms, IndexOf(t).objects)) && Sane(s, t, ms, p) && Between(t, p, k, j, c)
    ensures NoClash(s, AssetKeys(ms, IndexOf(c).objects))
  {
    var before, after := AssetKeys(ms, IndexOf(t).objects), AssetKeys(ms, IndexOf(c).objects);
    KeysOf(ms, IndexOf(t).objects);
    KeysOf(ms, IndexOf(c).objects);
    hide AssetKeys, Position, Agree;
    forall a | a in after ensures a in before {
      if o :| o in IndexOf(c).objects && o.assetKey == a {
        BetweenObject(s, t, ms, p, k, j, c, o);
        if o !in IndexOf(t).objects {
          var x :| x in p.items[..k] && x.entry == o;
          assert x in p.items;
          var m :| m in ms && OriginIn(s, m, x);
        }
      }
    }
  }

  lemma KeysOf(ms: seq<Manifest>, objects: seq<Object>)
    ensures forall a :: a in AssetKeys(ms, objects) <==>
      (exists m :: m in ms && m.key == a) || exists o :: o in objects && o.assetKey == a
  {
    var keys := KeyList(ms, objects);
    forall a | a in keys ensures (exists m :: m in ms && m.key == a) || exists o :: o in objects && o.assetKey == a {
      var i :| 0 <= i < |keys| && keys[i] == a;
      if i < |ms| {
        assert ms[i] in ms;
      } else {
        assert objects[i - |ms|] in objects;
      }
    }
    forall m | m in ms ensures m.key in keys {
      var i :| 0 <= i < |ms| && ms[i] == m;
      assert keys[i] == m.key;
    }
    forall o | o in objects ensures o.assetKey in keys {
      var i :| 0 <= i < |objects| && objects[i] == o;
      assert keys[|ms| + i] == o.assetKey;
    }
  }

  // ----- convergence

  /** From any tree in between, the next run plans exactly what is missing. */
  lemma PlannedAgain(s: Source, t: Tree, ms: seq<Manifest>, p: Plan, k: nat, j: nat, c: Tree)
    requires Consistent(IndexOf(t)) && Planned(s, t, ms) == Some(p) && Between(t, p, k, j, c)
    ensures Planned(s, c, ms) == Some(Plan(p.items[k..], p.empties)) && Consistent(IndexOf(c))
  {
    var objects, items := IndexOf(t).objects, AllItems(s, ms).value;
    PlanIsSane(s, t, ms, p);
    BetweenHeld(s, t, ms, p, k, j, c);
    AssignedAgain(s, t, ms, p, k, j, c);
    DirectoriesAgain(s, t, ms, p, k, j, c);
    MergedElements(objects, p.items, k);
    KnownIsLowered(objects, p.items[..k]);
    Replan(s, Lowered(objects), t.files, c.files, items, p.items, k);
    EmptiesAgain(t, ms, p, c);
    assert From(p.items, k) == p.items[k..];
    hide DistinctKeys, AllHeld, NoClash, Assigned, Logical, AllItems, PlanItems, Lowered, Known, Merged, Empties,
      PutAll;
  }

  lemma EmptiesAgain(t: Tree, ms: seq<Manifest>, p: Plan, c: Tree)
    requires p.empties == Empties(IndexOf(t).empties, ms)
    requires IndexOf(c).empties == IndexOf(t).empties || IndexOf(c).empties == p.empties
    ensures Empties(IndexOf(c).empties, ms) == p.empties
  {
    EmptiesList(IndexOf(t).empties, ms);
    if IndexOf(c).empties == p.empties {
      EmptiesStay(p.empties, ms);
    }
  }

  lemma CutOffIsBetween(t: Tree, p: Plan, k: nat, stray: bool, saved: bool)
    requires k + (if stray then 1 else 0) <= |p.items| && (k > 0 ==> saved)
    ensures Between(t, p, k, k + if stray then 1 else 0, CutOff(t, p, k, stray, saved))
  {
    assert p.items[..0] == [];
    hide PutAll;
  }

  /** Wherever a run was cut off, the next run ends with the tree that the first one would have made. */
  lemma Converges(s: Source, t: Tree, ms: seq<Manifest>, p: Plan, k: nat, stray: bool, saved: bool)
    requires Consistent(IndexOf(t)) && Planned(s, t, ms) == Some(p)
    requires k + (if stray then 1 else 0) <= |p.items| && (k > 0 ==> saved)
    ensures var c := CutOff(t, p, k, stray, saved);
      Planned(s, c, ms).Some? && Finished(c, Planned(s, c, ms).value) == Finished(t, p)
  {
    var c, j := CutOff(t, p, k, stray, saved), k + if stray then 1 else 0;
    CutOffIsBetween(t, p, k, stray, saved);
    PlannedAgain(s, t, ms, p, k, j, c);
    PlanIsSane(s, t, ms, p);
    hide Planned, CutOff, DistinctKeys, PutAll, Merged;
    MergedTwice(IndexOf(t).objects, p.items, k);
    PutAgain(t.files, p.items, k, j);
  }

  /** After a complete run, another one plans nothing and leaves the tree as it is. */
  lemma Settled(s: Source, t: Tree, ms: seq<Manifest>, p: Plan)
    requires Consistent(IndexOf(t)) && Planned(s, t, ms) == Some(p)
    ensures var c := Finished(t, p);
      && Planned(s, c, ms) == Some(Plan([], p.empties)) && Finished(c, Plan([], p.empties)) == c
      && Consistent(IndexOf(c))
  {
    var c, n := Finished(t, p), |p.items|;
    assert p.items[..n] == p.items && p.items[n..] == [];
    assert Between(t, p, n, n, c);
    PlannedAgain(s, t, ms, p, n, n, c);
    hide Planned, Sort;
  }

  // ----- what a successful run guarantees

  /** A run only adds: files keep their content, listed objects stay listed, and no two keys differ in case alone. */
  lemma OnlyAdds(s: Source, t: Tree, ms: seq<Manifest>, p: Plan)
    requires Planned(s, t, ms) == Some(p)
    ensures var c := Finished(t, p);
      && (forall k :: k in t.files ==> k in c.files && c.files[k] == t.files[k])
      && (forall o :: o in IndexOf(t).objects ==> o in IndexOf(c).objects)
      && DistinctKeys(IndexOf(c).objects) && AllHeld(s, c)
  {
    var n := |p.items|;
    PlanIsSane(s, t, ms, p);
    FinishedIsBetween(t, p);
    PutKeeps(t.files, p.items);
    hide NoClash, Assigned, AllItems, PlanItems, AllHeld, DistinctKeys, Merged, PutAll;
    assert p.items[..n] == p.items;
    MergedElements(IndexOf(t).objects, p.items, n);
    BetweenHeld(s, t, ms, p, n, n, Finished(t, p));
  }

  lemma FinishedIsBetween(t: Tree, p: Plan)
    ensures Between(t, p, |p.items|, |p.items|, Finished(t, p))
  {
    assert p.items[..|p.items|] == p.items;
    hide PutAll, Merged;
  }

  /** Each asset key is listed with one export, and its directory belongs to no other key. */
  lemma OnePlacePerKey(s: Source, t: Tree, ms: seq<Manifest>, p: Plan, a: Object, b: Object)
    requires Consistent(IndexOf(t)) && Planned(s, t, ms) == Some(p)
    requires a in IndexOf(Finished(t, p)).objects && b in IndexOf(Finished(t, p)).objects
    ensures a.assetKey == b.assetKey ==> a.exportId == b.exportId
    ensures a.assetKey != b.assetKey ==> Lower(Directory(s, a.assetKey)) != Lower(Directory(s, b.assetKey))
  {
    var c := Finished(t, p);
    Settled(s, t, ms, p);
    assert (a.assetKey, a.exportId) in Pairs(IndexOf(c)) && (b.assetKey, b.exportId) in Pairs(IndexOf(c));
    KeysOf(ms, IndexOf(c).objects);
    hide Finished, Pairs, AllHeld, Assigned, AllItems, PlanItems, NoClash, AssetKeys;
    if a.assetKey != b.assetKey && Lower(Directory(s, a.assetKey)) == Lower(Directory(s, b.assetKey)) {
      OneDirectory(s, AssetKeys(ms, IndexOf(c).objects), a.assetKey, b.assetKey);
    }
  }

  // ----- the tree's own directory

  /** The first part of a path. */
  function Head(p: bytes): bytes
  {
    if p == [] || p[0] == SLASH then [] else [p[0]] + Head(p[1..])
  }

  lemma {:induction false} HeadOf(first: bytes, rest: bytes)
    requires SLASH !in first && (rest == [] || rest[0] == SLASH)
    ensures Head(first + rest) == first
  {
    if first == [] {
      assert first + rest == rest;
    } else {
      assert (first + rest)[1..] == first[1..] + rest;
      HeadOf(first[1..], rest);
    }
  }

  lemma JoinHead(parts: seq<bytes>)
    requires parts != []
    ensures parts[0] <= Join(parts)
    ensures Join(parts) == parts[0] || (|Join(parts)| > |parts[0]| && Join(parts)[|parts[0]|] == SLASH)
  {
  }

  predicate OutsideMeta(s: Source, o: Object)
  {
    Lower(Head(o.objectKey)) != Lower(s.words.meta)
  }

  lemma HeadOfKey(first: bytes, directory: bytes, key: bytes)
    requires SLASH !in first && first <= directory && directory + [SLASH] <= key
    requires directory == first || (|directory| > |first| && directory[|first|] == SLASH)
    ensures Head(key) == first
  {
    var rest := key[|first|..];
    assert key[..|directory| + 1] == directory + [SLASH];
    assert key[..|first|] == directory[..|first|] == first;
    assert key == first + rest;
    assert rest[0] == (directory + [SLASH])[|first|];
    HeadOf(first, rest);
  }

  lemma FirstPart(s: Source, key: bytes)
    requires Component.Printed(s.digest)
    ensures var first, directory := Named(s, Split(key))[0], Directory(s, key);
      && SLASH !in first && first <= directory
      && (directory == first || (|directory| > |first| && directory[|first|] == SLASH))
  {
    var parts := Named(s, Split(key));
    Component.NamedShape(s.digest, Split(key)[0]);
    JoinHead(parts);
    hide Component.Named, Component.Printed, Join;
    assert parts[0] == Component.Named(s.digest, Split(key)[0]);
  }

  /** No planned object lies in the directory of the index and the upload plan, in any letter case. */
  lemma PlannedOutsideMeta(s: Source, m: Manifest, x: Item)
    requires Component.Printed(s.digest) && OriginIn(s, m, x)
    ensures OutsideMeta(s, x.entry)
  {
    FirstPart(s, m.key);
    hide Component.Printed, Intact, SafePath, Lower, Directory, Named, Head;
    HeadOfKey(Named(s, Split(m.key))[0], Directory(s, m.key), x.entry.objectKey);
  }

  lemma NoSlash(a: bytes, b: bytes)
    requires SLASH !in a && SLASH !in b
    ensures SLASH !in a + b
  {
  }

  lemma ComponentIsOnePart(s: Source, v: bytes)
    requires Component.Printed(s.digest)
    ensures SLASH !in Component.Named(s.digest, v)
  {
    Component.NamedShape(s.digest, v);
    hide Component.Named, Component.Printed;
  }

  lemma ShortIsOnePart(s: Source, v: bytes)
    requires Component.Printed(s.digest)
    ensures SLASH !in Component.Short(s.digest, v)
  {
    Component.ShortIsPlain(s.digest, v);
    var short := Component.Short(s.digest, v);
    assert |short| == Component.DIGEST_LENGTH;
    hide Component.Short, Component.Printed;
  }

  lemma TitledIsOnePart(title: bytes, short: bytes, ext: bytes)
    requires SLASH !in title && SLASH !in short && SLASH !in ext
    ensures SLASH !in title + [TILDE] + short + [DOT] + ext
  {
    NoSlash(title, [TILDE]);
    NoSlash(title + [TILDE], short);
    NoSlash(title + [TILDE] + short, [DOT]);
    NoSlash(title + [TILDE] + short + [DOT], ext);
  }

  lemma BasedIsOnePart(base: bytes, suffix: bytes, ext: bytes)
    requires SLASH !in base && SLASH !in suffix && SLASH !in ext
    ensures SLASH !in base + suffix && SLASH !in base + [DOT] + ext
  {
    NoSlash(base, suffix);
    NoSlash(base, [DOT]);
    NoSlash(base + [DOT], ext);
  }

  lemma ExtensionIsOnePart(ext: bytes)
    requires GoodExtension(ext)
    ensures SLASH !in ext
  {
  }

  /** An object lies directly in the directory of its key: its file name is a single part. */
  lemma FileNameIsOnePart(s: Source, m: Manifest, f: Artifact, ext: bytes)
    requires Component.Printed(s.digest) && GoodExtension(ext) && SLASH !in s.words.alphaSuffix
    ensures SLASH !in FileName(s, m, f, ext)
  {
    hide Component.Named, Component.Printed, Component.Short, Split, GoodExtension, RoleOf, StableId;
    var parts := Split(m.key);
    var last := parts[|parts| - 1];
    ComponentIsOnePart(s, last);
    ComponentIsOnePart(s, f.title);
    ShortIsOnePart(s, StableId(f));
    ExtensionIsOnePart(ext);
    BasedIsOnePart(Component.Named(s.digest, last), s.words.alphaSuffix, ext);
    TitledIsOnePart(Component.Named(s.digest, f.title), Component.Short(s.digest, StableId(f)), ext);
  }

  lemma FinishedOutsideMeta(s: Source, t: Tree, ms: seq<Manifest>, p: Plan)
    requires Component.Printed(s.digest) && Planned(s, t, ms) == Some(p)
    requires forall o :: o in IndexOf(t).objects ==> OutsideMeta(s, o)
    ensures forall o :: o in IndexOf(Finished(t, p)).objects ==> OutsideMeta(s, o)
  {
    var c, n := Finished(t, p), |p.items|;
    PlanIsSane(s, t, ms, p);
    assert p.items[..n] == p.items;
    assert Between(t, p, n, n, c);
    hide Planned, Finished, OutsideMeta, Component.Printed;
    forall o | o in IndexOf(c).objects ensures OutsideMeta(s, o) {
      BetweenObject(s, t, ms, p, n, n, c, o);
      if o !in IndexOf(t).objects {
        var x :| x in p.items[..n] && x.entry == o;
        var m :| m in ms && OriginIn(s, m, x);
        PlannedOutsideMeta(s, m, x);
      }
    }
  }

  // ----- the applying loop

  lemma MergedSnoc(objects: seq<Object>, items: seq<Item>, k: nat)
    requires DistinctKeys(objects + Objects(items)) && k < |items|
    ensures Sort(Merged(objects, items[..k]) + [items[k].entry], ByKey) == Merged(objects, items[..k + 1])
  {
    hide *;
    var begun, some, next := Merged(objects, items[..k]), objects + Objects(items[..k]), [items[k].entry];
    assert items[..k + 1] == items[..k] + [items[k]];
    MergedElements(objects, items, k);
    MergedElements(objects, items, k + 1);
    ObjectsSnoc(objects, items[..k], items[k]);
    MergedSorts(objects, items[..k + 1]);
    SortTwice(begun, some, next);
  }

  lemma PutSnoc(files: map<bytes, bytes>, items: seq<Item>, k: nat)
    requires k < |items|
    ensures PutAll(files, items[..k + 1]) == Put(PutAll(files, items[..k]), items[k])
  {
    assert items[..k + 1][..k] == items[..k];
  }

  class Disk {
    var tree: Tree

    constructor (tree: Tree)
      ensures this.tree == tree
    {
      this.tree := tree;
    }

    /** One planned file: created if it is not there, checked, listed; then the index is replaced. */
    method Apply(s: Source, ghost t: Tree, ghost ms: seq<Manifest>, plan: Plan, k: nat)
      requires Planned(s, t, ms) == Some(plan) && k < |plan.items| && tree == CutOff(t, plan, k, false, k > 0)
      modifies this
      ensures tree == CutOff(t, plan, k + 1, false, true)
    {
      var x := plan.items[k];
      PlanIsSane(s, t, ms, plan);
      PutSnoc(t.files, plan.items, k);
      MergedSnoc(IndexOf(t).objects, plan.items, k);
      assert plan.items[..0] == [];
      CutOffIsBetween(t, plan, k, true, k > 0);
      BetweenHeld(s, t, ms, plan, k, k + 1, CutOff(t, plan, k, true, k > 0));
      PutKeeps(t.files, plan.items[..k + 1]);
      assert plan.items[..k + 1][k] == x;
      hide Planned, Sane, PutAll, Merged, Sort, Held, Between, AllHeld, DistinctKeys;
      if x.entry.objectKey !in tree.files {
        tree := tree.(files := tree.files[x.entry.objectKey := x.content]);
      }
      assert tree == CutOff(t, plan, k, true, k > 0);
      assert Held(s, tree.files, x.entry);
      var objects := Sort(IndexOf(tree).objects + [x.entry], ByKey);
      tree := tree.(index := Some(Index(objects, plan.empties)));
    }

    /** Refused with the tree untouched, or carried out to the end. */
    method Export(s: Source, ms: seq<Manifest>) returns (r: Option<Index>)
      modifies this
      ensures r.None? ==> Planned(s, old(tree), ms).None? && tree == old(tree)
      ensures r.Some? ==> Planned(s, old(tree), ms).Some? && r == tree.index
      ensures r.Some? ==> tree == Finished(old(tree), Planned(s, old(tree), ms).value)
    {
      ghost var t := tree;
      var plan :- PlanTree(s, tree, ms);
      assert plan.items[..0] == [] && plan.items[..|plan.items|] == plan.items;
      assert tree == CutOff(t, plan, 0, false, false);
      hide Planned, PutAll, Merged;
      for k := 0 to |plan.items|
        invariant tree == CutOff(t, plan, k, false, k > 0)
      {
        Apply(s, t, ms, plan, k);
      }
      var index := Index(IndexOf(tree).objects, plan.empties);
      tree := tree.(index := Some(index));
      assert tree == CutOff(t, plan, |plan.items|, false, true);
      tree := tree.(index := Some(index), uploadPlan := Some(index));
      return Some(index);
    }
  }
}
