/**
 Choosing the location of a key, and the depth-first closure of its downloadable dependencies.
 */
module Closure {
  import opened Bytes
  import opened Graph
  import opened Seqs
  import opened Sets
  import opened CatalogReader
  import opened Catalogs
  import Text

  datatype Result<+T, +E> = Ok(value: T) | Err(error: E)

  // ----- choosing a location

  datatype Selector = Selector(expectedType: Option<bytes>, locationId: Option<u32>)

  datatype Unresolved = KeyMissing | LocationMissing | NoMatch | Ambiguous

  function Fits(s: Selector): Location -> bool
  {
    (l: Location) =>
      && (s.locationId.None? || s.locationId == Some(l.id))
      && (s.expectedType.None? || s.expectedType == Some(l.resourceType))
  }

  predicate Alike(a: Location, b: Location)
  {
    a.internal == b.internal && a.provider == b.provider && a.dependencies == b.dependencies
  }

  function Candidates(c: Catalog, ids: seq<u32>): Option<seq<Location>>
  {
    if ids == [] then Some([])
    else if ids[0] !in c.locations then None
    else
      var rest :- Candidates(c, ids[1..]);
      Some([c.locations[ids[0]]] + rest)
  }

  function Resolve(c: Catalog, key: bytes, s: Selector): Result<Location, Unresolved>
  {
    if key !in c.keys then Err(KeyMissing) else
    match Candidates(c, c.keys[key])
    case None => Err(LocationMissing)
    case Some(candidates) =>
      var selected := Filter(candidates, Fits(s));
      if selected == [] then Err(NoMatch)
      else if forall l :: l in selected ==> Alike(l, selected[0]) then Ok(selected[0])
      else Err(Ambiguous)
  }

  /** Of the id and the type, what the selector names is what the location has. */
  predicate Meets(s: Selector, l: Location)
  {
    && (s.locationId.Some? ==> l.id == s.locationId.value)
    && (s.expectedType.Some? ==> l.resourceType == s.expectedType.value)
  }

  /** `l` is listed under the key and fits the selector. */
  ghost predicate Matches(c: Catalog, key: bytes, s: Selector, l: Location)
  {
    key in c.keys && exists id :: id in c.keys[key] && id in c.locations && c.locations[id] == l && Meets(s, l)
  }

  /** All that fit have one address, one provider and one list of dependencies. */
  ghost predicate MatchesAgree(c: Catalog, key: bytes, s: Selector)
  {
    forall a, b :: Matches(c, key, s, a) && Matches(c, key, s, b) ==>
      (a.internal, a.provider, a.dependencies) == (b.internal, b.provider, b.dependencies)
  }

  lemma {:induction false} CandidateElements(c: Catalog, ids: seq<u32>)
    ensures Candidates(c, ids).Some? <==> forall id :: id in ids ==> id in c.locations
    ensures Candidates(c, ids).Some? ==>
      forall l :: l in Candidates(c, ids).value <==> exists id :: id in ids && id in c.locations && c.locations[id] == l
  {
    if ids != [] {
      CandidateElements(c, ids[1..]);
      assert ids == [ids[0]] + ids[1..];
    }
  }

  /** A key resolves exactly when something fits and everything that fits has the same content. */
  lemma Resolves(c: Catalog, key: bytes, s: Selector)
    requires key in c.keys && forall id :: id in c.keys[key] ==> id in c.locations
    ensures var r := Resolve(c, key, s);
      && (r.Ok? ==> Matches(c, key, s, r.value))
      && (r.Ok? <==> ((exists l :: Matches(c, key, s, l)) && MatchesAgree(c, key, s)))
      && (r.Err? ==> r.error == if exists l :: Matches(c, key, s, l) then Ambiguous else NoMatch)
  {
    CandidateElements(c, c.keys[key]);
    var candidates := Candidates(c, c.keys[key]).value;
    FilterElements(candidates, Fits(s));
    var selected := Filter(candidates, Fits(s));
    assert forall l :: Fits(s)(l) <==> Meets(s, l);
    hide Candidates, Filter, Fits, Meets;
    assert forall l :: l in selected <==> Matches(c, key, s, l);
    if selected != [] {
      assert selected[0] in selected;
    }
  }

  lemma {:induction false} CandidateCount(c: Catalog, ids: seq<u32>)
    requires Candidates(c, ids).Some?
    ensures |Candidates(c, ids).value| == |ids|
  {
    if ids != [] {
      CandidateCount(c, ids[1..]);
    }
  }

  lemma {:induction false} CandidatesInOrder(c: Catalog, ids: seq<u32>, i: nat)
    requires Candidates(c, ids).Some? && i < |ids|
    ensures i < |Candidates(c, ids).value| && ids[i] in c.locations
    ensures Candidates(c, ids).value[i] == c.locations[ids[i]]
    decreases |ids|
  {
    if i > 0 {
      CandidatesInOrder(c, ids[1..], i - 1);
    }
  }

  /** Of several alike, the first in the key's own order is chosen. */
  lemma ResolvesToFirst(c: Catalog, key: bytes, s: Selector) returns (i: nat)
    requires Resolve(c, key, s).Ok?
    ensures key in c.keys && i < |c.keys[key]| && c.keys[key][i] in c.locations
    ensures Resolve(c, key, s).value == c.locations[c.keys[key][i]] && Meets(s, Resolve(c, key, s).value)
    ensures forall j :: 0 <= j < i ==> c.keys[key][j] in c.locations && !Meets(s, c.locations[c.keys[key][j]])
  {
    var ids := c.keys[key];
    var candidates := Candidates(c, ids).value;
    CandidateCount(c, ids);
    i := FilterFirst(candidates, Fits(s));
    CandidatesInOrder(c, ids, i);
    forall j | 0 <= j < i ensures ids[j] in c.locations && candidates[j] == c.locations[ids[j]] {
      CandidatesInOrder(c, ids, j);
    }
    assert forall l :: Fits(s)(l) <==> Meets(s, l);
    hide Candidates, Filter, Fits;
  }

  // ----- the closure

  datatype Unclosed = DependencyMissing | UnsupportedProvider | NothingToDownload

  /** The two bundle providers and the media provider; everything below holds for any choice of them. */
  datatype Providers = Providers(crypt: bytes, plain: bytes, cri: bytes)

  const KNOWN_PROVIDERS := Providers(
    Text.Literal("Fwk.Crypt.AssetBundleCryptProvider"),
    Text.Literal("UnityEngine.ResourceManagement.ResourceProviders.AssetBundleProvider"),
    Text.Literal("CriWare.Assets.CriResourceProvider"))

  predicate Supported(p: Providers, l: Location)
  {
    l.provider == p.crypt || l.provider == p.plain || l.provider == p.cri
  }

  function Edges(c: Catalog): u32 -> seq<u32>
  {
    id => if id in c.locations then c.locations[id].dependencies else []
  }

  ghost predicate From(c: Catalog, id: u32, x: u32)
  {
    Reached(Edges(c), {id}, x)
  }

  predicate Downloadable(c: Catalog, x: u32)
  {
    x in c.locations && c.locations[x].options.Some?
  }

  function Pick(c: Catalog, ids: seq<u32>): seq<Location>
    requires forall x :: x in ids ==> x in c.locations
  {
    seq(|ids|, i requires 0 <= i < |ids| => c.locations[ids[i]])
  }

  ghost predicate Clean(c: Catalog, p: Providers, x: u32)
  {
    x in c.locations && (Downloadable(c, x) ==> Supported(p, c.locations[x]))
  }

  /** Each downloadable location reached from `id`, once. */
  ghost predicate Lists(c: Catalog, id: u32, ids: seq<u32>)
  {
    && (forall i, j :: 0 <= i < j < |ids| ==> ids[i] != ids[j])
    && forall x :: x in ids <==> From(c, id, x) && Downloadable(c, x)
  }

  /** The invariant of the stack. */
  ghost predicate Walk(c: Catalog, p: Providers, id: u32, todo: seq<u32>, seen: set<u32>, ids: seq<u32>)
  {
    && (forall x :: x in todo || x in seen ==> From(c, id, x))
    && (forall x :: x in seen ==> Clean(c, p, x))
    && (id in todo || id in seen)
    && (forall x, y :: x in seen && y in Edges(c)(x) ==> y in seen || y in todo)
    && (forall i, j :: 0 <= i < j < |ids| ==> ids[i] != ids[j])
    && forall x :: x in ids <==> x in seen && Downloadable(c, x)
  }

  lemma WalkBegins(c: Catalog, p: Providers, id: u32)
    ensures Walk(c, p, id, [id], {}, [])
  {
    RootReached(Edges(c), {id}, id);
  }

  lemma WalkSkips(c: Catalog, p: Providers, id: u32, todo: seq<u32>, seen: set<u32>, ids: seq<u32>)
    requires Walk(c, p, id, todo, seen, ids) && todo != [] && todo[|todo| - 1] in seen
    ensures Walk(c, p, id, todo[..|todo| - 1], seen, ids)
  {
    assert todo == todo[..|todo| - 1] + [todo[|todo| - 1]];
  }

  lemma WalkVisits(c: Catalog, p: Providers, id: u32, todo: seq<u32>, seen: set<u32>, ids: seq<u32>)
    requires Walk(c, p, id, todo, seen, ids) && todo != []
    requires var x := todo[|todo| - 1]; x !in seen && Clean(c, p, x)
    ensures var x := todo[|todo| - 1];
      Walk(c, p, id, todo[..|todo| - 1] + c.locations[x].dependencies, seen + {x},
        if Downloadable(c, x) then ids + [x] else ids)
  {
    var x := todo[|todo| - 1];
    assert todo == todo[..|todo| - 1] + [x];
    hide Downloadable, Clean;
    forall y | y in c.locations[x].dependencies ensures From(c, id, y) {
      NextReached(Edges(c), {id}, x, y);
    }
  }

  lemma WalkEnds(c: Catalog, p: Providers, id: u32, seen: set<u32>, ids: seq<u32>)
    requires Walk(c, p, id, [], seen, ids)
    ensures Lists(c, id, ids) && forall x :: From(c, id, x) ==> Clean(c, p, x)
  {
    hide Clean, Downloadable;
    assert Closed(Edges(c), seen);
    forall x | From(c, id, x) ensures x in seen {
      ReachedInside(Edges(c), {id}, seen, x);
    }
  }

  /** The depth-first walk with an explicit stack; cycles are cut by `seen`. */
  method ClosureFrom(c: Catalog, p: Providers, id: u32)
    returns (r: Result<seq<Location>, Unclosed>, ghost ids: seq<u32>)
    ensures r.Ok? ==> r.value != [] && Lists(c, id, ids) && r.value == Pick(c, ids)
    ensures r.Ok? ==> forall x :: From(c, id, x) ==> Clean(c, p, x)
    ensures r == Err(DependencyMissing) ==> exists x :: From(c, id, x) && x !in c.locations
    ensures r == Err(UnsupportedProvider) ==>
      exists x :: From(c, id, x) && Downloadable(c, x) && !Supported(p, c.locations[x])
    ensures r == Err(NothingToDownload) ==> forall x :: From(c, id, x) ==> Clean(c, p, x) && !Downloadable(c, x)
  {
    var todo, seen: set<u32>, out := [id], {}, [];
    ids := [];
    WalkBegins(c, p, id);
    hide Walk, Supported;
    while todo != []
      invariant Walk(c, p, id, todo, seen, ids)
      invariant forall x :: x in ids ==> x in c.locations
      invariant out == Pick(c, ids)
      decreases |c.locations.Keys - seen|, |todo|
    {
      var x := todo[|todo| - 1];
      if x in seen {
        WalkSkips(c, p, id, todo, seen, ids);
        todo := todo[..|todo| - 1];
        continue;
      }
      WalkFrom(c, p, id, todo, seen, ids);
      if x !in c.locations {
        return Err(DependencyMissing), ids;
      }
      var l := c.locations[x];
      if l.options.Some? && !Supported(p, l) {
        return Err(UnsupportedProvider), ids;
      }
      WalkVisits(c, p, id, todo, seen, ids);
      if l.options.Some? {
        out, ids := out + [l], ids + [x];
      }
      assert c.locations.Keys - (seen + {x}) < c.locations.Keys - seen;
      SmallerSet(c.locations.Keys - (seen + {x}), c.locations.Keys - seen);
      todo, seen := todo[..|todo| - 1] + l.dependencies, seen + {x};
    }
    WalkEnds(c, p, id, seen, ids);
    if out == [] {
      assert ids == [];
      return Err(NothingToDownload), ids;
    }
    return Ok(out), ids;
  }

  lemma WalkFrom(c: Catalog, p: Providers, id: u32, todo: seq<u32>, seen: set<u32>, ids: seq<u32>)
    requires Walk(c, p, id, todo, seen, ids) && todo != []
    ensures From(c, id, todo[|todo| - 1])
  {
  }

  // ----- what parsing guarantees

  ghost predicate Filed(c: Catalog)
  {
    forall x :: x in c.locations ==> c.locations[x].id == x
  }

  /** Every id under a key and every dependency is itself a location, and each is filed under its own id. */
  ghost predicate NothingDangles(c: Catalog)
  {
    && Filed(c)
    && (forall k, id :: k in c.keys && id in c.keys[k] ==> id in c.locations)
    && forall x, y :: x in c.locations && y in c.locations[x].dependencies ==> y in c.locations
  }

  lemma {:induction false} KeyIdsAreRoots(rows: seq<Row>)
    requires Keys(rows).Some?
    ensures forall k, id :: k in Keys(rows).value && id in Keys(rows).value[k] ==> id in Roots(rows)
  {
    if rows != [] {
      hide Keys, Roots, References, KeyMaterial;
      var front := rows[..|rows| - 1];
      AppendRow(front, rows[|rows| - 1]);
      assert rows == front + [rows[|rows| - 1]];
      KeyIdsAreRoots(front);
    }
  }

  lemma LocationIds(types: Types, d: bytes, id: u32)
    requires |d| <= MAX_CATALOG && LocationAt(types, d, id).Some?
    ensures LocationAt(types, d, id).value.id == id
  {
    hide Decode, WordIn, WordArray, TypeNameAt, OptionsAt;
  }

  lemma ParsedNothingDangles(types: Types, d: bytes, c: Catalog)
    requires |d| <= MAX_CATALOG && Meaning(types, d, c)
    ensures NothingDangles(c)
  {
    var rows := Table(types, d).value;
    var next, roots := Depends(types, d), Roots(rows);
    KeyIdsAreRoots(rows);
    hide Table, Keys, Roots, LocationAt;
    forall k, id | k in c.keys && id in c.keys[k] ensures id in c.locations {
      RootReached(next, roots, id);
    }
    forall x, y | x in c.locations && y in c.locations[x].dependencies ensures y in c.locations {
      NextReached(next, roots, x, y);
    }
    forall x | x in c.locations ensures c.locations[x].id == x {
      LocationIds(types, d, x);
    }
  }

  /** On such a catalog the errors "location missing" and "dependency missing" cannot occur. */
  lemma NothingIsMissing(c: Catalog, key: bytes, s: Selector)
    requires NothingDangles(c)
    ensures Resolve(c, key, s) != Err(LocationMissing)
    ensures forall id, x :: id in c.locations && From(c, id, x) ==> x in c.locations
  {
    if key in c.keys {
      CandidateElements(c, c.keys[key]);
    }
    forall id, x | id in c.locations && From(c, id, x) ensures x in c.locations {
      assert Closed(Edges(c), c.locations.Keys);
      ReachedInside(Edges(c), {id}, c.locations.Keys, x);
    }
  }
}
