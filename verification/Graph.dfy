/** Reachability in a graph given by its successor function. */
module Graph {
  predicate Path<T(==)>(next: T -> seq<T>, p: seq<T>)
  {
    p != [] && forall i :: 0 <= i < |p| - 1 ==> p[i + 1] in next(p[i])
  }

  ghost predicate Joins<T(!new)>(next: T -> seq<T>, roots: set<T>, p: seq<T>, x: T)
  {
    Path(next, p) && p[0] in roots && p[|p| - 1] == x
  }

  ghost predicate Reached<T(!new)>(next: T -> seq<T>, roots: set<T>, x: T)
  {
    exists p :: Joins(next, roots, p, x)
  }

  lemma RootReached<T(!new)>(next: T -> seq<T>, roots: set<T>, x: T)
    requires x in roots
    ensures Reached(next, roots, x)
  {
    assert Joins(next, roots, [x], x);
  }

  lemma ReachedFromMore<T(!new)>(next: T -> seq<T>, roots: set<T>, more: set<T>, x: T)
    requires roots <= more && Reached(next, roots, x)
    ensures Reached(next, more, x)
  {
    var p :| Joins(next, roots, p, x);
    assert Joins(next, more, p, x);
  }

  lemma NextReached<T(!new)>(next: T -> seq<T>, roots: set<T>, x: T, y: T)
    requires Reached(next, roots, x) && y in next(x)
    ensures Reached(next, roots, y)
  {
    var p :| Joins(next, roots, p, x);
    var q := p + [y];
    forall i | 0 <= i < |q| - 1 ensures q[i + 1] in next(q[i]) {
      if i < |p| - 1 {
        assert p[i + 1] in next(p[i]);
      }
    }
    assert Joins(next, roots, q, y);
  }

  ghost predicate Closed<T(!new)>(next: T -> seq<T>, s: set<T>)
  {
    forall x, y :: x in s && y in next(x) ==> y in s
  }

  lemma {:induction false} PathStaysInside<T(!new)>(next: T -> seq<T>, s: set<T>, p: seq<T>)
    requires Closed(next, s) && Path(next, p) && p[0] in s
    ensures p[|p| - 1] in s
  {
    if |p| > 1 {
      var q := p[..|p| - 1];
      forall i | 0 <= i < |q| - 1 ensures q[i + 1] in next(q[i]) {
        assert p[i + 1] in next(p[i]);
      }
      PathStaysInside(next, s, q);
      assert p[|p| - 2 + 1] in next(p[|p| - 2]);
    }
  }

  /** A closed set that holds the roots holds everything reached from them. */
  lemma ReachedInside<T(!new)>(next: T -> seq<T>, roots: set<T>, s: set<T>, x: T)
    requires Closed(next, s) && roots <= s && Reached(next, roots, x)
    ensures x in s
  {
    var p :| Joins(next, roots, p, x);
    PathStaysInside(next, s, p);
  }
}
