/** Filtering a list. */
module Seqs {
  function Filter<T>(s: seq<T>, f: T -> bool): (r: seq<T>)
    ensures |r| <= |s|
  {
    if s == [] then [] else (if f(s[0]) then [s[0]] else []) + Filter(s[1..], f)
  }

  lemma {:induction false} FilterElements<T(!new)>(s: seq<T>, f: T -> bool)
    ensures forall x :: x in Filter(s, f) <==> x in s && f(x)
  {
    if s != [] {
      FilterElements(s[1..], f);
      assert s == [s[0]] + s[1..];
    }
  }

  /** What comes first after filtering is the first element that passes. */
  lemma {:induction false} FilterFirst<T(!new)>(s: seq<T>, f: T -> bool) returns (i: nat)
    requires Filter(s, f) != []
    ensures i < |s| && f(s[i]) && Filter(s, f)[0] == s[i] && forall j :: 0 <= j < i ==> !f(s[j])
  {
    if f(s[0]) {
      i := 0;
    } else {
      i := FilterFirst(s[1..], f);
      forall j | 0 <= j < i + 1 ensures !f(s[j]) {
        if j > 0 {
          assert s[1..][j - 1] == s[j];
        }
      }
      i := i + 1;
    }
  }

  lemma MultisetOfCons<T>(x: T, s: seq<T>)
    ensures multiset([x] + s) == multiset{x} + multiset(s)
  {
  }

  lemma AddToSplit<T>(x: multiset<T>, a: multiset<T>, b: multiset<T>)
    ensures (x + a) + b == x + (a + b) && a + (x + b) == x + (a + b)
  {
  }

  lemma FilterCons<T>(x: T, s: seq<T>, f: T -> bool)
    ensures Filter([x] + s, f) == if f(x) then [x] + Filter(s, f) else Filter(s, f)
  {
    assert ([x] + s)[1..] == s;
  }

  lemma FilterNothing<T>(f: T -> bool)
    ensures Filter([], f) == []
  {
  }

  lemma {:induction false} FilterSnoc<T>(s: seq<T>, x: T, f: T -> bool)
    ensures Filter(s + [x], f) == Filter(s, f) + if f(x) then [x] else []
  {
    hide Filter;
    if s == [] {
      FilterNothing(f);
      FilterCons(x, [], f);
      assert s + [x] == [x] + [] && [x] + [] == [x];
    } else {
      var first, rest := s[0], s[1..];
      FilterSnoc(rest, x, f);
      FilterCons(first, rest, f);
      FilterCons(first, rest + [x], f);
      assert s == [first] + rest && s + [x] == [first] + (rest + [x]);
      var kept, last := Filter(rest, f), if f(x) then [x] else [];
      assert ([first] + kept) + last == [first] + (kept + last);
    }
  }

  /** The elements that satisfy a test and those that do not make up the whole list. */
  lemma {:induction false} FilterSplits<T(!new)>(s: seq<T>, f: T -> bool, g: T -> bool)
    requires forall x :: f(x) != g(x)
    ensures multiset(Filter(s, f)) + multiset(Filter(s, g)) == multiset(s)
  {
    if s != [] {
      var x, rest := s[0], s[1..];
      assert s == [x] + rest;
      FilterSplits(rest, f, g);
      FilterCons(x, rest, f);
      FilterCons(x, rest, g);
      hide Filter;
      MultisetOfCons(x, rest);
      MultisetOfCons(x, Filter(rest, f));
      MultisetOfCons(x, Filter(rest, g));
      AddToSplit(multiset{x}, multiset(Filter(rest, f)), multiset(Filter(rest, g)));
      assert f(x) != g(x);
    }
  }

  ghost predicate Ordered<T(!new)>(s: seq<T>, before: (T, T) -> bool)
  {
    forall i, j :: 0 <= i < j < |s| ==> before(s[i], s[j])
  }

  /** Whatever holds between every earlier and later element still does after filtering. */
  lemma {:induction false} FilterOrdered<T(!new)>(s: seq<T>, f: T -> bool, before: (T, T) -> bool)
    requires Ordered(s, before)
    ensures Ordered(Filter(s, f), before)
  {
    if s != [] {
      var rest := Filter(s[1..], f);
      FilterOrdered(s[1..], f, before);
      FilterElements(s[1..], f);
      forall j | 0 <= j < |rest| ensures before(s[0], rest[j]) {
        assert rest[j] in rest;
        var k :| 0 <= k < |s[1..]| && s[1..][k] == rest[j];
        assert s[k + 1] == rest[j];
      }
    }
  }
}
