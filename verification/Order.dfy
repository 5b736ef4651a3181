/** Byte-wise lexicographic order, and sorting by a byte-string key. */
module Order {
  import opened Bytes
  import opened Numbers

  predicate Less(a: bytes, b: bytes)
  {
    if b == [] then false
    else if a == [] then true
    else a[0] < b[0] || (a[0] == b[0] && Less(a[1..], b[1..]))
  }

  lemma {:induction false} LessIrreflexive(a: bytes)
    ensures !Less(a, a)
  {
    if a != [] {
      LessIrreflexive(a[1..]);
    }
  }

  lemma {:induction false} LessTotal(a: bytes, b: bytes)
    ensures Less(a, b) || a == b || Less(b, a)
  {
    if a != [] && b != [] && a[0] == b[0] {
      LessTotal(a[1..], b[1..]);
      assert a == [a[0]] + a[1..] && b == [b[0]] + b[1..];
    }
  }

  lemma {:induction false} LessTransitive(a: bytes, b: bytes, c: bytes)
    requires Less(a, b) && Less(b, c)
    ensures Less(a, c)
  {
    if a != [] && a[0] == b[0] == c[0] {
      LessTransitive(a[1..], b[1..], c[1..]);
    }
  }

  /** Strictly increasing by `rank`, so without two elements of one rank. */
  ghost predicate Sorted<T(!new)>(s: seq<T>, rank: T -> bytes)
  {
    forall i, j :: 0 <= i < j < |s| ==> Less(rank(s[i]), rank(s[j]))
  }

  /** `x` put before the first element that ranks above it. */
  function Insert<T(!new)>(s: seq<T>, rank: T -> bytes, x: T): (r: seq<T>)
    ensures |r| == |s| + 1
  {
    if s == [] || Less(rank(x), rank(s[0])) then [x] + s else [s[0]] + Insert(s[1..], rank, x)
  }

  lemma {:induction false} InsertElements<T(!new)>(s: seq<T>, rank: T -> bytes, x: T)
    ensures multiset(Insert(s, rank, x)) == multiset(s) + multiset{x}
    ensures forall y :: y in Insert(s, rank, x) <==> y in s || y == x
  {
    if s == [] || Less(rank(x), rank(s[0])) {
      assert multiset([x] + s) == multiset(s) + multiset{x};
    } else {
      InsertElements(s[1..], rank, x);
      assert s == [s[0]] + s[1..];
      assert multiset([s[0]] + Insert(s[1..], rank, x)) == multiset{s[0]} + multiset(Insert(s[1..], rank, x));
      assert multiset(s) == multiset{s[0]} + multiset(s[1..]);
    }
  }

  lemma {:induction false} InsertSorted<T(!new)>(s: seq<T>, rank: T -> bytes, x: T)
    requires Sorted(s, rank) && forall y :: y in s ==> rank(y) != rank(x)
    ensures Sorted(Insert(s, rank, x), rank)
  {
    if s == [] {
    } else if Less(rank(x), rank(s[0])) {
      forall j | 0 < j < |s| ensures Less(rank(x), rank(s[j])) {
        LessTransitive(rank(x), rank(s[0]), rank(s[j]));
      }
    } else {
      LessTotal(rank(x), rank(s[0]));
      assert s[0] in s;
      var rest := Insert(s[1..], rank, x);
      InsertSorted(s[1..], rank, x);
      InsertElements(s[1..], rank, x);
      forall j | 0 <= j < |rest| ensures Less(rank(s[0]), rank(rest[j])) {
        assert rest[j] in rest;
        if rest[j] != x {
          assert rest[j] in s[1..];
          var k :| 0 <= k < |s[1..]| && s[1..][k] == rest[j];
          assert s[k + 1] == rest[j];
        }
      }
    }
  }

  /** Insertion sort. */
  function Sort<T(!new)>(s: seq<T>, rank: T -> bytes): (r: seq<T>)
    ensures |r| == |s|
  {
    if s == [] then [] else Insert(Sort(s[..|s| - 1], rank), rank, s[|s| - 1])
  }

  lemma {:induction false} SortElements<T(!new)>(s: seq<T>, rank: T -> bytes)
    ensures forall y :: y in Sort(s, rank) <==> y in s
    ensures multiset(Sort(s, rank)) == multiset(s)
  {
    if s != [] {
      SortElements(s[..|s| - 1], rank);
      InsertElements(Sort(s[..|s| - 1], rank), rank, s[|s| - 1]);
      assert s == s[..|s| - 1] + [s[|s| - 1]];
    }
  }

  ghost predicate DistinctRanks<T(!new)>(s: seq<T>, rank: T -> bytes)
  {
    forall i, j :: 0 <= i < j < |s| ==> rank(s[i]) != rank(s[j])
  }

  lemma {:induction false} SortSorts<T(!new)>(s: seq<T>, rank: T -> bytes)
    requires DistinctRanks(s, rank)
    ensures Sorted(Sort(s, rank), rank)
  {
    if s != [] {
      var front, last := s[..|s| - 1], s[|s| - 1];
      SortSorts(front, rank);
      SortElements(front, rank);
      forall y | y in Sort(front, rank) ensures rank(y) != rank(last) {
        assert y in front;
        var i :| 0 <= i < |front| && front[i] == y;
        assert s[i] == y;
      }
      InsertSorted(Sort(front, rank), rank, last);
    }
  }

  lemma HasMember<T(!new)>(s: seq<T>)
    ensures s != [] ==> exists x :: x in s
  {
    if s != [] {
      assert s[0] in s;
    }
  }

  lemma NoFirst<T(!new)>(a: seq<T>, b: seq<T>)
    requires b == [] && forall x :: x in a <==> x in b
    ensures a == []
  {
    assert forall x :: x !in b;
    assert forall x :: x in a ==> x in b;
    HasMember(a);
  }

  /** A set of elements has only one strictly sorted listing. */
  lemma {:induction false} SortedUnique<T(!new)>(a: seq<T>, b: seq<T>, rank: T -> bytes)
    requires Sorted(a, rank) && Sorted(b, rank) && forall x :: x in a <==> x in b
    ensures a == b
  {
    if a == [] || b == [] {
      if b == [] {
        NoFirst(a, b);
      } else {
        NoFirst(b, a);
      }
    } else {
      assert a[0] in b;
      assert b[0] in a;
      var i :| 0 <= i < |b| && b[i] == a[0];
      var j :| 0 <= j < |a| && a[j] == b[0];
      if i > 0 && j > 0 {
        LessTransitive(rank(a[0]), rank(b[0]), rank(a[0]));
        LessIrreflexive(rank(a[0]));
      }
      assert a[0] == b[0];
      forall x ensures x in a[1..] <==> x in b[1..] {
        TailMembers(a, rank, x);
        TailMembers(b, rank, x);
      }
      SortedUnique(a[1..], b[1..], rank);
      assert a == [a[0]] + a[1..] && b == [b[0]] + b[1..];
    }
  }

  lemma TailMembers<T(!new)>(s: seq<T>, rank: T -> bytes, x: T)
    requires Sorted(s, rank) && s != []
    ensures x in s[1..] <==> x in s && x != s[0]
  {
    if x in s[1..] {
      var k :| 0 <= k < |s[1..]| && s[1..][k] == x;
      assert s[k + 1] == x;
      LessIrreflexive(rank(x));
    }
    if x in s && x != s[0] {
      var k :| 0 <= k < |s| && s[k] == x;
      assert s[1..][k - 1] == x;
    }
  }

  // ----- numbers as fixed-width keys

  lemma {:induction false} LessAppend(a: bytes, b: bytes, p: byte, q: byte)
    requires |a| == |b|
    ensures Less(a + [p], b + [q]) <==> Less(a, b) || (a == b && p < q)
  {
    if a == [] {
      assert a + [p] == [p] && b + [q] == [q];
    } else {
      assert (a + [p])[1..] == a[1..] + [p] && (b + [q])[1..] == b[1..] + [q];
      assert a == [a[0]] + a[1..] && b == [b[0]] + b[1..];
      LessAppend(a[1..], b[1..], p, q);
      if Less(a, b) {
        LessIrreflexive(a);
      }
    }
  }

  /** Big-endian keys of one width are ordered as their numbers. */
  lemma {:induction false} BigEndianOrder(m: nat, n: nat, k: nat)
    requires m < Pow256(k) && n < Pow256(k)
    ensures Less(ToBe(m, k), ToBe(n, k)) <==> m < n
    ensures ToBe(m, k) == ToBe(n, k) <==> m == n
  {
    BeToBe(m, k);
    BeToBe(n, k);
    if k > 0 {
      BigEndianOrder(m / 0x100, n / 0x100, k - 1);
      LessAppend(ToBe(m / 0x100, k - 1), ToBe(n / 0x100, k - 1), m % 0x100, n % 0x100);
    }
  }
}
