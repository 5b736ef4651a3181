/** Paths of a tree, part by part: which ones are accepted, and the directory of a key. */
module TreePaths {
  import opened Bytes
  import Component
  import opened TreePlan

  /** The bytes from `i` to `j` stand between slashes or ends. */
  predicate Part(p: bytes, i: nat, j: nat)
  {
    && i <= j <= |p| && (i > 0 ==> p[i - 1] == 0x2F) && (j < |p| ==> p[j] == 0x2F)
    && forall k :: i <= k < j ==> p[k] != 0x2F
  }

  ghost predicate HasPart(p: bytes, part: bytes)
  {
    exists i: nat, j: nat :: Part(p, i, j) && p[i..j] == part
  }

  /** A relative path that leaves no directory and fits a line of 1024 bytes. */
  ghost predicate Relative(p: bytes)
  {
    && |p| <= 1024
    && (forall i :: 0 <= i < |p| ==> p[i] !in {0x5C, 0x3A, 0})
    && !HasPart(p, []) && !HasPart(p, [0x2E]) && !HasPart(p, [0x2E, 0x2E])
  }

  lemma OneEnd(p: bytes, i: nat, j: nat, n: nat)
    requires Part(p, i, j) && Part(p, i, n)
    ensures j == n
  {
  }

  lemma OneStart(p: bytes, i: nat, j: nat, n: nat)
    requires Part(p, i, j) && Part(p, 0, n) && i > 0
    ensures n < i
  {
  }

  /** The first part of a path reaches up to the first slash. */
  lemma {:induction false} FirstPart(p: bytes)
    ensures var n := |Split(p)[0]|; Part(p, 0, n) && p[..n] == Split(p)[0]
    ensures |Split(p)| > 1 <==> |Split(p)[0]| < |p|
  {
    if p != [] && p[0] != SLASH {
      FirstPart(p[1..]);
      var n := |Split(p[1..])[0]|;
      assert p == [p[0]] + p[1..];
      assert p[..n + 1] == [p[0]] + p[1..][..n];
      forall k | 0 <= k < n + 1 ensures p[k] != 0x2F {
        if k > 0 {
          assert p[k] == p[1..][k - 1];
        }
      }
    }
  }

  /** The parts after the first one are those of what follows the first slash. */
  lemma {:induction false} LaterParts(p: bytes, n: nat)
    requires n < |p| && p[n] == SLASH && SLASH !in p[..n]
    ensures Split(p) == [p[..n]] + Split(p[n + 1..])
  {
    if n > 0 {
      assert p[0] == p[..n][0] && p[1..][..n - 1] == p[..n][1..] && p[1..][n..] == p[n + 1..];
      LaterParts(p[1..], n - 1);
      assert p[..n] == [p[0]] + p[1..][..n - 1];
    }
  }

  lemma {:induction false} NoSlash(p: bytes)
    requires SLASH !in p
    ensures Split(p) == [p]
  {
    if p != [] {
      NoSlash(p[1..]);
      assert p == [p[0]] + p[1..];
    }
  }

  /** Without a slash the directory is one component. */
  lemma DirectoryOne(s: Source, a: bytes)
    requires SLASH !in a
    ensures Directory(s, a) == Component.Named(s.digest, a)
  {
    NoSlash(a);
  }

  /** In front of a slash there is the component of the first part, behind it the directory of the rest. */
  lemma DirectoryMore(s: Source, a: bytes, b: bytes)
    requires SLASH !in a
    ensures Directory(s, a + [SLASH] + b) == Component.Named(s.digest, a) + [SLASH] + Directory(s, b)
  {
    var p := a + [SLASH] + b;
    assert p[..|a|] == a && p[|a| + 1..] == b;
    LaterParts(p, |a|);
    hide Split, Join, Component.Named;
    NamedCons(s, a, Split(b));
    JoinCons(Component.Named(s.digest, a), Named(s, Split(b)));
  }

  lemma NamedCons(s: Source, a: bytes, rest: seq<bytes>)
    ensures Named(s, [a] + rest) == [Component.Named(s.digest, a)] + Named(s, rest)
  {
    hide Component.Named;
  }

  /** Behind a slash the parts are those of the rest. */
  lemma PartsBehind(p: bytes, m: nat, i: nat, j: nat)
    requires 0 < m <= |p| && p[m - 1] == SLASH && i <= j <= |p| - m
    ensures Part(p[m..], i, j) <==> Part(p, m + i, m + j)
    ensures p[m..][i..j] == p[m + i..m + j]
  {
    var rest := p[m..];
    assert rest[i..j] == p[m + i..m + j];
    assert forall k :: 0 <= k < |rest| ==> rest[k] == p[m + k];
    if Part(rest, i, j) {
      forall k | m + i <= k < m + j ensures p[k] != 0x2F {
        assert rest[k - m] != 0x2F;
      }
    }
    if Part(p, m + i, m + j) {
      forall k | i <= k < j ensures rest[k] != 0x2F {
        assert p[m + k] != 0x2F;
      }
    }
  }

  lemma {:induction false} PartFound(p: bytes, i: nat, j: nat)
    requires Part(p, i, j)
    ensures p[i..j] in Split(p)
    decreases |p|
  {
    var n := |Split(p)[0]|;
    FirstPart(p);
    hide Split;
    if i == 0 {
      OneEnd(p, 0, j, n);
    } else {
      OneStart(p, i, j, n);
      LaterParts(p, n);
      PartsBehind(p, n + 1, i - n - 1, j - n - 1);
      PartFound(p[n + 1..], i - n - 1, j - n - 1);
    }
  }

  lemma {:induction false} PartOf(p: bytes, part: bytes) returns (i: nat, j: nat)
    requires part in Split(p)
    ensures Part(p, i, j) && p[i..j] == part
    decreases |p|
  {
    var n := |Split(p)[0]|;
    FirstPart(p);
    hide Split;
    if part == Split(p)[0] {
      i, j := 0, n;
    } else {
      FirstEnds(p, part);
      LaterParts(p, n);
      i, j := PartOf(p[n + 1..], part);
      PartsBehind(p, n + 1, i, j);
      i, j := i + n + 1, j + n + 1;
    }
  }

  lemma FirstEnds(p: bytes, part: bytes)
    requires part in Split(p) && part != Split(p)[0]
    ensures var n := |Split(p)[0]|; n < |p| && p[n] == SLASH && SLASH !in p[..n]
  {
    FirstPart(p);
  }

  lemma PartsAre(p: bytes, part: bytes)
    ensures part in Split(p) <==> HasPart(p, part)
  {
    if part in Split(p) {
      var i, j := PartOf(p, part);
    }
    forall i: nat, j: nat | Part(p, i, j) && p[i..j] == part ensures part in Split(p) {
      PartFound(p, i, j);
    }
  }

  /** The check of a destination accepts exactly these paths. */
  lemma SafeIsRelative(p: bytes)
    ensures SafePath(p) <==> Relative(p)
  {
    PartsAre(p, []);
    PartsAre(p, [0x2E]);
    PartsAre(p, [0x2E, 0x2E]);
    hide Split, HasPart;
    if Relative(p) {
      assert BACKSLASH !in p && COLON !in p && 0 !in p;
    }
  }
}
