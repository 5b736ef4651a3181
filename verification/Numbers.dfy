/** Big-endian and little-endian integers of any width, with both round trips. */
module Numbers {
  import opened Bytes

  function Pow256(k: nat): (r: nat)
    ensures r > 0
  {
    if k == 0 then 1 else 0x100 * Pow256(k - 1)
  }

  lemma Powers()
    ensures Pow256(1) == 0x100 && Pow256(2) == 0x1_0000 && Pow256(4) == 0x1_0000_0000
    ensures Pow256(8) == 0x1_0000_0000_0000_0000
  {
    assert Pow256(4) == 0x1_0000_0000;
    assert Pow256(6) == 0x1_0000_0000_0000;
  }

  function Le(b: bytes): nat
  {
    if b == [] then 0 else b[0] + 0x100 * Le(b[1..])
  }

  function ToLe(n: nat, k: nat): (r: bytes)
    ensures |r| == k
  {
    if k == 0 then [] else [n % 0x100] + ToLe(n / 0x100, k - 1)
  }

  function Be(b: bytes): nat
  {
    if b == [] then 0 else 0x100 * Be(b[..|b| - 1]) + b[|b| - 1]
  }

  function ToBe(n: nat, k: nat): (r: bytes)
    ensures |r| == k
  {
    if k == 0 then [] else ToBe(n / 0x100, k - 1) + [n % 0x100]
  }

  lemma {:induction false} LeRange(b: bytes)
    ensures Le(b) < Pow256(|b|)
  {
    if b != [] {
      LeRange(b[1..]);
    }
  }

  lemma {:induction false} BeRange(b: bytes)
    ensures Be(b) < Pow256(|b|)
  {
    if b != [] {
      BeRange(b[..|b| - 1]);
    }
  }

  lemma {:induction false} LeToLe(n: nat, k: nat)
    requires n < Pow256(k)
    ensures Le(ToLe(n, k)) == n
  {
    if k > 0 {
      LeToLe(n / 0x100, k - 1);
      assert ToLe(n, k)[1..] == ToLe(n / 0x100, k - 1);
    }
  }

  lemma {:induction false} ToLeLe(b: bytes)
    ensures ToLe(Le(b), |b|) == b
  {
    if b != [] {
      ToLeLe(b[1..]);
      var rest := Le(b[1..]);
      assert (b[0] + 0x100 * rest) % 0x100 == b[0] && (b[0] + 0x100 * rest) / 0x100 == rest;
    }
  }

  lemma {:induction false} BeToBe(n: nat, k: nat)
    requires n < Pow256(k)
    ensures Be(ToBe(n, k)) == n
  {
    if k > 0 {
      BeToBe(n / 0x100, k - 1);
      var b := ToBe(n, k);
      assert b[..|b| - 1] == ToBe(n / 0x100, k - 1);
    }
  }

  lemma {:induction false} ToBeBe(b: bytes)
    ensures ToBe(Be(b), |b|) == b
  {
    if b != [] {
      ToBeBe(b[..|b| - 1]);
      var rest, last := Be(b[..|b| - 1]), b[|b| - 1];
      assert (last + 0x100 * rest) % 0x100 == last && (last + 0x100 * rest) / 0x100 == rest;
      assert b == b[..|b| - 1] + [last];
    }
  }
}
