/** Fixed-width integers, byte strings and bitwise exclusive or, shared by every other module. */
module Bytes {
  type byte = x: int | 0 <= x < 0x100
  type u16 = x: int | 0 <= x < 0x1_0000
  type u32 = x: int | 0 <= x < 0x1_0000_0000
  type u64 = x: int | 0 <= x < 0x1_0000_0000_0000_0000
  type bytes = seq<byte>

  datatype Option<+T> = None | Some(value: T) {
    predicate IsFailure()
    {
      None?
    }

    function PropagateFailure<U>(): Option<U>
      requires None?
    {
      None
    }

    function Extract(): T
      requires Some?
    {
      value
    }
  }

  /** Exclusive or of the low `k` bits, least significant bit first. */
  function XorBits(a: nat, b: nat, k: nat): (r: nat)
  {
    if k == 0 then 0
    else (if a % 2 == b % 2 then 0 else 1) + 2 * XorBits(a / 2, b / 2, k - 1)
  }

  function Pow2(k: nat): (r: nat)
    ensures r > 0
  {
    if k == 0 then 1 else 2 * Pow2(k - 1)
  }

  lemma {:induction false} XorBitsBound(a: nat, b: nat, k: nat)
    ensures XorBits(a, b, k) < Pow2(k)
  {
    if k > 0 {
      XorBitsBound(a / 2, b / 2, k - 1);
    }
  }

  function Xor(a: byte, b: byte): (r: byte)
  {
    XorBitsBound(a, b, 8);
    assert Pow2(8) == 256 by {
      assert Pow2(4) == 16;
    }
    XorBits(a, b, 8)
  }

  /** The lowest bit and the remaining bits of an exclusive or. */
  lemma XorBitsStep(a: nat, b: nat, k: nat)
    requires k > 0
    ensures XorBits(a, b, k) % 2 == if a % 2 == b % 2 then 0 else 1
    ensures XorBits(a, b, k) / 2 == XorBits(a / 2, b / 2, k - 1)
  {
    var y := XorBits(a / 2, b / 2, k - 1);
    assert (2 * y) / 2 == y && (1 + 2 * y) / 2 == y;
  }

  lemma {:induction false} XorBitsCancel(a: nat, b: nat, k: nat)
    requires a < Pow2(k)
    ensures XorBits(XorBits(a, b, k), b, k) == a
  {
    if k > 0 {
      XorBitsCancel(a / 2, b / 2, k - 1);
      XorBitsStep(a, b, k);
    }
  }

  /** Applying the same mask byte twice gives back the original byte. */
  lemma XorCancel(a: byte, b: byte)
    ensures Xor(Xor(a, b), b) == a
  {
    assert Pow2(8) == 256 by {
      assert Pow2(4) == 16;
    }
    XorBitsCancel(a, b, 8);
  }

  lemma {:induction false} XorBitsBit(a: nat, b: nat, k: nat, i: nat)
    requires i < k
    ensures XorBits(a, b, k) / Pow2(i) % 2 == if a / Pow2(i) % 2 == b / Pow2(i) % 2 then 0 else 1
  {
    XorBitsStep(a, b, k);
    if i > 0 {
      XorBitsBit(a / 2, b / 2, k - 1, i - 1);
      HalfFirst(a, i);
      HalfFirst(b, i);
      HalfFirst(XorBits(a, b, k), i);
    }
  }

  lemma HalfFirst(n: nat, i: nat)
    requires i > 0
    ensures n / Pow2(i) == n / 2 / Pow2(i - 1)
  {
    var p := Pow2(i - 1);
    var q, r := n / 2 / p, n / 2 % p;
    assert n / 2 == p * q + r;
    assert n == 2 * (n / 2) + n % 2;
    assert n == (2 * p) * q + (2 * r + n % 2);
    QuotientIs(n, 2 * p, q, 2 * r + n % 2);
  }

  lemma QuotientIs(n: nat, d: nat, q: nat, r: nat)
    requires d > 0 && n == d * q + r && r < d
    ensures n / d == q
  {
    var x := n / d;
    assert n == d * x + n % d;
    assert d * (q - x) == n % d - r;
    Multiples(d, q - x);
  }

  lemma Multiples(d: int, k: int)
    requires d > 0
    ensures k >= 1 ==> d * k >= d
    ensures k <= -1 ==> d * k <= -d
  {
  }

  /** Exclusive or, bit by bit: a bit is set exactly when it is set in one of the two. */
  lemma XorBit(a: byte, b: byte, i: nat)
    requires i < 8
    ensures Xor(a, b) / Pow2(i) % 2 == if a / Pow2(i) % 2 == b / Pow2(i) % 2 then 0 else 1
  {
    XorBitsBit(a, b, 8, i);
  }

  lemma {:induction false} XorOnes(a: nat, k: nat)
    requires a < Pow2(k)
    ensures XorBits(a, Pow2(k) - 1, k) == Pow2(k) - 1 - a
  {
    if k > 0 {
      XorOnes(a / 2, k - 1);
      assert (Pow2(k) - 1) / 2 == Pow2(k - 1) - 1 && (Pow2(k) - 1) % 2 == 1;
    }
  }

  /** The complement of a byte. */
  lemma XorComplement(a: byte)
    ensures Xor(a, 0xFF) == 0xFF - a
  {
    assert Pow2(8) == 256 by {
      assert Pow2(4) == 16;
    }
    XorOnes(a, 8);
  }
}
