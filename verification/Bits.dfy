/** Bitwise operations on integers, digit by digit, and what they do to single bits. */
module Bits {

  /** Exclusive or of the low `n` bits. */
  function XorBits(a: nat, b: nat, n: nat): nat {
    if n == 0 then 0 else (a + b) % 2 + 2 * XorBits(a / 2, b / 2, n - 1)
  }

  function Pow2(n: nat): (p: nat)
    ensures p > 0
  {
    if n == 0 then 1 else 2 * Pow2(n - 1)
  }

  lemma {:induction false} XorBound(a: nat, b: nat, n: nat)
    ensures XorBits(a, b, n) < Pow2(n)
  {
    if n > 0 { XorBound(a / 2, b / 2, n - 1); }
  }

  lemma {:induction false} XorTwice(a: nat, b: nat, n: nat)
    requires a < Pow2(n)
    ensures XorBits(XorBits(a, b, n), b, n) == a
  {
    if n > 0 {
      XorTwice(a / 2, b / 2, n - 1);
      var q := XorBits(a / 2, b / 2, n - 1);
      LowBit((a + b) % 2, q, b);
      Parity(a, b);
    }
  }

  lemma LowBit(r: nat, q: nat, b: nat)
    requires r < 2
    ensures (r + 2 * q) / 2 == q && (r + 2 * q + b) % 2 == (r + b) % 2
  {
  }

  lemma Parity(a: nat, b: nat)
    ensures ((a + b) % 2 + b) % 2 + 2 * (a / 2) == a
  {
  }

  function AndBits(a: nat, b: nat, n: nat): nat {
    if n == 0 then 0 else (if a % 2 == 1 && b % 2 == 1 then 1 else 0) + 2 * AndBits(a / 2, b / 2, n - 1)
  }

  function OrBits(a: nat, b: nat, n: nat): nat {
    if n == 0 then 0 else (if a % 2 == 1 || b % 2 == 1 then 1 else 0) + 2 * OrBits(a / 2, b / 2, n - 1)
  }

  lemma {:induction false} BitsBound(a: nat, b: nat, n: nat)
    ensures AndBits(a, b, n) < Pow2(n) && OrBits(a, b, n) < Pow2(n)
  {
    if n > 0 { BitsBound(a / 2, b / 2, n - 1); }
  }

  lemma {:induction false} Pow2Add(m: nat, n: nat)
    ensures Pow2(m + n) == Pow2(m) * Pow2(n)
  {
    if m > 0 { Pow2Add(m - 1, n); }
  }

  lemma Pow2Word()
    ensures Pow2(32) == 0x1_0000_0000
  {
    assert Pow2(4) == 16 && Pow2(8) == 256 by { assert Pow2(6) == 64; }
    Pow2Add(8, 8);
    Pow2Add(16, 16);
  }

  // ---------- Single bits ----------

  /** Bit `i`, counted from the lowest. */
  function Bit(x: nat, i: nat): nat { x / Pow2(i) % 2 }

  lemma MulAtLeast(k: nat, d: nat)
    requires k >= 1
    ensures k * d >= d
  {
    assert k * d == (k - 1) * d + d;
  }

  lemma SameQuotient(p: nat, s: nat, q: nat, r: nat, d: nat)
    requires p * d + s == q * d + r && s < d && r < d
    ensures p == q
  {
    if p < q {
      MulApart(p, q, d);
    } else if q < p {
      MulApart(q, p, d);
    }
  }

  lemma MulApart(p: nat, q: nat, d: nat)
    requires p < q
    ensures p * d + d <= q * d
  {
    MulAtLeast(q - p, d);
    assert q * d == p * d + (q - p) * d;
  }

  lemma Divides(n: nat, d: nat)
    requires d > 0
    ensures n / d * d + n % d == n && n % d < d
  {
  }

  /** A quotient is known by its remainder. */
  lemma QuotientIs(n: nat, d: nat, q: nat, r: nat)
    requires d > 0 && n == q * d + r && r < d
    ensures n / d == q && n % d == r
  {
    Divides(n, d);
    SameQuotient(n / d, n % d, q, r, d);
  }

  lemma HalfThenDivide(x: nat, d: nat)
    requires d > 0
    ensures x / (2 * d) == x / 2 / d
  {
    var q, r := x / 2 / d, x / 2 % d;
    Divides(x / 2, d);
    assert q * (2 * d) == 2 * (q * d);
    QuotientIs(x, 2 * d, q, 2 * r + x % 2);
  }

  lemma BitNext(x: nat, i: nat)
    ensures Bit(x, i + 1) == Bit(x / 2, i) && Bit(x, 0) == x % 2
  {
    HalfThenDivide(x, Pow2(i));
    assert Pow2(0) == 1;
  }

  lemma BitCons(r: nat, q: nat, i: nat)
    requires r < 2
    ensures Bit(r + 2 * q, 0) == r && (i > 0 ==> Bit(r + 2 * q, i) == Bit(q, i - 1))
  {
    BitNext(r + 2 * q, if i > 0 then i - 1 else 0);
    LowBit(r, q, 0);
  }

  lemma OddSum(a: nat, b: nat)
    ensures (a + b) % 2 == 1 <==> a % 2 != b % 2
  {
  }

  lemma {:induction false} XorBit(a: nat, b: nat, n: nat, i: nat)
    requires i < n
    ensures Bit(XorBits(a, b, n), i) == 1 <==> Bit(a, i) != Bit(b, i)
  {
    BitCons((a + b) % 2, XorBits(a / 2, b / 2, n - 1), i);
    if i > 0 {
      BitNext(a, i - 1);
      BitNext(b, i - 1);
      XorBit(a / 2, b / 2, n - 1, i - 1);
    } else {
      OddSum(a, b);
      BitNext(a, 0);
      BitNext(b, 0);
    }
  }

  lemma {:induction false} AndBit(a: nat, b: nat, n: nat, i: nat)
    requires i < n
    ensures Bit(AndBits(a, b, n), i) == 1 <==> Bit(a, i) == 1 && Bit(b, i) == 1
  {
    BitCons(if a % 2 == 1 && b % 2 == 1 then 1 else 0, AndBits(a / 2, b / 2, n - 1), i);
    if i > 0 {
      BitNext(a, i - 1);
      BitNext(b, i - 1);
      AndBit(a / 2, b / 2, n - 1, i - 1);
    } else {
      BitNext(a, 0);
      BitNext(b, 0);
    }
  }

  lemma {:induction false} OrBit(a: nat, b: nat, n: nat, i: nat)
    requires i < n
    ensures Bit(OrBits(a, b, n), i) == 1 <==> Bit(a, i) == 1 || Bit(b, i) == 1
  {
    BitCons(if a % 2 == 1 || b % 2 == 1 then 1 else 0, OrBits(a / 2, b / 2, n - 1), i);
    if i > 0 {
      BitNext(a, i - 1);
      BitNext(b, i - 1);
      OrBit(a / 2, b / 2, n - 1, i - 1);
    } else {
      BitNext(a, 0);
      BitNext(b, 0);
    }
  }

  /** The complement in `n` bits. */
  lemma {:induction false} NotBit(x: nat, n: nat, i: nat)
    requires i < n && x < Pow2(n)
    ensures Bit(Pow2(n) - 1 - x, i) == 1 - Bit(x, i)
  {
    var y := Pow2(n) - 1 - x;
    assert y == (1 - x % 2) + 2 * (Pow2(n - 1) - 1 - x / 2);
    BitCons(1 - x % 2, Pow2(n - 1) - 1 - x / 2, i);
    if i > 0 {
      BitNext(x, i - 1);
      NotBit(x / 2, n - 1, i - 1);
    } else {
      BitNext(x, 0);
    }
  }

  /** `hi` shifted left by `n` and the `n` bits of `lo` behind it. */
  lemma {:induction false} BitJoined(hi: nat, lo: nat, n: nat, j: nat)
    requires lo < Pow2(n)
    ensures Bit(hi * Pow2(n) + lo, j) == if j < n then Bit(lo, j) else Bit(hi, j - n)
  {
    if n == 0 {
      assert hi * Pow2(0) + lo == hi;
    } else {
      var x := hi * Pow2(n) + lo;
      assert x == lo % 2 + 2 * (hi * Pow2(n - 1) + lo / 2);
      BitCons(lo % 2, hi * Pow2(n - 1) + lo / 2, j);
      if j > 0 {
        BitNext(lo, j - 1);
        BitJoined(hi, lo / 2, n - 1, j - 1);
      } else {
        BitNext(lo, 0);
      }
    }
  }

  lemma MulLess(p: nat, q: nat, d: nat, x: nat)
    requires d > 0 && p * d <= x < q * d
    ensures p < q
  {
    if q <= p {
      MulMonotone(q, p, d);
    }
  }

  lemma MulMonotone(p: nat, q: nat, d: nat)
    requires p <= q
    ensures p * d <= q * d
  {
    assert q * d == p * d + (q - p) * d;
  }

  /** A number of `m + n` bits as its upper `n` and its lower `m`. */
  lemma Halves(x: nat, m: nat, n: nat) returns (hi: nat, lo: nat)
    requires x < Pow2(m + n)
    ensures x == hi * Pow2(m) + lo && lo < Pow2(m) && hi < Pow2(n) && x / Pow2(m) == hi
  {
    Divides(x, Pow2(m));
    hi, lo := HalvesOf(x, Pow2(m));
    Pow2Add(n, m);
    MulLess(hi, Pow2(n), Pow2(m), x);
  }

  lemma HalvesOf(x: nat, d: nat) returns (hi: nat, lo: nat)
    requires d > 0
    ensures x == hi * d + lo && lo < d && x / d == hi
  {
    Divides(x, d);
    hi, lo := x / d, x % d;
  }
}
