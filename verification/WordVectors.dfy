/** The words of Sha1Hash as bit vectors: its operators are those of a 32-bit machine. */
module WordVectors {
  import opened Bits
  import opened Sha1Hash

  // The machine's operators, by name: the laws between them below are single equations, and
  // everything else follows from those laws.

  function Zero(v: bv32): bv32 { v << 1 }
  function One(v: bv32): bv32 { (v << 1) | 1 }
  function Half(v: bv32): bv32 { v >> 1 }
  function Inc(v: bv32): bv32 { v + 1 }
  function AndV(u: bv32, v: bv32): bv32 { u & v }
  function OrV(u: bv32, v: bv32): bv32 { u | v }
  function XorV(u: bv32, v: bv32): bv32 { u ^ v }
  function NotV(v: bv32): bv32 { !v }
  function AddV(u: bv32, v: bv32): bv32 { u + v }

  function ShlV(v: bv32, n: nat): bv32 { if n == 0 then v else Zero(ShlV(v, n - 1)) }
  function ShrV(v: bv32, n: nat): bv32 { if n == 0 then v else Half(ShrV(v, n - 1)) }

  function Cons(v: bv32, odd: bool): bv32 { if odd then One(v) else Zero(v) }

  /** The bit vector with the bits of `n`. */
  function Bv(n: nat): bv32 { if n == 0 then 0 else Cons(Bv(n / 2), n % 2 == 1) }

  lemma ZeroIs()
    ensures Zero(0) == 0
  {
  }

  lemma BvCons(q: nat, odd: bool)
    ensures Bv(2 * q + (if odd then 1 else 0)) == Cons(Bv(q), odd)
  {
    var n := 2 * q + (if odd then 1 else 0);
    assert n / 2 == q && (n % 2 == 1) == odd;
    ZeroIs();
  }

  lemma BvHalf(x: nat)
    ensures Bv(x) == Cons(Bv(x / 2), x % 2 == 1)
  {
    ZeroIs();
  }

  // ---------- And, or, exclusive or ----------

  lemma And11(u: bv32, v: bv32)
    ensures AndV(One(u), One(v)) == One(AndV(u, v))
  {
  }

  lemma And10(u: bv32, v: bv32)
    ensures AndV(One(u), Zero(v)) == Zero(AndV(u, v))
  {
  }

  lemma And01(u: bv32, v: bv32)
    ensures AndV(Zero(u), One(v)) == Zero(AndV(u, v))
  {
  }

  lemma And00(u: bv32, v: bv32)
    ensures AndV(Zero(u), Zero(v)) == Zero(AndV(u, v))
  {
  }

  lemma ConsAnd(u: bv32, v: bv32, p: bool, q: bool)
    ensures AndV(Cons(u, p), Cons(v, q)) == Cons(AndV(u, v), p && q)
  {
    if p {
      if q { And11(u, v); } else { And10(u, v); }
    } else {
      if q { And01(u, v); } else { And00(u, v); }
    }
  }

  lemma NoAnd()
    ensures AndV(0, 0) == 0
  {
  }

  lemma {:induction false} BvAnd(x: nat, y: nat, n: nat)
    requires x < Pow2(n) && y < Pow2(n)
    ensures Bv(AndBits(x, y, n)) == AndV(Bv(x), Bv(y))
  {
    if n > 0 {
      BvAnd(x / 2, y / 2, n - 1);
      BvCons(AndBits(x / 2, y / 2, n - 1), x % 2 == 1 && y % 2 == 1);
      BvHalf(x);
      BvHalf(y);
      ConsAnd(Bv(x / 2), Bv(y / 2), x % 2 == 1, y % 2 == 1);
    } else {
      NoAnd();
    }
  }

  lemma Or11(u: bv32, v: bv32)
    ensures OrV(One(u), One(v)) == One(OrV(u, v))
  {
  }

  lemma Or10(u: bv32, v: bv32)
    ensures OrV(One(u), Zero(v)) == One(OrV(u, v))
  {
  }

  lemma Or01(u: bv32, v: bv32)
    ensures OrV(Zero(u), One(v)) == One(OrV(u, v))
  {
  }

  lemma Or00(u: bv32, v: bv32)
    ensures OrV(Zero(u), Zero(v)) == Zero(OrV(u, v))
  {
  }

  lemma ConsOr(u: bv32, v: bv32, p: bool, q: bool)
    ensures OrV(Cons(u, p), Cons(v, q)) == Cons(OrV(u, v), p || q)
  {
    if p {
      if q { Or11(u, v); } else { Or10(u, v); }
    } else {
      if q { Or01(u, v); } else { Or00(u, v); }
    }
  }

  lemma NoOr()
    ensures OrV(0, 0) == 0
  {
  }

  lemma {:induction false} BvOr(x: nat, y: nat, n: nat)
    requires x < Pow2(n) && y < Pow2(n)
    ensures Bv(OrBits(x, y, n)) == OrV(Bv(x), Bv(y))
  {
    if n > 0 {
      BvOr(x / 2, y / 2, n - 1);
      BvCons(OrBits(x / 2, y / 2, n - 1), x % 2 == 1 || y % 2 == 1);
      BvHalf(x);
      BvHalf(y);
      ConsOr(Bv(x / 2), Bv(y / 2), x % 2 == 1, y % 2 == 1);
    } else {
      NoOr();
    }
  }

  lemma Xor11(u: bv32, v: bv32)
    ensures XorV(One(u), One(v)) == Zero(XorV(u, v))
  {
  }

  lemma Xor10(u: bv32, v: bv32)
    ensures XorV(One(u), Zero(v)) == One(XorV(u, v))
  {
  }

  lemma Xor01(u: bv32, v: bv32)
    ensures XorV(Zero(u), One(v)) == One(XorV(u, v))
  {
  }

  lemma Xor00(u: bv32, v: bv32)
    ensures XorV(Zero(u), Zero(v)) == Zero(XorV(u, v))
  {
  }

  lemma ConsXor(u: bv32, v: bv32, p: bool, q: bool)
    ensures XorV(Cons(u, p), Cons(v, q)) == Cons(XorV(u, v), p != q)
  {
    if p {
      if q { Xor11(u, v); } else { Xor10(u, v); }
    } else {
      if q { Xor01(u, v); } else { Xor00(u, v); }
    }
  }

  lemma NoXor()
    ensures XorV(0, 0) == 0
  {
  }

  lemma {:induction false} BvXor(x: nat, y: nat, n: nat)
    requires x < Pow2(n) && y < Pow2(n)
    ensures Bv(XorBits(x, y, n)) == XorV(Bv(x), Bv(y))
  {
    if n > 0 {
      BvXor(x / 2, y / 2, n - 1);
      BvCons(XorBits(x / 2, y / 2, n - 1), (x % 2 == 1) != (y % 2 == 1));
      OddSum(x, y);
      BvHalf(x);
      BvHalf(y);
      ConsXor(Bv(x / 2), Bv(y / 2), x % 2 == 1, y % 2 == 1);
    } else {
      NoXor();
    }
  }

  // ---------- Sums ----------

  lemma ConsInc(v: bv32)
    ensures Inc(Zero(v)) == One(v) && Inc(One(v)) == Zero(Inc(v))
  {
  }

  lemma {:induction false} BvInc(n: nat)
    ensures Bv(n + 1) == Inc(Bv(n))
  {
    BvHalf(n);
    BvHalf(n + 1);
    ConsInc(Bv(n / 2));
    if n % 2 == 1 {
      BvInc(n / 2);
    }
  }

  lemma AddInc(u: bv32, v: bv32)
    ensures AddV(u, Inc(v)) == Inc(AddV(u, v)) && AddV(u, 0) == u
  {
  }

  lemma {:induction false} BvSum(m: nat, n: nat)
    ensures Bv(m + n) == AddV(Bv(m), Bv(n))
  {
    if n > 0 {
      BvSum(m, n - 1);
      BvInc(m + n - 1);
      BvInc(n - 1);
      AddInc(Bv(m), Bv(n - 1));
    } else {
      AddInc(Bv(m), 0);
    }
  }

  // ---------- Shifts ----------

  lemma {:induction false} BvShl(x: nat, n: nat, p: nat)
    requires p == x * Pow2(n)
    ensures Bv(p) == ShlV(Bv(x), n)
  {
    if n > 0 {
      var q := Product(x, Pow2(n - 1));
      assert p == 2 * q;
      BvShl(x, n - 1, q);
      BvCons(q, false);
    } else {
      assert Pow2(0) == 1;
    }
  }

  lemma {:induction false} ShlAdd(v: bv32, m: nat, n: nat)
    ensures ShlV(v, m + n) == ShlV(ShlV(v, m), n)
  {
    if n > 0 {
      ShlAdd(v, m, n - 1);
    }
  }

  lemma {:induction false} ShrAdd(v: bv32, m: nat, n: nat)
    ensures ShrV(v, m + n) == ShrV(ShrV(v, m), n)
  {
    if n > 0 {
      ShrAdd(v, m, n - 1);
    }
  }

  function Shl5(v: bv32): bv32 { v << 5 }
  function Shl30(v: bv32): bv32 { v << 30 }
  function Shr2(v: bv32): bv32 { v >> 2 }
  function Shr5(v: bv32): bv32 { v >> 5 }
  function Shr27(v: bv32): bv32 { v >> 27 }
  function Shr31(v: bv32): bv32 { v >> 31 }

  lemma FiveZeros(v: bv32)
    ensures Zero(Zero(Zero(Zero(Zero(v))))) == Shl5(v)
  {
  }

  lemma FiveHalves(v: bv32)
    ensures Half(Half(Half(Half(Half(v))))) == Shr5(v)
  {
  }

  lemma TwoHalves(v: bv32)
    ensures Half(Half(v)) == Shr2(v)
  {
  }

  lemma SixFives(v: bv32)
    ensures Shl5(Shl5(Shl5(Shl5(Shl5(Shl5(v)))))) == Shl30(v)
  {
  }

  lemma FiveFives(v: bv32)
    ensures Shr2(Shr5(Shr5(Shr5(Shr5(Shr5(v)))))) == Shr27(v)
  {
  }

  lemma AllButOne(v: bv32)
    ensures Half(Half(Half(Half(Shr27(v))))) == Shr31(v)
  {
  }

  lemma ShlFive(v: bv32)
    ensures ShlV(v, 5) == Shl5(v)
  {
    assert ShlV(v, 2) == Zero(Zero(ShlV(v, 0)));
    assert ShlV(v, 4) == Zero(Zero(ShlV(v, 2)));
    FiveZeros(v);
  }

  lemma ShlThirty(v: bv32)
    ensures ShlV(v, 30) == Shl30(v)
  {
    var v1 := Shl5(v);
    var v2 := Shl5(v1);
    var v3 := Shl5(v2);
    var v4 := Shl5(v3);
    ShlFive(v);
    ShlFive(v1);
    ShlFive(v2);
    ShlFive(v3);
    ShlFive(v4);
    ShlFive(Shl5(v4));
    ShlAdd(v, 5, 25);
    ShlAdd(v1, 5, 20);
    ShlAdd(v2, 5, 15);
    ShlAdd(v3, 5, 10);
    ShlAdd(v4, 5, 5);
    SixFives(v);
  }

  lemma ShrTwo(v: bv32)
    ensures ShrV(v, 2) == Shr2(v)
  {
    assert ShrV(v, 2) == Half(Half(ShrV(v, 0)));
    TwoHalves(v);
  }

  lemma ShrFive(v: bv32)
    ensures ShrV(v, 5) == Shr5(v)
  {
    assert ShrV(v, 2) == Half(Half(ShrV(v, 0)));
    assert ShrV(v, 4) == Half(Half(ShrV(v, 2)));
    FiveHalves(v);
  }

  lemma ShrTwentySeven(v: bv32)
    ensures ShrV(v, 27) == Shr27(v)
  {
    var v1 := Shr5(v);
    var v2 := Shr5(v1);
    var v3 := Shr5(v2);
    var v4 := Shr5(v3);
    ShrFive(v);
    ShrFive(v1);
    ShrFive(v2);
    ShrFive(v3);
    ShrFive(v4);
    ShrAdd(v, 5, 22);
    ShrAdd(v1, 5, 17);
    ShrAdd(v2, 5, 12);
    ShrAdd(v3, 5, 7);
    ShrAdd(v4, 5, 2);
    ShrTwo(Shr5(v4));
    FiveFives(v);
  }

  lemma ShrThirtyOne(v: bv32)
    ensures ShrV(v, 31) == Shr31(v)
  {
    ShrTwentySeven(v);
    var u := Shr27(v);
    ShrAdd(v, 27, 4);
    assert ShrV(u, 2) == Half(Half(ShrV(u, 0)));
    assert ShrV(u, 4) == Half(Half(ShrV(u, 2)));
    AllButOne(v);
  }

  lemma NoHalf()
    ensures Half(0) == 0
  {
  }

  lemma {:induction false} ShrZero(n: nat)
    ensures ShrV(0, n) == 0
  {
    if n > 0 {
      ShrZero(n - 1);
      NoHalf();
    }
  }

  lemma HalfOfOne(v: bv32)
    requires Shr31(v) == 0
    ensures Half(One(v)) == v
  {
  }

  lemma HalfOfZero(v: bv32)
    requires Shr31(v) == 0
    ensures Half(Zero(v)) == v
  {
  }

  /** The bits of a number below 2^n are its lowest `n`. */
  lemma {:induction false} BvFits(x: nat, n: nat)
    requires n <= 31 && x < Pow2(n)
    ensures ShrV(Bv(x), n) == 0 && ShrV(Bv(x), 31) == 0
  {
    if n > 0 {
      BvFits(x / 2, n - 1);
      BvHalf(x);
      HalfOfCons(Bv(x / 2), x % 2 == 1);
      ShrFirst(Bv(x), n);
      ShrAdd(Bv(x), n, 31 - n);
      ShrZero(31 - n);
    } else {
      ShrZero(31);
    }
  }

  lemma HalfOfCons(v: bv32, odd: bool)
    requires ShrV(v, 31) == 0
    ensures Half(Cons(v, odd)) == v
  {
    ShrThirtyOne(v);
    HalfOfOne(v);
    HalfOfZero(v);
  }

  lemma BvHalved(x: nat)
    requires x < 0x1_0000_0000
    ensures Bv(x / 2) == Half(Bv(x))
  {
    Pow2Word();
    BvFits(x / 2, 31);
    BvHalf(x);
    HalfOfCons(Bv(x / 2), x % 2 == 1);
  }

  lemma {:induction false} BvShr(x: nat, n: nat, q: nat)
    requires x < 0x1_0000_0000 && q == x / Pow2(n)
    ensures Bv(q) == ShrV(Bv(x), n)
  {
    if n > 0 {
      HalfThenDivide(x, Pow2(n - 1));
      BvShr(x / 2, n - 1, q);
      BvHalved(x);
      ShrFirst(Bv(x), n);
    } else {
      assert Pow2(0) == 1;
    }
  }

  lemma ShrFirst(v: bv32, n: nat)
    requires n > 0
    ensures ShrV(v, n) == ShrV(Half(v), n - 1)
  {
    ShrAdd(v, 1, n - 1);
    assert ShrV(v, 1) == Half(ShrV(v, 0));
  }

  lemma EvenIsNotOdd(u: bv32, v: bv32)
    ensures Zero(u) != One(v)
  {
  }

  /** No two words have the same bits. */
  lemma {:induction false} BvInjective(x: nat, y: nat)
    requires x < 0x1_0000_0000 && y < 0x1_0000_0000 && Bv(x) == Bv(y)
    ensures x == y
  {
    BvHalf(x);
    BvHalf(y);
    EvenIsNotOdd(Bv(x / 2), Bv(y / 2));
    EvenIsNotOdd(Bv(y / 2), Bv(x / 2));
    BvHalved(x);
    BvHalved(y);
    if x > 0 && y > 0 {
      BvInjective(x / 2, y / 2);
    } else if x + y > 0 {
      BvInjective(x / 2, y / 2);
    }
  }

  // ---------- The operators ----------

  lemma Overflow(v: bv32)
    ensures Zero(Zero(Shl30(v))) == 0
  {
  }

  lemma ZeroAdd(v: bv32)
    ensures AddV(0, v) == v
  {
  }

  lemma BvMod(x: nat)
    ensures Bv(x % 0x1_0000_0000) == Bv(x)
  {
    var q, r := x / 0x1_0000_0000, x % 0x1_0000_0000;
    Pow2Word();
    BvShl(q, 32, q * Pow2(32));
    ShlThirty(Bv(q));
    Overflow(Bv(q));
    BvSum(q * Pow2(32), r);
    ZeroAdd(Bv(r));
  }

  lemma BvSumMod(m: nat, n: nat, s: nat, r: nat)
    requires s == m + n && r == s % 0x1_0000_0000
    ensures Bv(r) == AddV(Bv(m), Bv(n))
  {
    BvMod(s);
    BvSum(m, n);
  }

  lemma BvAdd(x: word, y: word)
    ensures Bv(Add(x, y)) == AddV(Bv(x), Bv(y))
  {
    BvSumMod(x, y, x as int + y as int, Add(x, y));
  }

  lemma BvRotl(x: word, n: nat, r: word)
    requires 0 < n < 32 && r == Rotl(x, n)
    ensures Bv(r) == AddV(ShlV(Bv(x), n), ShrV(Bv(x), 32 - n))
  {
    var up, down := ShiftParts(x, n, r);
    BvShifted(x, n, up, down, r);
  }

  lemma ShiftParts(x: word, n: nat, r: word) returns (up: nat, down: nat)
    requires 0 < n < 32 && r == Rotl(x, n)
    ensures up == x as int * Pow2(n) && down == x / Pow2(32 - n) && r == (up + down) % 0x1_0000_0000
  {
    up := Product(x, Pow2(n));
    down := Quotient(x, Pow2(32 - n));
  }

  lemma Product(x: nat, d: nat) returns (p: nat)
    ensures p == x * d
  {
    p := x * d;
  }

  lemma Quotient(x: nat, d: nat) returns (q: nat)
    requires d > 0
    ensures q == x / d
  {
    q := x / d;
  }

  lemma BvShifted(x: word, n: nat, up: nat, down: nat, r: nat)
    requires 0 < n < 32 && up == x as int * Pow2(n) && down == x / Pow2(32 - n) && r == (up + down) % 0x1_0000_0000
    ensures Bv(r) == AddV(ShlV(Bv(x), n), ShrV(Bv(x), 32 - n))
  {
    BvShl(x, n, up);
    BvShr(x, 32 - n, down);
    BvSumMod(up, down, up + down, r);
  }

  lemma Complement(v: bv32, w: bv32)
    ensures Inc(AddV(v, w)) == 0 ==> w == NotV(v)
  {
  }

  lemma BvNot(x: word)
    ensures Bv(Not(x)) == NotV(Bv(x))
  {
    BvSum(x, Not(x));
    BvInc(0xffff_ffff);
    BvMod(0x1_0000_0000);
    Complement(Bv(x), Bv(Not(x)));
  }

  function Rot1(v: bv32): bv32 { AddV(Zero(v), Shr31(v)) }
  function Rot5(v: bv32): bv32 { AddV(Shl5(v), Shr27(v)) }
  function Rot30(v: bv32): bv32 { AddV(Shl30(v), Shr2(v)) }

  lemma BvRot1(x: word, r: word)
    requires r == Rotl(x, 1)
    ensures Bv(r) == Rot1(Bv(x))
  {
    BvRotl(x, 1, r);
    ShrThirtyOne(Bv(x));
  }

  lemma BvRot5(x: word, r: word)
    requires r == Rotl(x, 5)
    ensures Bv(r) == Rot5(Bv(x))
  {
    BvRotl(x, 5, r);
    ShlFive(Bv(x));
    ShrTwentySeven(Bv(x));
  }

  lemma BvRot30(x: word, r: word)
    requires r == Rotl(x, 30)
    ensures Bv(r) == Rot30(Bv(x))
  {
    BvRotl(x, 30, r);
    ShlThirty(Bv(x));
    ShrTwo(Bv(x));
  }

  lemma BvOps(x: word, y: word)
    ensures Bv(And(x, y)) == AndV(Bv(x), Bv(y))
    ensures Bv(Or(x, y)) == OrV(Bv(x), Bv(y))
    ensures Bv(Xor32(x, y)) == XorV(Bv(x), Bv(y))
  {
    Pow2Word();
    BvAnd(x, y, 32);
    BvOr(x, y, 32);
    BvXor(x, y, 32);
  }

  lemma BvXor32(x: word, y: word, r: word)
    requires r == Xor32(x, y)
    ensures Bv(r) == XorV(Bv(x), Bv(y))
  {
    Pow2Word();
    BvXor(x, y, 32);
  }

  // ---------- Rounds ----------

  function MixV(t: nat, b: bv32, c: bv32, d: bv32): bv32 {
    if t < 20 then OrV(AndV(b, c), AndV(NotV(b), d))
    else if t < 40 then XorV(XorV(b, c), d)
    else if t < 60 then OrV(OrV(AndV(b, c), AndV(b, d)), AndV(c, d))
    else XorV(XorV(b, c), d)
  }

  lemma BvMix(t: nat, b: word, c: word, d: word)
    ensures Bv(Mix(t, b, c, d)) == MixV(t, Bv(b), Bv(c), Bv(d))
  {
    if t < 20 {
      BvSelect(b, c, d);
    } else if 40 <= t < 60 {
      BvMajority(b, c, d);
    } else {
      BvOps(b, c);
      BvOps(Xor32(b, c), d);
    }
  }

  lemma BvSelect(b: word, c: word, d: word)
    ensures Bv(Or(And(b, c), And(Not(b), d))) == OrV(AndV(Bv(b), Bv(c)), AndV(NotV(Bv(b)), Bv(d)))
  {
    var x, n := And(b, c), Not(b);
    var y := And(n, d);
    BvOps(b, c);
    BvNot(b);
    BvOps(n, d);
    BvOps(x, y);
  }

  lemma BvMajority(b: word, c: word, d: word)
    ensures Bv(Or(Or(And(b, c), And(b, d)), And(c, d)))
      == OrV(OrV(AndV(Bv(b), Bv(c)), AndV(Bv(b), Bv(d))), AndV(Bv(c), Bv(d)))
  {
    var x, y, z := And(b, c), And(b, d), And(c, d);
    var u := Or(x, y);
    BvOps(b, c);
    BvOps(b, d);
    BvOps(c, d);
    BvOps(x, y);
    BvOps(u, z);
  }

  function ConstantV(t: nat): bv32 {
    if t < 20 then 0x5A827999 else if t < 40 then 0x6ED9EBA1 else if t < 60 then 0x8F1BBCDC else 0xCA62C1D6
  }

  // ---------- Literals ----------

  function Digit(d: nat): bv32 {
    if d < 4 then (if d < 2 then (if d == 0 then 0 else 1) else if d == 2 then 2 else 3)
    else if d < 8 then (if d < 6 then (if d == 4 then 4 else 5) else if d == 6 then 6 else 7)
    else if d < 12 then (if d < 10 then (if d == 8 then 8 else 9) else if d == 10 then 10 else 11)
    else if d < 14 then (if d == 12 then 12 else 13) else if d == 14 then 14 else 15
  }

  lemma DigitNext(d: nat)
    requires d < 15
    ensures Digit(d + 1) == Inc(Digit(d))
  {
    if d < 8 {
      assert d == 0 || d == 1 || d == 2 || d == 3 || d == 4 || d == 5 || d == 6 || d == 7;
    } else {
      assert d == 8 || d == 9 || d == 10 || d == 11 || d == 12 || d == 13 || d == 14;
    }
  }

  lemma {:induction false} BvDigit(d: nat)
    requires d < 16
    ensures Bv(d) == Digit(d)
  {
    if d > 0 {
      BvDigit(d - 1);
      DigitNext(d - 1);
      BvInc(d - 1);
    }
  }

  function Shl4(v: bv32): bv32 { v << 4 }
  function Shl8(v: bv32): bv32 { v << 8 }

  lemma FourZeros(v: bv32)
    ensures Zero(Zero(Zero(Zero(v)))) == Shl4(v)
  {
  }

  lemma TwoFours(v: bv32)
    ensures Shl4(Shl4(v)) == Shl8(v)
  {
  }

  lemma BvNibbles(q: nat, d: nat, b: nat)
    requires q < 16 && d < 16 && b == 16 * q + d
    ensures Bv(b) == AddV(Shl4(Digit(q)), Digit(d))
  {
    var p := 16 * q;
    BvTimes16(q, p);
    BvSum(p, d);
    BvDigit(q);
    BvDigit(d);
  }

  function ByteV(b: nat): bv32
    requires b < 256
  {
    AddV(Shl4(Digit(b / 16)), Digit(b % 16))
  }

  lemma BvByte(b: nat)
    requires b < 256
    ensures Bv(b) == ByteV(b)
  {
    BvNibbles(b / 16, b % 16, b);
  }

  function WordV(b0: nat, b1: nat, b2: nat, b3: nat): bv32
    requires b0 < 256 && b1 < 256 && b2 < 256 && b3 < 256
  {
    AddV(Shl8(AddV(Shl8(AddV(Shl8(ByteV(b0)), ByteV(b1))), ByteV(b2))), ByteV(b3))
  }

  lemma ShlFour(v: bv32)
    ensures ShlV(v, 4) == Shl4(v)
  {
    assert ShlV(v, 2) == Zero(Zero(ShlV(v, 0)));
    assert ShlV(v, 4) == Zero(Zero(ShlV(v, 2)));
    FourZeros(v);
  }

  lemma BvTimes16(q: nat, p: nat)
    requires p == 16 * q
    ensures Bv(p) == Shl4(Bv(q))
  {
    assert Pow2(4) == 16 by { assert Pow2(2) == 4; }
    BvShl(q, 4, p);
    ShlFour(Bv(q));
  }

  lemma BvTimes(q: nat, p: nat)
    requires p == 256 * q
    ensures Bv(p) == Shl8(Bv(q))
  {
    BvTimes16(q, 16 * q);
    BvTimes16(16 * q, p);
    TwoFours(Bv(q));
  }

  lemma BvAppend(q: nat, b: nat, s: nat)
    requires s == 256 * q + b && b < 256
    ensures Bv(s) == AddV(Shl8(Bv(q)), ByteV(b))
  {
    var p := 256 * q;
    BvTimes(q, p);
    BvSum(p, b);
    BvByte(b);
  }

  lemma BvWord(b0: nat, b1: nat, b2: nat, b3: nat, s: nat)
    requires b0 < 256 && b1 < 256 && b2 < 256 && b3 < 256
    requires s == b0 * 0x100_0000 + b1 * 0x1_0000 + b2 * 0x100 + b3
    ensures Bv(s) == WordV(b0, b1, b2, b3)
  {
    BvByte(b0);
    var s1 := 256 * b0 + b1;
    var s2 := 256 * s1 + b2;
    BvAppend(b0, b1, s1);
    BvAppend(s1, b2, s2);
    BvAppend(s2, b3, s);
  }

  lemma BvConstant(t: nat, k: nat)
    requires k == RoundConstant(t)
    ensures Bv(k) == ConstantV(t)
  {
    if t < 20 {
      RootOfTwo();
      BvWord(0x5A, 0x82, 0x79, 0x99, k);
    } else if t < 40 {
      RootOfThree();
      BvWord(0x6E, 0xD9, 0xEB, 0xA1, k);
    } else if t < 60 {
      RootOfFive();
      BvWord(0x8F, 0x1B, 0xBC, 0xDC, k);
    } else {
      RootOfTen();
      BvWord(0xCA, 0x62, 0xC1, 0xD6, k);
    }
  }

  lemma RootOfTwo()
    ensures WordV(0x5A, 0x82, 0x79, 0x99) == 0x5A827999
  {
  }

  lemma RootOfThree()
    ensures WordV(0x6E, 0xD9, 0xEB, 0xA1) == 0x6ED9EBA1
  {
  }

  lemma RootOfFive()
    ensures WordV(0x8F, 0x1B, 0xBC, 0xDC) == 0x8F1BBCDC
  {
  }

  lemma RootOfTen()
    ensures WordV(0xCA, 0x62, 0xC1, 0xD6) == 0xCA62C1D6
  {
  }
}
