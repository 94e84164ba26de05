/** Facts about quotients and remainders, kept apart from the proofs that use them. */
module Arithmetic {

  function Min(a: int, b: int): int { if a < b then a else b }

  // ---------- Clock and calendar ----------

  /** Division is determined by its quotient and remainder, for the bases used here. */
  lemma DivIs(n: nat, base: nat, q: nat, r: nat)
    requires base == 4 || base == 60 || base == 64 || base == 100 || base == 3600
    requires n == q * base + r && r < base
    ensures n / base == q && n % base == r
  {
  }

  lemma ClockParts(e: nat)
    ensures var h, m, s := e % 86400 / 3600, e % 3600 / 60, e % 60;
      h < 24 && m < 60 && s < 60 && e == e / 86400 * 86400 + h * 3600 + m * 60 + s
  {
    var d, r := e / 86400, e % 86400;
    var h, q := r / 3600, r % 3600;
    var m, s := q / 60, q % 60;
    ClockNested(e, d, h, m, s);
  }

  lemma ClockNested(e: nat, d: nat, h: nat, m: nat, s: nat)
    requires e == d * 86400 + h * 3600 + m * 60 + s && m < 60 && s < 60
    ensures e % 3600 == m * 60 + s && e % 60 == s
  {
    DivIs(e, 3600, 24 * d + h, m * 60 + s);
    DivIs(e, 60, 1440 * d + 60 * h + m, s);
  }

  lemma CenturyYears(y: nat)
    requires 1 <= y
    ensures y / 4 - (y - 1) / 4 == if y % 4 == 0 then 1 else 0
    ensures y / 100 - (y - 1) / 100 == if y % 100 == 0 then 1 else 0
    ensures y / 400 - (y - 1) / 400 == if y % 400 == 0 then 1 else 0
  {
  }

  lemma CenturyIsFourth(y: nat)
    ensures y % 100 == 0 ==> y % 4 == 0
    ensures y % 400 == 0 ==> y % 100 == 0
  {
    if y % 100 == 0 {
      var k := y / 100;
      assert y == 100 * k;
      DivIs(y, 4, 25 * k, 0);
    }
    if y % 400 == 0 {
      var k := y / 400;
      assert y == 400 * k;
      DivIs(y, 100, 4 * k, 0);
    }
  }

  lemma EraQuotients(y: nat)
    ensures var era, yoe := y / 400, y % 400;
      y == 400 * era + yoe && y / 4 == 100 * era + yoe / 4 && y / 100 == 4 * era + yoe / 100
  {
    var era, yoe := y / 400, y % 400;
    assert y == 400 * era + yoe;
    DivIs(y, 4, 100 * era + yoe / 4, yoe % 4);
    DivIs(y, 100, 4 * era + yoe / 100, yoe % 100);
  }

  // ---------- Blocks of 64 ----------

  lemma FillsBlock(n: nat)
    ensures var z := (119 - n % 64) % 64; z < 64 && (n + 9 + z) % 64 == 0
  {
    var q, r := n / 64, n % 64;
    assert n == 64 * q + r;
    if r <= 55 {
      DivIs(119 - r, 64, 1, 55 - r);
      DivIs(n + 9 + (55 - r), 64, q + 1, 0);
    } else {
      DivIs(119 - r, 64, 0, 119 - r);
      DivIs(n + 9 + (119 - r), 64, q + 2, 0);
    }
  }

  /** A tail and its padding fill one block, or two when the tail leaves no room for the length. */
  lemma PaddedSize(n: nat, t: nat)
    requires (n + t) % 64 == 0 && 9 <= t < 73
    ensures n % 64 + t == if n % 64 >= 56 then 128 else 64
  {
    var q, p := n / 64, (n + t) / 64;
    assert n == 64 * q + n % 64 && n + t == 64 * p;
    assert n % 64 + t == 64 * (p - q);
  }

  lemma LeftOver(n: nat, m: nat)
    requires 64 * m <= n < 64 * m + 64
    ensures n % 64 == n - 64 * m
  {
    DivIs(n, 64, m, n - 64 * m);
  }

  // ---------- Digits ----------

  lemma TwoDigits(x: nat, y: nat, base: nat)
    requires y < base && (base == 4 || base == 16)
    ensures (x * base + y) / base == x && (x * base + y) % base == y
  {
  }

  lemma FourDigits(w: nat, x: nat, y: nat, z: nat)
    requires w < 64 && x < 64 && y < 64 && z < 64
    ensures var n := w * 0x4_0000 + x * 0x1000 + y * 0x40 + z;
      n / 0x4_0000 == w && n / 0x1000 % 64 == x && n / 0x40 % 64 == y && n % 64 == z
  {
    var n := w * 0x4_0000 + x * 0x1000 + y * 0x40 + z;
    assert n / 0x40 == (w * 64 + x) * 64 + y;
    assert n / 0x1000 == w * 64 + x;
  }
}
