/** Strings as the C++ sources use them: substring search, lexicographic order and decimal digits. */
module Text {

  datatype Option<+T> = None | Some(value: T)

  // ---------- Substring search ----------

  /** `p` occurs in `s` at index `i`. */
  predicate At<T(==)>(s: seq<T>, p: seq<T>, i: int) {
    0 <= i && i + |p| <= |s| && s[i..i + |p|] == p
  }

  const NPOS := -1

  /** First occurrence of `p` at or after `from`, or NPOS (std::string::find). */
  function Find<T(==)>(s: seq<T>, p: seq<T>, from: nat): (r: int)
    ensures r == NPOS ==> forall i :: from <= i ==> !At(s, p, i)
    ensures r != NPOS ==> from <= r && At(s, p, r) && forall i :: from <= i < r ==> !At(s, p, i)
    decreases |s| - from
  {
    if from + |p| > |s| then NPOS
    else if At(s, p, from) then from
    else Find(s, p, from + 1)
  }

  /** Last occurrence of `p` at or before `from`, or NPOS (std::string::rfind). */
  function FindLast<T(==)>(s: seq<T>, p: seq<T>, from: nat): (r: int)
    ensures r == NPOS ==> forall i :: i <= from ==> !At(s, p, i)
    ensures r != NPOS ==> r <= from && At(s, p, r) && forall i :: r < i <= from ==> !At(s, p, i)
  {
    if At(s, p, from) then from
    else if from == 0 then NPOS
    else FindLast(s, p, from - 1)
  }

  ghost predicate Contains<T>(s: seq<T>, p: seq<T>) {
    exists i :: At(s, p, i)
  }

  /** The first occurrence is determined by what it says: an occurrence with none before it. */
  lemma FindIs<T>(s: seq<T>, p: seq<T>, from: nat, k: int)
    requires from <= k && At(s, p, k)
    requires forall i :: from <= i < k ==> !At(s, p, i)
    ensures Find(s, p, from) == k
  {
  }

  /** An occurrence is a matter of characters. */
  lemma AtChars<T>(s: seq<T>, p: seq<T>, i: int)
    ensures At(s, p, i) <==> 0 <= i && i + |p| <= |s| && forall k :: 0 <= k < |p| ==> s[i + k] == p[k]
  {
    if 0 <= i && i + |p| <= |s| {
      var w := s[i..i + |p|];
      assert forall k :: 0 <= k < |p| ==> w[k] == s[i + k];
    }
  }

  /** Occurrences in a suffix. */
  lemma AtShift<T>(s: seq<T>, off: nat, p: seq<T>, i: nat)
    requires off <= |s|
    ensures At(s, p, off + i) <==> At(s[off..], p, i)
  {
    if off + i + |p| <= |s| {
      assert s[off..][i..i + |p|] == s[off + i..off + i + |p|];
    }
  }

  // ---------- Lexicographic order (std::string::operator<) ----------

  predicate Less(a: string, b: string) {
    b != [] && (a == [] || a[0] < b[0] || (a[0] == b[0] && Less(a[1..], b[1..])))
  }

  lemma {:induction false} LessTotal(a: string, b: string)
    ensures Less(a, b) || a == b || Less(b, a)
    ensures !(Less(a, b) && Less(b, a))
  {
    if a != [] && b != [] {
      LessTotal(a[1..], b[1..]);
      assert a == [a[0]] + a[1..] && b == [b[0]] + b[1..];
    }
  }

  lemma {:induction false} LessTransitive(a: string, b: string, c: string)
    requires Less(a, b) && Less(b, c)
    ensures Less(a, c)
  {
    if a != [] && a[0] == b[0] && b[0] == c[0] {
      LessTransitive(a[1..], b[1..], c[1..]);
    }
  }

  /** Equal-length heads decide first. */
  lemma {:induction false} LessConcat(a: string, b: string, x: string, y: string)
    requires |a| == |b|
    ensures Less(a + x, b + y) <==> Less(a, b) || (a == b && Less(x, y))
  {
    if a == [] {
      assert a + x == x && b + y == y;
    } else {
      LessConcat(a[1..], b[1..], x, y);
      assert (a + x)[1..] == a[1..] + x && (b + y)[1..] == b[1..] + y;
      assert a == [a[0]] + a[1..] && b == [b[0]] + b[1..];
    }
  }

  // ---------- Decimal digits ----------

  predicate IsDigit(c: char) { '0' <= c <= '9' }

  predicate AllDigits(s: string) { forall i :: 0 <= i < |s| ==> IsDigit(s[i]) }

  function DigitVal(c: char): (r: nat)
    requires IsDigit(c)
    ensures r < 10
  {
    c as int - '0' as int
  }

  function DigitChar(d: nat): (c: char)
    requires d < 10
    ensures IsDigit(c) && DigitVal(c) == d
  {
    (d + '0' as int) as char
  }

  /** The number a digit string denotes (atoi on digits). */
  function Value(s: string): nat
    requires AllDigits(s)
  {
    if s == [] then 0 else 10 * Value(s[..|s| - 1]) + DigitVal(s[|s| - 1])
  }

  function Pow10(w: nat): (r: nat)
    ensures r > 0
  {
    if w == 0 then 1 else 10 * Pow10(w - 1)
  }

  /** The low `w` decimal digits of `n`, zero padded (printf "%0wd"). */
  function Pad(n: nat, w: nat): (s: string)
    ensures |s| == w && AllDigits(s)
  {
    if w == 0 then [] else Pad(n / 10, w - 1) + [DigitChar(n % 10)]
  }

  /** Plain decimal (std::to_string on an unsigned value). */
  function Dec(n: nat): (s: string)
    ensures |s| > 0 && AllDigits(s)
  {
    if n < 10 then [DigitChar(n)] else Dec(n / 10) + [DigitChar(n % 10)]
  }

  lemma {:induction false} PadValue(n: nat, w: nat)
    requires n < Pow10(w)
    ensures Value(Pad(n, w)) == n
  {
    if w > 0 {
      PadValue(n / 10, w - 1);
      ValueSnoc(Pad(n / 10, w - 1), DigitChar(n % 10));
    }
  }

  lemma {:induction false} ValueSnoc(s: string, c: char)
    requires AllDigits(s) && IsDigit(c)
    ensures Value(s + [c]) == 10 * Value(s) + DigitVal(c)
  {
    assert (s + [c])[..|s|] == s;
  }

  lemma {:induction false} DecValue(n: nat)
    ensures Value(Dec(n)) == n
  {
    if n < 10 {
      assert Dec(n)[..0] == [];
    } else {
      DecValue(n / 10);
      assert Dec(n)[..|Dec(n)| - 1] == Dec(n / 10);
    }
  }

  lemma {:induction false} DecIsPad(n: nat, w: nat)
    requires 0 < w && n < Pow10(w) && Pow10(w - 1) <= n
    ensures Dec(n) == Pad(n, w)
  {
    if w == 1 {
      assert Pow10(1) == 10 && Pow10(0) == 1;
      assert Pad(n / 10, 0) == [];
    } else {
      assert Pow10(w - 1) == 10 * Pow10(w - 2);
      DecIsPad(n / 10, w - 1);
    }
  }

  /** Digits are determined by their value and their number. */
  lemma {:induction false} PadOfValue(s: string)
    requires AllDigits(s)
    ensures Value(s) < Pow10(|s|) && Pad(Value(s), |s|) == s
  {
    if s != [] {
      PadOfValue(s[..|s| - 1]);
      assert s == s[..|s| - 1] + [s[|s| - 1]];
    }
  }

  /** Zero-padded decimal keeps the order of numbers. */
  lemma {:induction false} PadOrder(n: nat, m: nat, w: nat)
    requires n < m < Pow10(w)
    ensures Less(Pad(n, w), Pad(m, w))
  {
    if w > 0 {
      LessConcat(Pad(n / 10, w - 1), Pad(m / 10, w - 1), [DigitChar(n % 10)], [DigitChar(m % 10)]);
      if n / 10 < m / 10 {
        PadOrder(n / 10, m / 10, w - 1);
      }
    }
  }

  // ---------- Names ----------

  /** A character of a jail or node name. */
  predicate IsNameChar(c: char) {
    'a' <= c <= 'z' || 'A' <= c <= 'Z' || '0' <= c <= '9' || c == '.' || c == '_' || c == '-'
  }

  /** The same by ASCII codes. */
  predicate NameCode(c: char) {
    var k := c as int;
    k == 45 || k == 46 || 48 <= k <= 57 || 65 <= k <= 90 || k == 95 || 97 <= k <= 122
  }

  predicate AllNameCodes(s: string) { forall i :: 0 <= i < |s| ==> NameCode(s[i]) }
}
