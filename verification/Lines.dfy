/** Reading text the way the listing parsers do: std::getline, digit loops, space-separated words. */
module Lines {
  import opened Text

  // ---------- getline ----------

  /** The lines std::getline yields: a last line without newline counts if it is not empty. */
  function SplitLines(s: string): seq<string>
    decreases |s|
  {
    if s == "" then []
    else
      var k := Find(s, "\n", 0);
      if k == NPOS then [s] else [s[..k]] + SplitLines(s[k + 1..])
  }

  /** The getline loop. */
  method ReadLines(s: string) returns (lines: seq<string>)
    ensures lines == SplitLines(s)
  {
    lines := [];
    var rest := s;
    while rest != ""
      invariant SplitLines(s) == lines + SplitLines(rest)
      decreases |rest|
    {
      var k := Find(rest, "\n", 0);
      lines := lines + [if k == NPOS then rest else rest[..k]];
      rest := if k == NPOS then "" else rest[k + 1..];
    }
  }

  function DropCr(line: string): string {
    if line != "" && line[|line| - 1] == '\r' then line[..|line| - 1] else line
  }

  /** Exactly one carriage return at the end goes. */
  lemma CrDropped(line: string)
    ensures DropCr(line + "\r") == line
    ensures (line == "" || line[|line| - 1] != '\r') ==> DropCr(line) == line
  {
  }

  predicate OneLine(s: string) { forall i :: 0 <= i < |s| ==> s[i] != '\n' }

  /** Lines printed one after the other. */
  function JoinLines(lines: seq<string>): string {
    if lines == [] then "" else lines[0] + "\n" + JoinLines(lines[1..])
  }

  lemma {:induction false} SplitJoined(lines: seq<string>)
    requires forall i :: 0 <= i < |lines| ==> OneLine(lines[i])
    ensures SplitLines(JoinLines(lines)) == lines
  {
    if lines != [] {
      var l, rest := lines[0], JoinLines(lines[1..]);
      var s := l + "\n" + rest;
      forall i | 0 <= i < |l| ensures !At(s, "\n", i) {
        AtChars(s, "\n", i);
        assert s[i] == l[i] && "\n"[0] == '\n';
      }
      assert s[|l|..|l| + 1] == "\n";
      FindIs(s, "\n", 0, |l|);
      assert s[..|l|] == l && s[|l| + 1..] == rest;
      SplitJoined(lines[1..]);
    }
  }

  // ---------- Digit loops ----------

  /** Read digits from `i` up to `end`; None as soon as the number exceeds `limit`. */
  function ReadDigits(s: string, i: nat, end: nat, acc: nat, limit: nat): (r: Option<(nat, nat)>)
    requires i <= end <= |s|
    ensures r.Some? ==> i <= r.value.1 <= end
    decreases end - i
  {
    if i < end && IsDigit(s[i]) then
      var n := acc * 10 + DigitVal(s[i]);
      if n > limit then None else ReadDigits(s, i + 1, end, n, limit)
    else Some((acc, i))
  }

  method ReadNumber(s: string, start: nat, end: nat, limit: nat) returns (r: Option<(nat, nat)>)
    requires start <= end <= |s|
    ensures r == ReadDigits(s, start, end, 0, limit)
  {
    var i, n: nat := start, 0;
    while i < end && IsDigit(s[i])
      invariant start <= i <= end
      invariant ReadDigits(s, start, end, 0, limit) == ReadDigits(s, i, end, n, limit)
    {
      n := n * 10 + DigitVal(s[i]);
      if n > limit {
        return None;
      }
      i := i + 1;
    }
    return Some((n, i));
  }

  lemma {:induction false} ValuePrefix(d: string, k: nat)
    requires AllDigits(d) && k <= |d|
    ensures AllDigits(d[..k]) && Value(d[..k]) <= Value(d)
    decreases |d| - k
  {
    if k == |d| {
      assert d[..k] == d;
    } else {
      ValuePrefix(d, k + 1);
      assert d[..k + 1][..k] == d[..k];
    }
  }

  lemma {:induction false} ReadDigitsPart(s: string, i: nat, end: nat, d: string, k: nat, limit: nat)
    requires AllDigits(d) && Value(d) <= limit && k <= |d| && i + |d| <= end <= |s| && s[i..i + |d|] == d
    ensures AllDigits(d[..k])
    ensures ReadDigits(s, i, end, 0, limit) == ReadDigits(s, i + k, end, Value(d[..k]), limit)
  {
    if k == 0 {
      assert d[..0] == "";
    } else {
      ReadDigitsPart(s, i, end, d, k - 1, limit);
      ValuePrefix(d, k);
      assert d[..k][..k - 1] == d[..k - 1];
      assert s[i + k - 1] == s[i..i + |d|][k - 1] == d[k - 1];
      assert Value(d[..k]) == 10 * Value(d[..k - 1]) + DigitVal(d[k - 1]);
    }
  }

  /** A digit string within the limit is read whole, up to the first other character. */
  lemma ReadDigitsWhole(s: string, i: nat, end: nat, d: string, limit: nat)
    requires AllDigits(d) && Value(d) <= limit && i + |d| <= end <= |s| && s[i..i + |d|] == d
    requires i + |d| == end || !IsDigit(s[i + |d|])
    ensures ReadDigits(s, i, end, 0, limit) == Some((Value(d), i + |d|))
  {
    assert d[..|d|] == d;
    ReadDigitsPart(s, i, end, d, |d|, limit);
    ReadDigitsStops(s, i + |d|, end, Value(d), limit);
  }

  lemma {:induction false} ReadDigitsStops(s: string, i: nat, end: nat, acc: nat, limit: nat)
    requires i <= end <= |s| && (i == end || !IsDigit(s[i]))
    ensures ReadDigits(s, i, end, acc, limit) == Some((acc, i))
  {
  }

  // ---------- Words ----------

  predicate NoSpace(w: string) { forall i :: 0 <= i < |w| ==> w[i] != ' ' }

  predicate Words(ws: seq<string>) { |ws| > 0 && forall k :: 0 <= k < |ws| ==> NoSpace(ws[k]) }

  /** Words with one space between them. */
  function Join(ws: seq<string>): string
    requires |ws| > 0
  {
    if |ws| == 1 then ws[0] else ws[0] + (" " + Join(ws[1..]))
  }

  /** Where word `k` starts. */
  function Pos(ws: seq<string>, k: nat): nat
    requires k < |ws|
  {
    if k == 0 then 0 else |ws[0]| + 1 + Pos(ws[1..], k - 1)
  }

  lemma {:induction false} JoinFrom(ws: seq<string>, k: nat)
    requires k < |ws|
    ensures Pos(ws, k) <= |Join(ws)| && Join(ws)[Pos(ws, k)..] == Join(ws[k..])
  {
    if k == 0 {
      assert ws[0..] == ws;
    } else {
      JoinFrom(ws[1..], k - 1);
      assert ws[1..][k - 1..] == ws[k..];
      var p := Pos(ws[1..], k - 1);
      assert Join(ws)[|ws[0]| + 1 + p..] == Join(ws[1..])[p..];
    }
  }

  /** What follows word `k`. */
  lemma {:induction false} WordAt(ws: seq<string>, k: nat)
    requires k < |ws| - 1
    ensures var p := Pos(ws, k); var l := Join(ws);
      && p + |ws[k]| + 1 == Pos(ws, k + 1) <= |l| && l[p..p + |ws[k]|] == ws[k] && l[p + |ws[k]|] == ' '
  {
    JoinFrom(ws, k);
    PosNext(ws, k);
    JoinFrom(ws, k + 1);
    var p, t := Pos(ws, k), Join(ws[k..]);
    assert ws[k..][0] == ws[k] && ws[k..][1..] == ws[k + 1..];
    assert t == ws[k] + (" " + Join(ws[k + 1..]));
    assert Join(ws)[p..p + |ws[k]|] == t[..|ws[k]|] == ws[k];
    assert Join(ws)[p + |ws[k]|] == t[|ws[k]|];
  }

  lemma {:induction false} PosNext(ws: seq<string>, k: nat)
    requires k < |ws| - 1
    ensures Pos(ws, k + 1) == Pos(ws, k) + |ws[k]| + 1
  {
    if k > 0 {
      PosNext(ws[1..], k - 1);
    }
  }

  /** A pattern that starts with a character no earlier word holds is first found at word `k`. */
  lemma {:induction false} FindMark(ws: seq<string>, k: nat, pat: string)
    requires k < |ws| && pat != "" && pat[0] != ' ' && pat <= Join(ws[k..])
    requires forall j, i :: 0 <= j < k && 0 <= i < |ws[j]| ==> ws[j][i] != pat[0]
    ensures Find(Join(ws), pat, 0) == Pos(ws, k)
  {
    var l := Join(ws);
    MarkFirst(ws, k, pat[0]);
    JoinFrom(ws, k);
    var p := Pos(ws, k);
    assert l[p..p + |pat|] == l[p..][..|pat|] == pat;
    forall i | 0 <= i < p ensures !At(l, pat, i) {
      AtChars(l, pat, i);
      assert l[i + 0] != pat[0];
    }
    FindIs(l, pat, 0, p);
  }

  lemma {:induction false} MarkFirst(ws: seq<string>, k: nat, c: char)
    requires k < |ws| && c != ' '
    requires forall j, i :: 0 <= j < k && 0 <= i < |ws[j]| ==> ws[j][i] != c
    ensures Pos(ws, k) <= |Join(ws)| && forall i :: 0 <= i < Pos(ws, k) ==> Join(ws)[i] != c
  {
    if k > 0 {
      MarkFirst(ws[1..], k - 1, c);
      var n := |ws[0]|;
      assert forall i :: 0 <= i < n ==> Join(ws)[i] == ws[0][i];
      assert Join(ws)[n] == ' ';
      assert forall i :: 0 <= i < |Join(ws[1..])| ==> Join(ws)[n + 1 + i] == Join(ws[1..])[i];
    }
  }

  /** A join starts with space-free `b` exactly when its first word does. */
  lemma {:induction false} StartsWith(ws: seq<string>, b: string)
    requires Words(ws) && NoSpace(b)
    ensures b <= Join(ws) <==> b <= ws[0]
  {
    if |ws| > 1 {
      var n := |ws[0]|;
      assert Join(ws)[n] == ' ';
      assert Join(ws)[..n] == ws[0];
      if b <= Join(ws) && |b| <= n {
        assert ws[0][..|b|] == Join(ws)[..|b|] == b;
      }
      if b <= ws[0] {
        assert Join(ws)[..|b|] == ws[0][..|b|] == b;
      }
    }
  }

  lemma {:induction false} StartsWithWord(ws: seq<string>, x: string)
    requires Words(ws) && NoSpace(x)
    ensures x + " " <= Join(ws) <==> |ws| > 1 && ws[0] == x
  {
    var l, n := Join(ws), |ws[0]|;
    assert l[..n] == ws[0];
    assert forall k :: 0 <= k < n ==> l[k] == ws[0][k];
    assert |ws| > 1 ==> l[n] == ' ';
    if x + " " <= l {
      assert l[|x|] == (x + " ")[|x|] == ' ';
      assert forall k :: 0 <= k < |x| ==> l[k] == (x + " ")[k] == x[k];
    }
    if |ws| > 1 && ws[0] == x {
      assert l[..|x| + 1] == x + " ";
    }
  }

  /** " x " at the first space is the second word, if another follows. */
  lemma {:induction false} SpacedFirst(ws: seq<string>, x: string)
    requires Words(ws) && |ws| > 1 && NoSpace(x)
    ensures At(Join(ws), " " + x + " ", |ws[0]|) <==> |ws| > 2 && ws[1] == x
  {
    var l, r, n, pat := Join(ws), Join(ws[1..]), |ws[0]|, " " + x + " ";
    assert l[n + 1..] == r && l[n] == ' ';
    StartsWithWord(ws[1..], x);
    assert pat == [' '] + (x + " ");
    if n + |pat| <= |l| {
      assert l[n..n + |pat|] == [' '] + r[..|x| + 1];
      assert l[n..n + |pat|][1..] == r[..|x| + 1] && pat[1..] == x + " ";
    }
  }

  /** One step of looking for " x ": it is at the first space, or in what follows. */
  lemma {:induction false} SpacedStep(ws: seq<string>, x: string, i: int)
    requires Words(ws) && |ws| > 1 && NoSpace(x)
    ensures var n := |ws[0]|;
      At(Join(ws), " " + x + " ", i) <==>
      if i <= n then i == n && |ws| > 2 && ws[1] == x else At(Join(ws[1..]), " " + x + " ", i - n - 1)
  {
    var l, r, n, pat := Join(ws), Join(ws[1..]), |ws[0]|, " " + x + " ";
    AtChars(l, pat, i);
    if 0 <= i < n {
      assert l[i + 0] == ws[0][i] && pat[0] == ' ';
    } else if i == n {
      SpacedFirst(ws, x);
    } else if i > n {
      assert l[n + 1..] == r;
      AtShift(l, n + 1, pat, i - n - 1);
    }
  }

  /** " x " is first found in front of the first inner word equal to `x`. */
  lemma {:induction false} FindSpaced(ws: seq<string>, x: string, k: nat)
    requires Words(ws) && NoSpace(x) && 1 <= k < |ws| - 1 && ws[k] == x
    requires forall j :: 1 <= j < k ==> ws[j] != x
    ensures Pos(ws, k) >= 1 && Find(Join(ws), " " + x + " ", 0) == Pos(ws, k) - 1
  {
    var l, n, pat := Join(ws), |ws[0]|, " " + x + " ";
    if k == 1 {
      forall i | 0 <= i <= n ensures At(l, pat, i) <==> i == n { SpacedStep(ws, x, i); }
      FindIs(l, pat, 0, n);
      assert Pos(ws[1..], 0) == 0;
    } else {
      FindSpaced(ws[1..], x, k - 1);
      var q := Pos(ws[1..], k - 1) - 1;
      forall i | 0 <= i <= n + 1 + q ensures At(l, pat, i) <==> i == n + 1 + q { SpacedStep(ws, x, i); }
      FindIs(l, pat, 0, n + 1 + q);
    }
  }

  predicate Pair(v: string, w: string, a: string, b: string) {
    |a| <= |v| && v[|v| - |a|..] == a && b <= w
  }

  /** "a b" across the first space is a pair of the first two words. */
  lemma {:induction false} PairAcross(ws: seq<string>, a: string, b: string, i: nat)
    requires Words(ws) && |ws| > 1 && NoSpace(b) && i + |a| == |ws[0]|
    ensures At(Join(ws), a + " " + b, i) ==> Pair(ws[0], ws[1], a, b)
  {
    var l, pat, n, r := Join(ws), a + " " + b, |ws[0]|, Join(ws[1..]);
    StartsWith(ws[1..], b);
    assert l[n + 1..] == r;
    if At(l, pat, i) {
      assert l[i..i + |pat|][..|a|] == l[i..n];
      assert l[i..n] == ws[0][i..];
      assert l[i..i + |pat|][|a| + 1..] == l[n + 1..n + 1 + |b|] == r[..|b|];
      assert pat[..|a|] == a && pat[|a| + 1..] == b;
    }
  }

  /** "a b" occurs only where a word ends in `a` and the next starts with `b`. */
  lemma {:induction false} NoPairs(ws: seq<string>, a: string, b: string, i: int)
    requires Words(ws) && NoSpace(a) && NoSpace(b)
    requires forall k :: 0 <= k < |ws| - 1 ==> !Pair(ws[k], ws[k + 1], a, b)
    ensures !At(Join(ws), a + " " + b, i)
    decreases ws
  {
    var l, pat, n := Join(ws), a + " " + b, |ws[0]|;
    AtChars(l, pat, i);
    assert pat[|a|] == ' ';
    if 0 <= i && i + |a| < n {
      assert l[i + |a|] == ws[0][i + |a|];
    } else if |ws| > 1 && 0 <= i {
      var r := Join(ws[1..]);
      assert l[n + 1..] == r;
      if i + |a| == n {
        assert !Pair(ws[0], ws[1], a, b);
        PairAcross(ws, a, b, i);
      } else if i <= n {
        assert l[i + (n - i)] == ' ' && pat[n - i] == a[n - i];
      } else {
        NoPairs(ws[1..], a, b, i - n - 1);
        AtShift(l, n + 1, pat, i - n - 1);
      }
    }
  }
}
