/** The JSON scanners of hub/aggregator_pure.cpp, against texts printed from Json values. */
module Aggregator {
  import opened Text
  import opened Json

  // ---------- countTopLevelObjects ----------

  datatype Scan = Scan(depth: int, inString: bool, escape: bool, count: nat, seen: bool)

  /** One character of the counting loop. */
  function Count1(s: Scan, c: char): Scan {
    if s.escape then s.(escape := false)
    else if s.inString then
      if c == '\\' then s.(escape := true) else if c == '"' then s.(inString := false) else s
    else if c == '"' then s.(inString := true, seen := true)
    else if c == '{' then s.(count := if s.depth == 0 then s.count + 1 else s.count, depth := s.depth + 1, seen := true)
    else if c == '}' then (if s.depth > 0 then s.(depth := s.depth - 1) else s)
    else if !IsWs(c) && c != ',' then s.(seen := true)
    else s
  }

  function CountAll(s: Scan, t: string): Scan
    decreases t
  {
    if t == "" then s else CountAll(Count1(s, t[0]), t[1..])
  }

  /** Index of the first character at or after `i` that is not whitespace, or the length. */
  function SkipWs(t: string, i: nat): (r: nat)
    requires i <= |t|
    ensures i <= r <= |t| && (forall k :: i <= k < r ==> IsWs(t[k])) && (r < |t| ==> !IsWs(t[r]))
    decreases |t| - i
  {
    if i < |t| && IsWs(t[i]) then SkipWs(t, i + 1) else i
  }

  /** One past the last character that is not whitespace, but at least `a`. */
  function BackWs(t: string, a: nat, b: nat): (r: nat)
    requires a <= b <= |t|
    ensures a <= r <= b && (forall k :: r <= k < b ==> IsWs(t[k])) && (r > a ==> !IsWs(t[r - 1]))
  {
    if b > a && IsWs(t[b - 1]) then BackWs(t, a, b - 1) else b
  }

  const FRESH := Scan(0, false, false, 0, false)

  function CountTrimmed(t: string): nat {
    if |t| < 2 || t[0] != '[' || t[|t| - 1] != ']' then 0
    else
      var s := CountAll(FRESH, t[1..|t| - 1]);
      if s.depth != 0 || s.inString || !s.seen then 0 else s.count
  }

  function CountTopLevelObjects(json: string): nat {
    var a := SkipWs(json, 0);
    var b := BackWs(json, a, |json|);
    CountTrimmed(json[a..b])
  }

  lemma {:induction false} CountAllConcat(s: Scan, t: string, u: string)
    ensures CountAll(s, t + u) == CountAll(CountAll(s, t), u)
    decreases t
  {
    if t == "" {
      assert t + u == u;
    } else {
      assert (t + u)[0] == t[0] && (t + u)[1..] == t[1..] + u;
      CountAllConcat(Count1(s, t[0]), t[1..], u);
    }
  }

  /** A closing brace that closes nothing does not count. */
  lemma StrayBrace(t: string)
    requires t != ""
    ensures CountTrimmed("[}" + t) == CountTrimmed("[" + t)
  {
    var a, b := "[}" + t, "[" + t;
    var u := t[..|t| - 1];
    assert a[1..|a| - 1] == "}" + u && b[1..|b| - 1] == u;
    assert ("}" + u)[0] == '}' && ("}" + u)[1..] == u;
    assert a[|a| - 1] == t[|t| - 1] == b[|b| - 1];
  }

  /** countTopLevelObjects. */
  method CountObjects(json: string) returns (n: nat)
    ensures n == CountTopLevelObjects(json)
  {
    var a, b := TrimWs(json);
    ghost var t := json[a..b];
    assert b - a >= 2 ==> t[0] == json[a] && t[|t| - 1] == json[b - 1];
    if b - a < 2 || json[a] != '[' || json[b - 1] != ']' {
      return 0;
    }
    var s := ScanInner(json, a + 1, b - 1);
    SliceOfSlice(json, a, b, 1, b - a - 1);
    assert s == CountAll(FRESH, t[1..|t| - 1]);
    n := if s.depth != 0 || s.inString || !s.seen then 0 else s.count;
  }

  /** The two loops past the whitespace at either end. */
  method TrimWs(json: string) returns (a: nat, b: nat)
    ensures a == SkipWs(json, 0) && b == BackWs(json, a, |json|)
  {
    a, b := 0, |json|;
    while a < b && IsWs(json[a])
      invariant a <= |json| && SkipWs(json, 0) == SkipWs(json, a)
    {
      a := a + 1;
    }
    while b > a && IsWs(json[b - 1])
      invariant a <= b <= |json| && BackWs(json, a, |json|) == BackWs(json, a, b)
    {
      b := b - 1;
    }
  }

  lemma SliceOfSlice<T>(s: seq<T>, a: nat, b: nat, c: nat, d: nat)
    requires a <= b <= |s| && c <= d <= b - a
    ensures s[a..b][c..d] == s[a + c..a + d]
  {
    var u, v := s[a..b][c..d], s[a + c..a + d];
    forall k | 0 <= k < d - c ensures u[k] == v[k] {
      assert u[k] == s[a..b][c + k];
    }
  }

  /** The loop over the characters between the brackets. */
  method ScanInner(json: string, from: nat, to: nat) returns (s: Scan)
    requires from <= to <= |json|
    ensures s == CountAll(FRESH, json[from..to])
  {
    s := FRESH;
    for i := from to to
      invariant s == CountAll(FRESH, json[from..i])
    {
      assert json[from..i + 1] == json[from..i] + [json[i]];
      CountAllConcat(FRESH, json[from..i], [json[i]]);
      s := Count1(s, json[i]);
    }
  }

  // ---------- Counting a printed value ----------

  predicate Clean(s: Scan) { !s.inString && !s.escape && s.depth >= 0 }

  lemma {:induction false} CountWs(s: Scan, w: string)
    requires Clean(s) && AllWs(w)
    ensures CountAll(s, w) == s
  {
    if w != "" { CountWs(s, w[1..]); }
  }

  lemma {:induction false} CountScalar(s: Scan, t: string)
    requires Clean(s) && forall i :: 0 <= i < |t| ==> IsScalarChar(t[i])
    ensures CountAll(s, t) == if t == "" then s else s.(seen := true)
    decreases t
  {
    if t != "" { CountScalar(s.(seen := true), t[1..]); }
  }

  lemma {:induction false} CountStrText(s: Scan, b: seq<StrItem>)
    requires s.inString && !s.escape && ValidStr(b)
    ensures CountAll(s, StrText(b)) == s
  {
    if b != [] {
      var item := match b[0] case Plain(c) => [c] case Escaped(c) => ['\\', c];
      CountAllConcat(s, item, StrText(b[1..]));
      if b[0].Plain? {
        assert item[1..] == "" && CountAll(Count1(s, item[0]), "") == s;
      } else {
        var slash := Count1(s, '\\');
        assert item[1..] == [b[0].c] && [b[0].c][1..] == "";
        assert CountAll(Count1(slash, b[0].c), "") == s;
        assert CountAll(slash, [b[0].c]) == s;
      }
      CountStrText(s, b[1..]);
    }
  }

  lemma CountQuoted(s: Scan, b: seq<StrItem>)
    requires Clean(s) && ValidStr(b)
    ensures CountAll(s, Quoted(b)) == s.(seen := true)
  {
    var in0 := s.(inString := true, seen := true);
    Wrapped(s, '"', StrText(b), '"');
    CountStrText(in0, b);
  }

  /** An opening and a closing character around a text. */
  lemma Wrapped(s: Scan, open: char, t: string, close: char)
    ensures CountAll(s, [open] + (t + [close])) == Count1(CountAll(Count1(s, open), t), close)
  {
    var u := [open] + (t + [close]);
    assert u[0] == open && u[1..] == t + [close];
    CountAllConcat(Count1(s, open), t, [close]);
    assert [close][1..] == "";
    assert CountAll(Count1(CountAll(Count1(s, open), t), close), "") == Count1(CountAll(Count1(s, open), t), close);
  }

  /** Objects reached from a value without entering an object. */
  function Outermost(v: Value): nat {
    match v
    case EmptyObj(_) => 1
    case Obj(_) => 1
    case Arr(es) => OutermostIn(es)
    case _ => 0
  }

  function OutermostIn(es: Elems): nat {
    Outermost(es.v) + match es case LastElem(_, _, _) => 0 case MoreElems(_, _, _, rest) => OutermostIn(rest)
  }

  /** The scan of a value leaves the depth alone and counts its outermost objects at depth 0 only. */
  function Counted(s: Scan, n: nat): Scan { s.(seen := true, count := s.count + if s.depth == 0 then n else 0) }

  lemma {:induction false} CountValue(s: Scan, v: Value)
    requires Clean(s) && Valid(v)
    ensures CountAll(s, Print(v)) == Counted(s, Outermost(v))
    decreases v, 0
  {
    match v
    case Scalar(t) => CountScalar(s, t);
    case Str(b) => CountQuoted(s, b);
    case EmptyArr(w) =>
      Wrapped(s, '[', w, ']');
      CountWs(s.(seen := true), w);
    case Arr(es) =>
      Wrapped(s, '[', PrintElems(es), ']');
      CountElems(s.(seen := true), es);
    case EmptyObj(w) =>
      Wrapped(s, '{', w, '}');
      CountWs(Count1(s, '{'), w);
    case Obj(ms) =>
      Wrapped(s, '{', PrintMembers(ms), '}');
      CountMembers(Count1(s, '{'), ms);
  }

  /** Whitespace around a value. */
  lemma {:induction false} CountPadded(s: Scan, pre: string, v: Value, post: string)
    requires Clean(s) && Valid(v) && AllWs(pre) && AllWs(post)
    ensures CountAll(s, pre + (Print(v) + post)) == Counted(s, Outermost(v))
    decreases v, 1
  {
    CountAllConcat(s, pre, Print(v) + post);
    CountWs(s, pre);
    CountAllConcat(s, Print(v), post);
    CountValue(s, v);
    CountWs(Counted(s, Outermost(v)), post);
  }

  lemma CountSep(s: Scan, here: string, c: char, rest: string)
    requires Clean(CountAll(s, here)) && CountAll(s, here).seen && (c == ',' || c == ':')
    ensures CountAll(s, here + ([c] + rest)) == CountAll(CountAll(s, here), rest)
  {
    CountAllConcat(s, here, [c] + rest);
    assert ([c] + rest)[1..] == rest;
  }

  lemma {:induction false} CountElems(s: Scan, es: Elems)
    requires Clean(s) && ValidElems(es)
    ensures CountAll(s, PrintElems(es)) == Counted(s, OutermostIn(es))
    decreases es
  {
    CountPadded(s, es.pre, es.v, es.post);
    if es.MoreElems? {
      var here := es.pre + (Print(es.v) + es.post);
      CountSep(s, here, ',', PrintElems(es.rest));
      CountElems(Counted(s, Outermost(es.v)), es.rest);
    }
  }

  lemma {:induction false} CountMember(s: Scan, ms: Members)
    requires Clean(s) && s.depth > 0 && ValidMembers(ms)
    ensures CountAll(s, ms.pre + (Quoted(ms.key) + (ms.mid + (":" + (ms.gap + (Print(ms.v) + ms.post))))))
      == s.(seen := true)
    decreases ms, 0
  {
    var tail := ms.gap + (Print(ms.v) + ms.post);
    CountAllConcat(s, ms.pre, Quoted(ms.key) + (ms.mid + (":" + tail)));
    CountWs(s, ms.pre);
    CountAllConcat(s, Quoted(ms.key), ms.mid + (":" + tail));
    CountQuoted(s, ms.key);
    var s1 := s.(seen := true);
    CountWs(s1, ms.mid);
    CountSep(s1, ms.mid, ':', tail);
    CountPadded(s1, ms.gap, ms.v, ms.post);
  }

  lemma {:induction false} CountMembers(s: Scan, ms: Members)
    requires Clean(s) && s.depth > 0 && ValidMembers(ms)
    ensures CountAll(s, PrintMembers(ms)) == s.(seen := true)
    decreases ms
  {
    CountMember(s, ms);
    if ms.MoreMembers? {
      var here := ms.pre + (Quoted(ms.key) + (ms.mid + (":" + (ms.gap + (Print(ms.v) + ms.post)))));
      CountSep(s, here, ',', PrintMembers(ms.rest));
      CountMembers(s.(seen := true), ms.rest);
    }
  }

  lemma {:induction false} ObjectsAreOutermost(es: Elems)
    requires AllObjects(es)
    ensures OutermostIn(es) == Length(es)
  {
    if es.MoreElems? { ObjectsAreOutermost(es.rest); }
  }

  predicate IsArray(v: Value) { v.EmptyArr? || v.Arr? }

  /** Trimming finds the array between its surrounding whitespace. */
  lemma TrimArray(pre: string, v: Value, post: string)
    requires AllWs(pre) && AllWs(post) && IsArray(v)
    ensures var json := pre + Print(v) + post;
      SkipWs(json, 0) == |pre| && BackWs(json, |pre|, |json|) == |pre| + |Print(v)|
      && json[|pre|..|pre| + |Print(v)|] == Print(v)
  {
    var json := pre + Print(v) + post;
    var p := Print(v);
    assert p[0] == '[' && p[|p| - 1] == ']';
    assert json[|pre|] == p[0] && json[|pre| + |p| - 1] == p[|p| - 1];
    assert forall k :: 0 <= k < |pre| ==> json[k] == pre[k];
    assert forall k :: |pre| + |p| <= k < |json| ==> json[k] == post[k - |pre| - |p|];
  }

  /** For any printed array the count is that of its outermost objects ... */
  lemma CountOfArray(pre: string, v: Value, post: string)
    requires AllWs(pre) && AllWs(post) && Valid(v) && IsArray(v)
    ensures CountTopLevelObjects(pre + Print(v) + post) == Outermost(v)
  {
    TrimArray(pre, v, post);
    var p := Print(v);
    if v.Arr? {
      assert p[1..|p| - 1] == PrintElems(v.elems);
      CountElems(FRESH, v.elems);
    } else {
      assert p[1..|p| - 1] == v.ws;
      CountWs(FRESH, v.ws);
    }
  }

  /** ... so an array of objects is counted exactly, whatever its strings contain. */
  lemma CountOfObjectArray(pre: string, v: Value, post: string)
    requires AllWs(pre) && AllWs(post) && IsObjectArray(v)
    ensures CountTopLevelObjects(pre + Print(v) + post) == ObjectCount(v)
  {
    CountOfArray(pre, v, post);
    if v.Arr? { ObjectsAreOutermost(v.elems); }
  }

  // ---------- arrayEnd ----------

  datatype Nest = Nest(depth: int, inStr: bool, esc: bool)

  /** One character of the bracket loop. */
  function Nest1(s: Nest, c: char): Nest {
    if s.esc then s.(esc := false)
    else if s.inStr then
      if c == '\\' then s.(esc := true) else if c == '"' then s.(inStr := false) else s
    else if c == '"' then s.(inStr := true)
    else if c == '[' || c == '{' then s.(depth := s.depth + 1)
    else if c == ']' || c == '}' then s.(depth := s.depth - 1)
    else s
  }

  /** This character is the bracket that returns to depth 0. */
  predicate Closes(s: Nest, c: char) { !s.esc && !s.inStr && (c == ']' || c == '}') && s.depth == 1 }

  /** Characters read up to and including the closing bracket, or NPOS. */
  function Close(s: Nest, t: string): (k: int)
    ensures k == NPOS || 0 < k <= |t|
    decreases t
  {
    if t == "" then NPOS
    else if Closes(s, t[0]) then 1
    else
      var k := Close(Nest1(s, t[0]), t[1..]);
      if k == NPOS then NPOS else k + 1
  }

  const OUTSIDE := Nest(0, false, false)

  /** arrayEnd: one past the bracket that closes the one at `open`. */
  function ArrayEnd(json: string, open: nat): int
    requires open <= |json|
  {
    var k := Close(OUTSIDE, json[open..]);
    if k == NPOS then NPOS else open + k
  }

  method FindArrayEnd(json: string, open: nat) returns (e: int)
    requires open <= |json|
    ensures e == ArrayEnd(json, open)
  {
    var s := OUTSIDE;
    var i := open;
    while i < |json|
      invariant open <= i <= |json|
      invariant var k := Close(s, json[i..]); ArrayEnd(json, open) == if k == NPOS then NPOS else i + k
    {
      assert json[i..][1..] == json[i + 1..];
      if Closes(s, json[i]) {
        return i + 1;
      }
      s := Nest1(s, json[i]);
      i := i + 1;
    }
    return NPOS;
  }

  /** The text up to the closing bracket closes there by itself. */
  lemma {:induction false} ClosePrefix(s: Nest, t: string)
    requires Close(s, t) != NPOS
    ensures Close(s, t[..Close(s, t)]) == Close(s, t)
    decreases t
  {
    var k := Close(s, t);
    if !Closes(s, t[0]) {
      ClosePrefix(Nest1(s, t[0]), t[1..]);
      assert t[..k][1..] == t[1..][..k - 1];
    }
  }

  /** The state after `t` if no bracket in it closes the whole. */
  datatype Walked = Open(s: Nest) | Closed

  function Walk(s: Nest, t: string): Walked
    decreases t
  {
    if t == "" then Open(s) else if Closes(s, t[0]) then Closed else Walk(Nest1(s, t[0]), t[1..])
  }

  lemma {:induction false} WalkConcat(s: Nest, t: string, u: string)
    ensures Walk(s, t + u) == match Walk(s, t) case Open(r) => Walk(r, u) case Closed => Closed
    decreases t
  {
    if t == "" {
      assert t + u == u;
    } else {
      assert (t + u)[0] == t[0] && (t + u)[1..] == t[1..] + u;
      if !Closes(s, t[0]) { WalkConcat(Nest1(s, t[0]), t[1..], u); }
    }
  }

  lemma {:induction false} CloseAfterWalk(s: Nest, t: string, u: string)
    requires Walk(s, t).Open?
    ensures var k := Close(Walk(s, t).s, u); Close(s, t + u) == if k == NPOS then NPOS else |t| + k
    decreases t
  {
    if t == "" {
      assert t + u == u;
    } else {
      assert (t + u)[0] == t[0] && (t + u)[1..] == t[1..] + u;
      CloseAfterWalk(Nest1(s, t[0]), t[1..], u);
    }
  }

  predicate Inside(s: Nest) { s.depth >= 1 && !s.inStr && !s.esc }

  lemma {:induction false} WalkNeutral(s: Nest, t: string)
    requires !s.inStr && !s.esc
    requires forall i :: 0 <= i < |t| ==> t[i] !in {'"', '[', ']', '{', '}'}
    ensures Walk(s, t) == Open(s)
  {
    if t != "" { WalkNeutral(s, t[1..]); }
  }

  lemma {:induction false} WalkStrText(s: Nest, b: seq<StrItem>)
    requires s.inStr && !s.esc && ValidStr(b)
    ensures Walk(s, StrText(b)) == Open(s)
  {
    if b != [] {
      var item := match b[0] case Plain(c) => [c] case Escaped(c) => ['\\', c];
      WalkConcat(s, item, StrText(b[1..]));
      if b[0].Plain? {
        assert item[1..] == "" && Walk(Nest1(s, item[0]), "") == Open(s);
      } else {
        var slash := Nest1(s, '\\');
        assert item[1..] == [b[0].c] && [b[0].c][1..] == "";
        assert Walk(Nest1(slash, b[0].c), "") == Open(s);
        assert Walk(slash, [b[0].c]) == Open(s);
      }
      WalkStrText(s, b[1..]);
    }
  }

  /** An opening character, a text that stays open, and a closing one. */
  lemma WalkWrapped(s: Nest, open: char, t: string, close: char)
    requires !Closes(s, open) && Walk(Nest1(s, open), t) == Open(Nest1(s, open)) && !Closes(Nest1(s, open), close)
    ensures Walk(s, [open] + (t + [close])) == Open(Nest1(Nest1(s, open), close))
  {
    var u, in1 := [open] + (t + [close]), Nest1(s, open);
    assert u[0] == open && u[1..] == t + [close];
    WalkConcat(in1, t, [close]);
    assert [close][1..] == "";
    assert Walk(Nest1(in1, close), "") == Open(Nest1(in1, close));
  }

  lemma WalkQuoted(s: Nest, b: seq<StrItem>)
    requires !s.inStr && !s.esc && ValidStr(b)
    ensures Walk(s, Quoted(b)) == Open(s)
  {
    WalkStrText(s.(inStr := true), b);
    WalkWrapped(s, '"', StrText(b), '"');
  }

  /** Inside an array or object, a value comes and goes without closing it. */
  lemma {:induction false} WalkValue(s: Nest, v: Value)
    requires Inside(s) && Valid(v)
    ensures Walk(s, Print(v)) == Open(s)
    decreases v, 0
  {
    var deeper := s.(depth := s.depth + 1);
    match v
    case Scalar(t) => WalkNeutral(s, t);
    case Str(b) => WalkQuoted(s, b);
    case EmptyArr(w) =>
      WalkNeutral(deeper, w);
      WalkWrapped(s, '[', w, ']');
    case Arr(es) =>
      WalkElems(deeper, es);
      WalkWrapped(s, '[', PrintElems(es), ']');
    case EmptyObj(w) =>
      WalkNeutral(deeper, w);
      WalkWrapped(s, '{', w, '}');
    case Obj(ms) =>
      WalkMembers(deeper, ms);
      WalkWrapped(s, '{', PrintMembers(ms), '}');
  }

  lemma {:induction false} WalkPadded(s: Nest, pre: string, v: Value, post: string)
    requires Inside(s) && Valid(v) && AllWs(pre) && AllWs(post)
    ensures Walk(s, pre + (Print(v) + post)) == Open(s)
    decreases v, 1
  {
    WalkConcat(s, pre, Print(v) + post);
    WalkNeutral(s, pre);
    WalkConcat(s, Print(v), post);
    WalkValue(s, v);
    WalkNeutral(s, post);
  }

  lemma WalkSep(s: Nest, here: string, c: char, rest: string)
    requires Inside(s) && Walk(s, here) == Open(s) && (c == ',' || c == ':')
    ensures Walk(s, here + ([c] + rest)) == Walk(s, rest)
  {
    WalkConcat(s, here, [c] + rest);
    assert ([c] + rest)[1..] == rest;
  }

  lemma {:induction false} WalkElems(s: Nest, es: Elems)
    requires Inside(s) && ValidElems(es)
    ensures Walk(s, PrintElems(es)) == Open(s)
    decreases es
  {
    WalkPadded(s, es.pre, es.v, es.post);
    if es.MoreElems? {
      WalkSep(s, es.pre + (Print(es.v) + es.post), ',', PrintElems(es.rest));
      WalkElems(s, es.rest);
    }
  }

  lemma {:induction false} WalkMember(s: Nest, ms: Members)
    requires Inside(s) && ValidMembers(ms)
    ensures Walk(s, ms.pre + (Quoted(ms.key) + (ms.mid + (":" + (ms.gap + (Print(ms.v) + ms.post)))))) == Open(s)
    decreases ms, 0
  {
    var tail := ms.gap + (Print(ms.v) + ms.post);
    WalkConcat(s, ms.pre, Quoted(ms.key) + (ms.mid + (":" + tail)));
    WalkNeutral(s, ms.pre);
    WalkConcat(s, Quoted(ms.key), ms.mid + (":" + tail));
    WalkQuoted(s, ms.key);
    WalkNeutral(s, ms.mid);
    WalkSep(s, ms.mid, ':', tail);
    WalkPadded(s, ms.gap, ms.v, ms.post);
  }

  lemma {:induction false} WalkMembers(s: Nest, ms: Members)
    requires Inside(s) && ValidMembers(ms)
    ensures Walk(s, PrintMembers(ms)) == Open(s)
    decreases ms
  {
    WalkMember(s, ms);
    if ms.MoreMembers? {
      var here := ms.pre + (Quoted(ms.key) + (ms.mid + (":" + (ms.gap + (Print(ms.v) + ms.post)))));
      WalkSep(s, here, ',', PrintMembers(ms.rest));
      WalkMembers(s, ms.rest);
    }
  }

  /** The scanner stops exactly at the end of a printed array, whatever follows. */
  lemma {:induction false} ArrayCloses(v: Value, rest: string)
    requires Valid(v) && IsArray(v)
    ensures Close(OUTSIDE, Print(v) + rest) == |Print(v)|
  {
    var one := Nest(1, false, false);
    if v.Arr? {
      WalkElems(one, v.elems);
      CloseBracketed(PrintElems(v.elems), rest);
    } else {
      WalkNeutral(one, v.ws);
      CloseBracketed(v.ws, rest);
    }
  }

  lemma {:induction false} CloseBracketed(inner: string, rest: string)
    requires Walk(Nest(1, false, false), inner) == Open(Nest(1, false, false))
    ensures Close(OUTSIDE, "[" + (inner + "]") + rest) == |inner| + 2
  {
    var one, tail := Nest(1, false, false), "]" + rest;
    var t := "[" + (inner + "]") + rest;
    assert t[0] == '[' && t[1..] == inner + tail;
    assert Nest1(OUTSIDE, '[') == one;
    CloseAfterWalk(one, inner, tail);
    assert Closes(one, tail[0]);
  }

  // ---------- extractContainerArray ----------

  /** arrayAt: the array text at `p`, or nothing. */
  function ArrayAt(json: string, p: int): string {
    if p < 0 || p >= |json| || json[p] != '[' then ""
    else
      var e := ArrayEnd(json, p);
      if e == NPOS then "" else json[p..e]
  }

  function Needle(key: string): string { "\"" + key + "\"" }

  /** valueAfterKey: start of the value behind the first "key" at or after `from`. */
  function ValueAfterKey(json: string, key: string, from: nat): (r: int)
    ensures r == NPOS || from <= r <= |json|
  {
    var p := Find(json, Needle(key), from);
    if p == NPOS then NPOS
    else
      var c := Find(json, ":", p + |Needle(key)|);
      if c == NPOS then NPOS else SkipWs(json, c + 1)
  }

  function OrEmpty(arr: string): string { if arr == "" then "[]" else arr }

  function ExtractContainerArray(body: string): string {
    var a := SkipWs(body, 0);
    if a >= |body| then "[]"
    else if body[a] == '[' then OrEmpty(ArrayAt(body, a))
    else if body[a] != '{' then "[]"
    else
      var d := ValueAfterKey(body, "data", a);
      if d != NPOS && d < |body| && body[d] == '[' then OrEmpty(ArrayAt(body, d))
      else
        var ji := ValueAfterKey(body, "jail-information", if d == NPOS then a else d);
        if ji == NPOS then "[]" else OrEmpty(ArrayAt(body, ValueAfterKey(body, "jail", ji)))
  }

  /** A text that is one bracketed array from end to end. */
  predicate IsArrayText(t: string) { |t| > 0 && t[0] == '[' && Close(OUTSIDE, t) == |t| }

  lemma ArrayAtIsArray(json: string, p: int)
    ensures ArrayAt(json, p) == "" || IsArrayText(ArrayAt(json, p))
  {
    if ArrayAt(json, p) != "" {
      ClosePrefix(OUTSIDE, json[p..]);
      var k := Close(OUTSIDE, json[p..]);
      assert ArrayAt(json, p) == json[p..][..k];
    }
  }

  lemma EmptyIsArray()
    ensures IsArrayText("[]")
  {
    assert "[]"[1..] == "]";
    assert Close(Nest(1, false, false), "]") == 1;
    assert Nest1(OUTSIDE, '[') == Nest(1, false, false);
  }

  lemma OrEmptyIsArray(json: string, p: int)
    ensures IsArrayText(OrEmpty(ArrayAt(json, p)))
  {
    EmptyIsArray();
    ArrayAtIsArray(json, p);
  }

  lemma {:induction false} ExtractedIsArray(body: string)
    ensures IsArrayText(ExtractContainerArray(body))
  {
    EmptyIsArray();
    var a := SkipWs(body, 0);
    OrEmptyIsArray(body, a);
    var d := ValueAfterKey(body, "data", a);
    OrEmptyIsArray(body, d);
    var ji := ValueAfterKey(body, "jail-information", if d == NPOS then a else d);
    if ji != NPOS { OrEmptyIsArray(body, ValueAfterKey(body, "jail", ji)); }
  }

  lemma ArrayTextExtractsItself(t: string)
    requires IsArrayText(t)
    ensures ExtractContainerArray(t) == t
  {
    assert SkipWs(t, 0) == 0;
    assert t[0..] == t && t[0..|t|] == t;
  }

  /** On every input whatsoever, extracting twice is extracting once. */
  lemma ExtractIdempotent(body: string)
    ensures ExtractContainerArray(ExtractContainerArray(body)) == ExtractContainerArray(body)
  {
    ExtractedIsArray(body);
    ArrayTextExtractsItself(ExtractContainerArray(body));
  }

  /** extractContainerArray. */
  method ExtractArray(body: string) returns (r: string)
    ensures r == ExtractContainerArray(body)
  {
    var a := 0;
    while a < |body| && IsWs(body[a])
      invariant a <= |body| && SkipWs(body, 0) == SkipWs(body, a)
    {
      a := a + 1;
    }
    if a >= |body| {
      return "[]";
    }
    if body[a] == '[' {
      var arr := TakeArray(body, a);
      return OrEmpty(arr);
    }
    if body[a] != '{' {
      return "[]";
    }
    var d := ValueAfterKey(body, "data", a);
    var searchFrom := if d == NPOS then a else d;
    if d != NPOS && d < |body| && body[d] == '[' {
      var arr := TakeArray(body, d);
      return OrEmpty(arr);
    }
    var ji := ValueAfterKey(body, "jail-information", searchFrom);
    if ji != NPOS {
      var arr := TakeArray(body, ValueAfterKey(body, "jail", ji));
      if arr != "" {
        return arr;
      }
    }
    return "[]";
  }

  method TakeArray(json: string, p: int) returns (r: string)
    ensures r == ArrayAt(json, p)
  {
    if p < 0 || p >= |json| || json[p] != '[' {
      return "";
    }
    var e := FindArrayEnd(json, p);
    r := if e == NPOS then "" else json[p..e];
  }
}
