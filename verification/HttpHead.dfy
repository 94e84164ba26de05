/** The request-head parser of daemon/control_socket_pure.cpp. A character stands for a byte. */
module HttpHead {
  import opened Text
  import opened Lines

  const CRLF := "\r\n"
  const EMPTY_LINE := "\r\n\r\n"
  const MAX_BODY := 65536

  datatype Error =
    | NoRequestLine | LongRequestLine | NoMethod | NoPath | BadMethod | BadPath | BadVersion
    | NotTerminated | LongHeader | NoColon | LengthEmpty | LengthNotNumeric | LengthTooLarge | Truncated

  datatype Parsed = Bad(error: Error) | Head(verb: string, path: string, contentLength: nat)

  // ---------- One line ----------

  predicate IsLetter(c: char) { 'A' <= c <= 'Z' || 'a' <= c <= 'z' }

  /** methodLooksValid. */
  predicate ValidMethod(m: string) { 0 < |m| <= 16 && forall i :: 0 <= i < |m| ==> IsLetter(m[i]) }

  /** pathLooksValid. */
  predicate ValidPath(p: string) {
    0 < |p| <= 1024 && p[0] == '/' && forall i :: 0 <= i < |p| ==> '!' <= p[i] <= '~'
  }

  predicate ValidVersion(v: string) { v == "HTTP/1.0" || v == "HTTP/1.1" }

  datatype RequestLine = BadRequest(error: Error) | Request(verb: string, path: string)

  function RequestOf(line: string): RequestLine {
    if |line| > 1024 + 32 then BadRequest(LongRequestLine)
    else
      var sp1 := Find(line, " ", 0);
      if sp1 == NPOS then BadRequest(NoMethod)
      else
        var sp2 := Find(line, " ", sp1 + 1);
        if sp2 == NPOS then BadRequest(NoPath)
        else CheckRequest(line[..sp1], line[sp1 + 1..sp2], line[sp2 + 1..])
  }

  function CheckRequest(verb: string, path: string, version: string): RequestLine {
    if !ValidMethod(verb) then BadRequest(BadMethod)
    else if !ValidPath(path) then BadRequest(BadPath)
    else if !ValidVersion(version) then BadRequest(BadVersion)
    else Request(verb, path)
  }

  datatype Header = Wrong(error: Error) | Ignored | Length(n: nat)

  function Lower(c: char): char {
    if 'A' <= c <= 'Z' then (c as int - 'A' as int + 'a' as int) as char else c
  }

  /** toLower. */
  function LowerAll(s: string): string { seq(|s|, i requires 0 <= i < |s| => Lower(s[i])) }

  predicate IsBlank(c: char) { c == ' ' || c == '\t' }

  function AfterBlanks(s: string, i: nat): (r: nat)
    requires i <= |s|
    ensures i <= r <= |s| && (forall k :: i <= k < r ==> IsBlank(s[k])) && (r < |s| ==> !IsBlank(s[r]))
    decreases |s| - i
  {
    if i < |s| && IsBlank(s[i]) then AfterBlanks(s, i + 1) else i
  }

  function LengthOf(value: string): Header {
    if value == "" then Wrong(LengthEmpty)
    else
      match ReadDigits(value, 0, |value|, 0, MAX_BODY)
      case None => Wrong(LengthTooLarge)
      case Some((n, j)) => if j < |value| then Wrong(LengthNotNumeric) else Length(n)
  }

  function HeaderOf(line: string): Header {
    if |line| > 4096 then Wrong(LongHeader)
    else
      var colon := Find(line, ":", 0);
      if colon == NPOS then Wrong(NoColon)
      else if LowerAll(line[..colon]) != "content-length" then Ignored
      else LengthOf(line[AfterBlanks(line, colon + 1)..])
  }

  // ---------- The scan ----------

  /** The header loop, with `judge` for what a line is. */
  function ScanHeaders(head: string, i: nat, verb: string, path: string, n: nat, judge: string -> Header): Parsed
    requires i <= |head|
    decreases |head| - i
  {
    if i == |head| then Bad(Truncated)
    else
      var e := Find(head, CRLF, i);
      if e == NPOS then Bad(NotTerminated)
      else if e == i then Head(verb, path, n)
      else
        match judge(head[i..e])
        case Wrong(x) => Bad(x)
        case Ignored => ScanHeaders(head, e + 2, verb, path, n, judge)
        case Length(k) => ScanHeaders(head, e + 2, verb, path, k, judge)
  }

  function ScanHead(head: string): Parsed {
    var eol := Find(head, CRLF, 0);
    if eol == NPOS then Bad(NoRequestLine)
    else
      match RequestOf(head[..eol])
      case BadRequest(x) => Bad(x)
      case Request(m, p) => ScanHeaders(head, eol + 2, m, p, 0, HeaderOf)
  }

  method ReadHeader(line: string) returns (h: Header)
    ensures h == HeaderOf(line)
  {
    if |line| > 4096 { return Wrong(LongHeader); }
    var colon := Find(line, ":", 0);
    if colon == NPOS { return Wrong(NoColon); }
    var name := LowerAll(line[..colon]);
    var v := colon + 1;
    while v < |line| && IsBlank(line[v])
      invariant colon < v <= |line| && AfterBlanks(line, colon + 1) == AfterBlanks(line, v)
    {
      v := v + 1;
    }
    if name != "content-length" { return Ignored; }
    h := ReadLength(line[v..]);
  }

  method ReadLength(value: string) returns (h: Header)
    ensures h == LengthOf(value)
  {
    if value == "" { return Wrong(LengthEmpty); }
    var n: nat := 0;
    for j := 0 to |value|
      invariant ReadDigits(value, 0, |value|, 0, MAX_BODY) == ReadDigits(value, j, |value|, n, MAX_BODY)
    {
      if !IsDigit(value[j]) { return Wrong(LengthNotNumeric); }
      n := n * 10 + DigitVal(value[j]);
      if n > MAX_BODY { return Wrong(LengthTooLarge); }
    }
    return Length(n);
  }

  /** The header loop. */
  method ParseHeaders(head: string, start: nat, request: RequestLine) returns (r: Parsed)
    requires start <= |head| && request.Request?
    ensures r == ScanHeaders(head, start, request.verb, request.path, 0, HeaderOf)
  {
    var i, n: nat := start, 0;
    while i < |head|
      invariant i <= |head|
      invariant ScanHeaders(head, start, request.verb, request.path, 0, HeaderOf)
        == ScanHeaders(head, i, request.verb, request.path, n, HeaderOf)
    {
      var e := Find(head, CRLF, i);
      if e == NPOS { return Bad(NotTerminated); }
      if e == i { return Head(request.verb, request.path, n); }
      var h := ReadHeader(head[i..e]);
      if h.Wrong? { return Bad(h.error); }
      if h.Length? { n := h.n; }
      i := e + 2;
    }
    return Bad(Truncated);
  }

  method ParseHttpHead(head: string) returns (r: Parsed)
    ensures r == ScanHead(head)
  {
    var eol := Find(head, CRLF, 0);
    if eol == NPOS { return Bad(NoRequestLine); }
    var request := RequestOf(head[..eol]);
    if request.BadRequest? { return Bad(request.error); }
    r := ParseHeaders(head, eol + 2, request);
  }

  // ---------- What a line must be ----------

  function RequestText(m: string, p: string, v: string): string { m + (" " + (p + (" " + v))) }

  /** One to 16 letters, by ASCII codes. */
  predicate MethodText(m: string) {
    1 <= |m| <= 16 && forall i :: 0 <= i < |m| ==> 65 <= m[i] as int <= 90 || 97 <= m[i] as int <= 122
  }

  /** A slash and up to 1023 more characters with the codes of visible ASCII. */
  predicate PathText(p: string) {
    1 <= |p| <= 1024 && p[0] == '/' && forall i :: 0 <= i < |p| ==> 33 <= p[i] as int <= 126
  }

  lemma MethodIff(m: string)
    ensures ValidMethod(m) <==> MethodText(m)
  {
  }

  lemma PathIff(p: string)
    ensures ValidPath(p) <==> PathText(p)
  {
  }

  /** A request line is accepted exactly when it is a method, a path and a version with single spaces. */
  lemma RequestIff(line: string, m: string, p: string)
    ensures RequestOf(line) == Request(m, p) <==>
      MethodText(m) && PathText(p) && line in {RequestText(m, p, "HTTP/1.0"), RequestText(m, p, "HTTP/1.1")}
  {
    MethodIff(m);
    PathIff(p);
    if RequestOf(line) == Request(m, p) {
      var v := RequestShape(line, m, p);
    } else if MethodText(m) && PathText(p) {
      RequestAccepts(m, p, "HTTP/1.0");
      RequestAccepts(m, p, "HTTP/1.1");
    }
  }

  /** Which lines are too long, whatever they hold. */
  lemma TooLongIff(line: string)
    ensures RequestOf(line) == BadRequest(LongRequestLine) <==> |line| > 1056
    ensures HeaderOf(line) == Wrong(LongHeader) <==> |line| > 4096
  {
  }

  lemma RequestShape(line: string, m: string, p: string) returns (v: string)
    requires RequestOf(line) == Request(m, p)
    ensures ValidMethod(m) && ValidPath(p) && ValidVersion(v) && line == RequestText(m, p, v)
  {
    var sp1 := Find(line, " ", 0);
    var sp2 := Find(line, " ", sp1 + 1);
    RequestParts(line);
    v := line[sp2 + 1..];
    CheckedParts(line[..sp1], line[sp1 + 1..sp2], v, m, p);
    CutTwice(line, sp1, sp2);
  }

  lemma RequestParts(line: string)
    requires RequestOf(line).Request?
    ensures var sp1 := Find(line, " ", 0);
      && At(line, " ", sp1)
      && var sp2 := Find(line, " ", sp1 + 1);
      && sp1 < sp2 && At(line, " ", sp2)
        && CheckRequest(line[..sp1], line[sp1 + 1..sp2], line[sp2 + 1..]) == RequestOf(line)
  {
  }

  lemma CheckedParts(verb: string, path: string, v: string, m: string, p: string)
    requires CheckRequest(verb, path, v) == Request(m, p)
    ensures verb == m && path == p && ValidMethod(m) && ValidPath(p) && ValidVersion(v)
  {
  }

  lemma CutTwice(s: string, a: nat, b: nat)
    requires At(s, " ", a) && a < b && At(s, " ", b)
    ensures s == RequestText(s[..a], s[a + 1..b], s[b + 1..])
  {
    CutAtSpace(s, a);
    var rest, k := s[a + 1..], b - a - 1;
    AtShift(s, a + 1, " ", k);
    CutAtSpace(rest, k);
    assert rest[..k] == s[a + 1..b] && rest[k + 1..] == s[b + 1..];
  }

  lemma CutAtSpace(s: string, k: nat)
    requires At(s, " ", k)
    ensures s == s[..k] + (" " + s[k + 1..])
  {
    assert s[k..k + 1] == " ";
    assert s == s[..k] + (s[k..k + 1] + s[k + 1..]);
  }

  /** The parts of a request line are found again. */
  lemma TextSpaces(m: string, p: string, v: string)
    requires NoSpace(m) && NoSpace(p)
    ensures var line, a, b := RequestText(m, p, v), |m|, |m| + 1 + |p|;
      && Find(line, " ", 0) == a && Find(line, " ", a + 1) == b
      && line[..a] == m && line[a + 1..b] == p && line[b + 1..] == v
  {
    var line, a, b := RequestText(m, p, v), |m|, |m| + 1 + |p|;
    var tail := p + (" " + v);
    FirstSpace(m, tail);
    FirstSpace(p, v);
    assert line[a + 1..] == tail;
    forall i | a + 1 <= i <= b ensures At(line, " ", i) <==> i == b { AtShift(line, a + 1, " ", i - a - 1); }
    FindIs(line, " ", a + 1, b);
    assert line[a + 1..b] == tail[..|p|] && line[b + 1..] == tail[|p| + 1..];
  }

  lemma FirstSpace(m: string, rest: string)
    requires NoSpace(m)
    ensures var s := m + (" " + rest);
      && Find(s, " ", 0) == |m| && s[..|m|] == m && s[|m| + 1..] == rest
      && forall i :: 0 <= i <= |m| ==> (At(s, " ", i) <==> i == |m|)
  {
    var s := m + (" " + rest);
    assert s[|m|..|m| + 1] == " ";
    forall i | 0 <= i < |m| ensures !At(s, " ", i) { assert s[i..i + 1][0] == m[i]; }
    FindIs(s, " ", 0, |m|);
  }

  lemma RequestAccepts(m: string, p: string, v: string)
    requires ValidMethod(m) && ValidPath(p) && ValidVersion(v)
    ensures RequestOf(RequestText(m, p, v)) == Request(m, p)
  {
    TextSpaces(m, p, v);
    assert CheckRequest(m, p, v) == Request(m, p);
  }

  /** A Content-Length value is accepted exactly when it is a digit string of at most 65536. */
  lemma LengthIff(value: string, n: nat)
    ensures LengthOf(value) == Length(n) <==> value != "" && AllDigits(value) && Value(value) == n && n <= MAX_BODY
  {
    if value != "" && AllDigits(value) && Value(value) <= MAX_BODY {
      assert value[0..|value|] == value;
      ReadDigitsWhole(value, 0, |value|, value, MAX_BODY);
    }
    if LengthOf(value) == Length(n) {
      assert value[..0] == "";
      AllRead(value, 0, 0, MAX_BODY);
    }
  }

  /** Without a colon a header is wrong; an empty, non-numeric or too large length is named as such. */
  lemma WrongHeaders(line: string, value: string)
    ensures |line| <= 4096 && ':' !in line ==> HeaderOf(line) == Wrong(NoColon)
    ensures LengthOf(value) == Wrong(LengthEmpty) <==> value == ""
    ensures AllDigits(value) && value != "" && Value(value) > 65536 ==> LengthOf(value) == Wrong(LengthTooLarge)
    ensures LengthOf(value) == Wrong(LengthNotNumeric) ==> !AllDigits(value)
    ensures !LengthOf(value).Ignored?
  {
    var colon := Find(line, ":", 0);
    if colon != NPOS {
      assert line[colon..colon + 1][0] == ':';
    }
    if AllDigits(value) && value != "" {
      assert value[..0] == "";
      if Value(value) > 65536 {
        DigitsOverflow(value, 0, 0, MAX_BODY);
      } else {
        LengthIff(value, Value(value));
      }
    }
  }

  lemma {:induction false} AllRead(s: string, i: nat, acc: nat, limit: nat)
    requires i <= |s| && AllDigits(s[..i]) && Value(s[..i]) == acc <= limit
    requires var r := ReadDigits(s, i, |s|, acc, limit); r.Some? && r.value.1 == |s|
    ensures AllDigits(s) && Value(s) == ReadDigits(s, i, |s|, acc, limit).value.0 <= limit
    decreases |s| - i
  {
    if i == |s| {
      assert s[..i] == s;
    } else {
      assert s[..i + 1][..i] == s[..i];
      AllRead(s, i + 1, acc * 10 + DigitVal(s[i]), limit);
    }
  }

  function HeaderText(name: string, blanks: string, value: string): string { name + (":" + (blanks + value)) }

  /** Of a header line only the name, in any case, and the value behind the blanks count. */
  lemma HeaderReads(name: string, blanks: string, value: string)
    requires (forall k :: 0 <= k < |name| ==> name[k] != ':') && (forall k :: 0 <= k < |blanks| ==> IsBlank(blanks[k]))
    requires (value == "" || !IsBlank(value[0])) && |HeaderText(name, blanks, value)| <= 4096
    ensures HeaderOf(HeaderText(name, blanks, value)) ==
      if LowerAll(name) == "content-length" then LengthOf(value) else Ignored
  {
    var line, c := HeaderText(name, blanks, value), |name|;
    assert line[..c] == name && line[c..c + 1] == ":";
    forall i | 0 <= i < c ensures !At(line, ":", i) {
      assert line[i..i + 1][0] == name[i];
    }
    FindIs(line, ":", 0, c);
    var t := c + 1 + |blanks|;
    assert forall k :: c + 1 <= k < t ==> line[k] == blanks[k - c - 1];
    assert line[t..] == value;
    var a := AfterBlanks(line, c + 1);
    assert t < |line| ==> line[t] == value[0];
    assert a == t;
  }

  // ---------- Content-Length in any case ----------

  /** `c` is the letter `l`, small or capital, or the very character. */
  predicate CaseOf(c: char, l: char) { c == l || ('a' <= l <= 'z' && c as int + 32 == l as int) }

  /** Letter by letter up to case. */
  predicate NameIs(name: string, small: string) {
    |name| == |small| && forall i :: 0 <= i < |small| ==> CaseOf(name[i], small[i])
  }

  predicate NoCapitals(s: string) { forall i :: 0 <= i < |s| ==> !('A' <= s[i] <= 'Z') }

  lemma LowerIff(c: char, l: char)
    requires !('A' <= l <= 'Z')
    ensures Lower(c) == l <==> CaseOf(c, l)
  {
  }

  lemma FoldedIff(name: string, small: string)
    requires NoCapitals(small)
    ensures LowerAll(name) == small <==> NameIs(name, small)
  {
    var folded := LowerAll(name);
    if |name| == |small| {
      forall i | 0 <= i < |small| ensures folded[i] == small[i] <==> CaseOf(name[i], small[i]) {
        LowerIff(name[i], small[i]);
      }
    }
  }

  predicate NoColons(name: string) { forall k :: 0 <= k < |name| ==> name[k] != ':' }

  predicate Blank(s: string) { forall k :: 0 <= k < |s| ==> s[k] == ' ' || s[k] == '\t' }

  const CONTENT_LENGTH := "content-length"

  /** A header of that name in any case declares the decimal number behind the blanks, up to 65536. */
  lemma ContentLengthDeclares(name: string, blanks: string, n: nat)
    requires NameIs(name, CONTENT_LENGTH) && Blank(blanks) && |HeaderText(name, blanks, Dec(n))| <= 4096
    ensures HeaderOf(HeaderText(name, blanks, Dec(n))) == if n <= 65536 then Length(n) else Wrong(LengthTooLarge)
  {
    FoldedIff(name, CONTENT_LENGTH);
    forall k | 0 <= k < |name| ensures name[k] != ':' {
      assert CaseOf(name[k], CONTENT_LENGTH[k]);
    }
    assert IsDigit(Dec(n)[0]);
    HeaderReads(name, blanks, Dec(n));
    DecLength(n);
  }

  lemma DecLength(n: nat)
    ensures LengthOf(Dec(n)) == if n <= 65536 then Length(n) else Wrong(LengthTooLarge)
  {
    var d := Dec(n);
    DecValue(n);
    LengthIff(d, n);
    if n > 65536 {
      assert d[..0] == "";
      DigitsOverflow(d, 0, 0, MAX_BODY);
    }
  }

  /** Digits of a value above the limit are given up on. */
  lemma {:induction false} DigitsOverflow(s: string, i: nat, acc: nat, limit: nat)
    requires i <= |s| && AllDigits(s) && Value(s[..i]) == acc <= limit < Value(s)
    ensures ReadDigits(s, i, |s|, acc, limit).None?
    decreases |s| - i
  {
    assert s[..|s|] == s;
    if i < |s| {
      assert s[..i + 1][..i] == s[..i];
      if acc * 10 + DigitVal(s[i]) <= limit {
        DigitsOverflow(s, i + 1, acc * 10 + DigitVal(s[i]), limit);
      }
    }
  }

  /** A header of any other name. */
  ghost predicate OtherHeader(line: string) {
    exists name, rest :: line == name + (":" + rest) && NoColons(name) && !NameIs(name, CONTENT_LENGTH)
  }

  lemma OtherNameIgnored(line: string)
    requires OtherHeader(line) && |line| <= 4096
    ensures HeaderOf(line) == Ignored
  {
    var name, rest :| line == name + (":" + rest) && NoColons(name) && !NameIs(name, CONTENT_LENGTH);
    var c := |name|;
    assert line[..c] == name && line[c..c + 1] == ":";
    forall i | 0 <= i < c ensures !At(line, ":", i) {
      assert line[i..i + 1][0] == name[i];
    }
    FindIs(line, ":", 0, c);
    FoldedIff(name, CONTENT_LENGTH);
  }

  lemma {:induction false} OthersIgnored(headers: seq<string>, default: nat)
    requires forall k :: 0 <= k < |headers| ==> HeaderOf(headers[k]) == Ignored
    ensures FirstWrong(headers, HeaderOf).None? && LastLength(headers, default, HeaderOf) == default
  {
    if headers != [] {
      LastLengthFirst(headers, default, HeaderOf);
      OthersIgnored(headers[1..], default);
    }
  }

  /** One declaring header among others that do not. */
  lemma {:induction false} OneDeclares(before: seq<string>, line: string, after: seq<string>, n: nat, default: nat)
    requires forall k :: 0 <= k < |before| ==> HeaderOf(before[k]) == Ignored
    requires forall k :: 0 <= k < |after| ==> HeaderOf(after[k]) == Ignored
    requires HeaderOf(line) == Length(n)
    ensures var headers := before + [line] + after;
      FirstWrong(headers, HeaderOf).None? && LastLength(headers, default, HeaderOf) == n
    decreases |before|
  {
    var headers := before + [line] + after;
    LastLengthFirst(headers, default, HeaderOf);
    if before == [] {
      assert headers[1..] == after;
      OthersIgnored(after, n);
    } else {
      assert headers[1..] == before[1..] + [line] + after;
      OneDeclares(before[1..], line, after, n, default);
    }
  }

  // ---------- The scan reads lines ----------

  predicate CrlfFree(s: string) { forall i :: 0 <= i < |s| - 1 ==> !(s[i] == '\r' && s[i + 1] == '\n') }

  predicate HeaderLines(headers: seq<string>) {
    forall k :: 0 <= k < |headers| ==> headers[k] != "" && CrlfFree(headers[k])
  }

  /** Header lines and the empty line that ends them. */
  function Tail(headers: seq<string>): string {
    if headers == [] then CRLF else headers[0] + (CRLF + Tail(headers[1..]))
  }

  function Block(request: string, headers: seq<string>): string { request + (CRLF + Tail(headers)) }

  function FirstWrong(headers: seq<string>, judge: string -> Header): Option<Error> {
    if headers == [] then None
    else if judge(headers[0]).Wrong? then Some(judge(headers[0]).error)
    else FirstWrong(headers[1..], judge)
  }

  /** What the last Content-Length header says, or `default` without one. */
  function LastLength(headers: seq<string>, default: nat, judge: string -> Header): nat {
    if headers == [] then default
    else
      var last := judge(headers[|headers| - 1]);
      if last.Length? then last.n else LastLength(headers[..|headers| - 1], default, judge)
  }

  /** A line ends at its CRLF. */
  lemma LineEnd(head: string, i: nat, line: string, rest: string)
    requires i <= |head| && head[i..] == line + (CRLF + rest) && CrlfFree(line)
    ensures Find(head, CRLF, i) == i + |line| && head[i..i + |line|] == line
    ensures i + |line| + 2 <= |head| && head[i + |line| + 2..] == rest
  {
    var t, k := head[i..], i + |line|;
    assert forall j :: 0 <= j < |t| ==> head[i + j] == t[j];
    assert head[k..k + 2] == t[|line|..|line| + 2] == CRLF;
    forall j | i <= j < k ensures !At(head, CRLF, j) {
      AtChars(head, CRLF, j);
      assert CRLF[0] == '\r' && CRLF[1] == '\n';
      assert head[j + 0] == t[j - i] && head[j + 1] == t[j - i + 1];
    }
    FindIs(head, CRLF, i, k);
    assert head[i..k] == t[..|line|];
    assert head[k + 2..] == t[|line| + 2..];
  }

  lemma {:induction false} LastLengthFirst(headers: seq<string>, default: nat, judge: string -> Header)
    requires headers != []
    ensures var h := judge(headers[0]);
      LastLength(headers, default, judge) == LastLength(headers[1..], if h.Length? then h.n else default, judge)
  {
    var n := |headers| - 1;
    if n > 0 {
      LastLengthFirst(headers[..n], default, judge);
      assert headers[..n][1..] == headers[1..][..n - 1];
      assert headers[1..][n - 1] == headers[n];
    } else {
      assert headers[1..] == [] && headers[..0] == [];
    }
  }

  /** One header line of the scan. */
  lemma {:induction false} ScanLine(
    head: string, i: nat, line: string, rest: string, m: string, p: string, n: nat, judge: string -> Header)
    requires i <= |head| && head[i..] == line + (CRLF + rest) && CrlfFree(line)
    ensures var h, j := judge(line), i + |line| + 2;
      && j <= |head| && head[j..] == rest
      && ScanHeaders(head, i, m, p, n, judge) ==
         if line == "" then Head(m, p, n) else if h.Wrong? then Bad(h.error)
         else ScanHeaders(head, j, m, p, NextLength(h, n), judge)
  {
    LineEnd(head, i, line, rest);
  }

  function Verdict(headers: seq<string>, m: string, p: string, n: nat, judge: string -> Header): Parsed {
    var wrong := FirstWrong(headers, judge);
    if wrong.Some? then Bad(wrong.value) else Head(m, p, LastLength(headers, n, judge))
  }

  lemma {:induction false} VerdictFirst(headers: seq<string>, m: string, p: string, n: nat, judge: string -> Header)
    requires headers != []
    ensures var h := judge(headers[0]);
      Verdict(headers, m, p, n, judge) ==
      if h.Wrong? then Bad(h.error) else Verdict(headers[1..], m, p, NextLength(h, n), judge)
  {
    LastLengthFirst(headers, n, judge);
  }

  lemma {:induction false} ScanEnds(head: string, i: nat, m: string, p: string, n: nat, judge: string -> Header)
    requires i <= |head| && head[i..] == Tail([])
    ensures ScanHeaders(head, i, m, p, n, judge) == Head(m, p, n)
  {
    assert head[i..] == "" + (CRLF + "");
    ScanLine(head, i, "", "", m, p, n, judge);
  }

  function NextLength(h: Header, n: nat): nat { if h.Length? then h.n else n }

  /** One line in front of a scan that is already accounted for. */
  lemma {:induction false} ScanCons(
    head: string, i: nat, headers: seq<string>, rest: string, m: string, p: string, n: nat, judge: string -> Header)
    requires headers != [] && headers[0] != "" && CrlfFree(headers[0])
    requires i <= |head| && head[i..] == headers[0] + (CRLF + rest)
    requires var h, j := judge(headers[0]), i + |headers[0]| + 2;
      !h.Wrong? && j <= |head| ==>
      ScanHeaders(head, j, m, p, NextLength(h, n), judge) == Verdict(headers[1..], m, p, NextLength(h, n), judge)
    ensures ScanHeaders(head, i, m, p, n, judge) == Verdict(headers, m, p, n, judge)
  {
    VerdictFirst(headers, m, p, n, judge);
    ScanLine(head, i, headers[0], rest, m, p, n, judge);
  }

  lemma {:induction false} NextLine(head: string, i: nat, headers: seq<string>) returns (rest: string, j: nat)
    requires i <= |head| && head[i..] == Tail(headers) && headers != [] && CrlfFree(headers[0])
    ensures rest == Tail(headers[1..]) && head[i..] == headers[0] + (CRLF + rest)
    ensures j == i + |headers[0]| + 2 <= |head| && head[j..] == rest
  {
    rest, j := Tail(headers[1..]), i + |headers[0]| + 2;
    LineEnd(head, i, headers[0], rest);
  }

  /** From `i` on, the head is these header lines. */
  ghost predicate ReadsAt(head: string, i: nat, headers: seq<string>) {
    i <= |head| && head[i..] == Tail(headers) && HeaderLines(headers)
  }

  /** What holds from the next line on holds from this one on. */
  ghost predicate LineStep(head: string, judge: string -> Header, agree: (nat, seq<string>, nat) -> bool,
      i: nat, headers: seq<string>, n: nat) {
    headers != [] && ReadsAt(head, i, headers)
    && agree(i + |headers[0]| + 2, headers[1..], NextLength(judge(headers[0]), n))
    ==> agree(i, headers, n)
  }

  lemma {:induction false} LineByLine(head: string, judge: string -> Header, agree: (nat, seq<string>, nat) -> bool,
      i: nat, headers: seq<string>, n: nat)
    requires ReadsAt(head, i, headers)
    requires forall j, k :: ReadsAt(head, j, []) ==> agree(j, [], k)
    requires forall j, hs, k :: LineStep(head, judge, agree, j, hs, k)
    ensures agree(i, headers, n)
    decreases |headers|
  {
    if headers != [] {
      var rest, j := NextLine(head, i, headers);
      LineByLine(head, judge, agree, j, headers[1..], NextLength(judge(headers[0]), n));
      assert LineStep(head, judge, agree, i, headers, n);
    }
  }

  lemma {:induction false} ScanReadsHeaders(
    head: string, i: nat, headers: seq<string>, m: string, p: string, n: nat, judge: string -> Header)
    requires i <= |head| && head[i..] == Tail(headers) && HeaderLines(headers)
    ensures ScanHeaders(head, i, m, p, n, judge) == Verdict(headers, m, p, n, judge)
  {
    var agree := (j: nat, hs: seq<string>, k: nat) =>
      j <= |head| && ScanHeaders(head, j, m, p, k, judge) == Verdict(hs, m, p, k, judge);
    forall j, k | ReadsAt(head, j, []) ensures agree(j, [], k) {
      ScanEnds(head, j, m, p, k, judge);
    }
    forall j: nat, hs: seq<string>, k: nat ensures LineStep(head, judge, agree, j, hs, k) {
      if hs != [] && ReadsAt(head, j, hs) && agree(j + |hs[0]| + 2, hs[1..], NextLength(judge(hs[0]), k)) {
        ScanCons(head, j, hs, Tail(hs[1..]), m, p, k, judge);
      }
    }
    LineByLine(head, judge, agree, i, headers, n);
  }

  function Declared(request: string, headers: seq<string>): Parsed {
    match RequestOf(request)
    case BadRequest(e) => Bad(e)
    case Request(m, p) => Verdict(headers, m, p, 0, HeaderOf)
  }

  /** The index scan judges the request line, then the first wrong header, then takes the last Content-Length. */
  lemma ScanIsDeclared(request: string, headers: seq<string>)
    requires CrlfFree(request) && HeaderLines(headers)
    ensures ScanHead(Block(request, headers)) == Declared(request, headers)
  {
    var head := Block(request, headers);
    assert head[0..] == head;
    LineEnd(head, 0, request, Tail(headers));
    assert head[0..|request|] == head[..|request|];
    var r := RequestOf(request);
    if r.Request? {
      ScanReadsHeaders(head, |request| + 2, headers, r.verb, r.path, 0, HeaderOf);
    }
  }

  // ---------- Blocks are what an empty line ends ----------

  predicate Eol(s: string, i: int) { 0 <= i && i + 2 <= |s| && s[i] == '\r' && s[i + 1] == '\n' }

  lemma EolIsAt(s: string, i: int)
    ensures At(s, CRLF, i) <==> Eol(s, i)
    ensures At(s, EMPTY_LINE, i) <==> Eol(s, i) && Eol(s, i + 2)
  {
    assert CRLF == ['\r', '\n'] && EMPTY_LINE == ['\r', '\n', '\r', '\n'];
    if 0 <= i && i + 2 <= |s| {
      assert s[i..i + 2] == [s[i], s[i + 1]];
    }
    if 0 <= i && i + 4 <= |s| {
      assert s[i..i + 4] == [s[i], s[i + 1], s[i + 2], s[i + 3]];
    }
  }

  /** A line before CRLF has no earlier end. */
  lemma LineEols(s: string, line: string, rest: string, i: int)
    requires s == line + (CRLF + rest) && CrlfFree(line)
    ensures i <= |line| + 1 ==> (Eol(s, i) <==> i == |line|)
    ensures i >= |line| + 2 ==> (Eol(s, i) <==> Eol(rest, i - |line| - 2))
  {
    assert forall k :: 0 <= k < |line| ==> s[k] == line[k];
    assert s[|line|] == '\r' && s[|line| + 1] == '\n';
    assert forall k :: 0 <= k < |rest| ==> s[|line| + 2 + k] == rest[k];
    if i >= |line| + 2 && i + 2 <= |s| {
      var k := i - |line| - 2;
      assert s[|line| + 2 + k] == rest[k] && s[|line| + 2 + (k + 1)] == rest[k + 1];
    }
  }

  lemma {:induction false} TailEols(headers: seq<string>, body: string, i: nat)
    requires HeaderLines(headers)
    ensures var t := Tail(headers) + body;
      && |Tail(headers)| >= 2
      && (Eol(t, 0) <==> headers == [])
      && Eol(t, |Tail(headers)| - 2) && (headers != [] ==> |Tail(headers)| >= 4 && Eol(t, |Tail(headers)| - 4))
      && (i + 4 < |Tail(headers)| ==> !(Eol(t, i) && Eol(t, i + 2)))
  {
    var t := Tail(headers) + body;
    if headers == [] {
      assert t[0] == '\r' && t[1] == '\n';
    } else {
      var line, rest := headers[0], Tail(headers[1..]) + body;
      assert t == line + (CRLF + rest);
      var j: nat := if i >= |line| + 2 then i - |line| - 2 else 0;
      TailEols(headers[1..], body, j);
      LineEols(t, line, rest, 0);
      LineEols(t, line, rest, |line|);
      LineEols(t, line, rest, i);
      LineEols(t, line, rest, i + 2);
      LineEols(t, line, rest, |Tail(headers)| - 2);
      LineEols(t, line, rest, |Tail(headers)| - 4);
    }
  }

  /** Whatever follows it, a block runs up to the first empty line. */
  lemma BlockEnds(request: string, headers: seq<string>, body: string)
    requires CrlfFree(request) && HeaderLines(headers)
    ensures Find(Block(request, headers) + body, EMPTY_LINE, 0) + 4 == |Block(request, headers)|
  {
    var s, rest, n := Block(request, headers) + body, Tail(headers) + body, |Block(request, headers)| - 4;
    assert s == request + (CRLF + rest);
    TailEols(headers, body, 0);
    LineEols(s, request, rest, n);
    LineEols(s, request, rest, n + 2);
    EolIsAt(s, n);
    forall i | 0 <= i < n ensures !At(s, EMPTY_LINE, i) {
      EolIsAt(s, i);
      LineEols(s, request, rest, i);
      LineEols(s, request, rest, i + 2);
      TailEols(headers, body, if i >= |request| + 2 then i - |request| - 2 else 0);
    }
    FindIs(s, EMPTY_LINE, 0, n);
  }

  /** A text that ends at its first empty line. */
  predicate EndsOnce(s: string) {
    Eol(s, |s| - 4) && Eol(s, |s| - 2) && forall i :: 0 <= i < |s| - 4 ==> !(Eol(s, i) && Eol(s, i + 2))
  }

  /** The first line of such a text, and the rest. */
  lemma FirstLine(s: string) returns (line: string, rest: string)
    requires EndsOnce(s)
    ensures s == line + (CRLF + rest) && CrlfFree(line)
    ensures rest == CRLF || (EndsOnce(rest) && !Eol(rest, 0))
  {
    EolIsAt(s, |s| - 4);
    var k := Find(s, CRLF, 0);
    line, rest := s[..k], s[k + 2..];
    assert s[k..k + 2] == CRLF;
    assert s == line + (CRLF + rest);
    forall i | 0 <= i < |line| - 1 ensures !(line[i] == '\r' && line[i + 1] == '\n') { EolIsAt(s, i); }
    RestEndsOnce(s, line, rest);
  }

  lemma RestEndsOnce(s: string, line: string, rest: string)
    requires EndsOnce(s) && s == line + (CRLF + rest) && CrlfFree(line)
    ensures rest == CRLF || (EndsOnce(rest) && !Eol(rest, 0))
  {
    var k := |line|;
    LineEols(s, line, rest, k);
    LineEols(s, line, rest, k + 2);
    LineEols(s, line, rest, |s| - 4);
    LineEols(s, line, rest, |s| - 2);
    if Eol(rest, 0) {
      assert |rest| == 2;
    } else {
      forall i | 0 <= i < |rest| - 4 ensures !(Eol(rest, i) && Eol(rest, i + 2)) {
        LineEols(s, line, rest, k + 2 + i);
        LineEols(s, line, rest, k + 2 + i + 2);
      }
    }
  }

  lemma {:induction false} SplitTail(s: string) returns (headers: seq<string>)
    requires s == CRLF || (EndsOnce(s) && !Eol(s, 0))
    ensures s == Tail(headers) && HeaderLines(headers)
    decreases |s|
  {
    if s == CRLF {
      headers := [];
    } else {
      var line, rest := FirstLine(s);
      var more := SplitTail(rest);
      LineEols(s, line, rest, 0);
      headers := [line] + more;
      assert headers[1..] == more;
    }
  }

  /** Every text that ends at its first empty line is a block: so the parse of it is the declared one. */
  lemma EveryHeadIsBlock(s: string) returns (request: string, headers: seq<string>)
    requires Find(s, EMPTY_LINE, 0) != NPOS && Find(s, EMPTY_LINE, 0) + 4 == |s|
    ensures CrlfFree(request) && HeaderLines(headers) && s == Block(request, headers)
    ensures ScanHead(s) == Declared(request, headers)
  {
    forall i | 0 <= i <= |s| - 4 ensures Eol(s, i) && Eol(s, i + 2) <==> i == |s| - 4 { EolIsAt(s, i); }
    assert Eol(s, |s| - 4 + 2);
    var rest;
    request, rest := FirstLine(s);
    headers := SplitTail(rest);
    ScanIsDeclared(request, headers);
  }

  /** The errors about a block that is not one. */
  predicate Structural(e: Error) { e == Truncated || e == NotTerminated || e == NoRequestLine }

  lemma {:induction false} WrongIsNotStructural(headers: seq<string>)
    ensures var w := FirstWrong(headers, HeaderOf); w.Some? ==> !Structural(w.value)
  {
    if headers != [] { WrongIsNotStructural(headers[1..]); }
  }

  lemma RequestIsNotStructural(line: string)
    ensures RequestOf(line).BadRequest? ==> !Structural(RequestOf(line).error)
  {
  }

  /** On a head cut at its first empty line these errors cannot occur. */
  lemma StructuralErrorsUnreachable(s: string)
    requires Find(s, EMPTY_LINE, 0) != NPOS && Find(s, EMPTY_LINE, 0) + 4 == |s|
    ensures ScanHead(s).Bad? ==> !Structural(ScanHead(s).error)
  {
    var request, headers := EveryHeadIsBlock(s);
    WrongIsNotStructural(headers);
    RequestIsNotStructural(request);
  }

  lemma {:induction false} LengthWithin(headers: seq<string>)
    ensures LastLength(headers, 0, HeaderOf) <= MAX_BODY
  {
    if headers != [] {
      LengthWithin(headers[..|headers| - 1]);
      var line := headers[|headers| - 1];
      if HeaderOf(line).Length? {
        LengthIff(line[AfterBlanks(line, Find(line, ":", 0) + 1)..], HeaderOf(line).n);
      }
    }
  }

  /** An accepted head declares at most 65536 bytes of body. */
  lemma BodyIsCapped(s: string)
    requires Find(s, EMPTY_LINE, 0) != NPOS && Find(s, EMPTY_LINE, 0) + 4 == |s|
    ensures ScanHead(s).Head? ==> ScanHead(s).contentLength <= MAX_BODY
  {
    var request, headers := EveryHeadIsBlock(s);
    LengthWithin(headers);
  }
}
