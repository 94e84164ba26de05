/** The port-forward rules of lib/auto_fw_pure.cpp: their text and the search for a taken host port. */
module RdrRules {
  import opened Text
  import opened Lines

  const PORT_MAX := 65535

  // ---------- Reading rules ----------

  datatype HostPort = HostPort(proto: string, lo: nat, hi: nat)

  function SkipSpaces(line: string, i: nat, end: nat): (r: nat)
    requires i <= end <= |line|
    ensures i <= r <= end
    decreases end - i
  {
    if i < end && line[i] == ' ' then SkipSpaces(line, i + 1, end) else i
  }

  /** The port token at `i`, before `end`: a number, or two around a colon in either order. */
  function PortRange(line: string, i: nat, end: nat): (r: Option<(nat, nat)>)
    requires i <= end <= |line|
    ensures r.Some? ==> r.value.0 <= r.value.1 <= 65535
  {
    match PortNumber(line, i, end)
    case None => None
    case Some((a, j)) =>
      if j < end && line[j] == ':' then
        match PortNumber(line, j + 1, end)
        case None => None
        case Some((b, _)) => Some(if b < a then (b, a) else (a, b))
      else Some((a, a))
  }

  /** At least one digit. */
  function PortNumber(line: string, i: nat, end: nat): (r: Option<(nat, nat)>)
    requires i <= end <= |line|
    ensures r.Some? ==> r.value.0 <= PORT_MAX && i < r.value.1 <= end
  {
    DigitsWithin(line, i, end, 0, PORT_MAX);
    match ReadDigits(line, i, end, 0, PORT_MAX)
    case None => None
    case Some((n, j)) => if j == i then None else Some((n, j))
  }

  lemma {:induction false} DigitsWithin(s: string, i: nat, end: nat, acc: nat, limit: nat)
    requires i <= end <= |s| && acc <= limit
    ensures var r := ReadDigits(s, i, end, acc, limit); r.Some? ==> r.value.0 <= limit
    decreases end - i
  {
    if i < end && IsDigit(s[i]) && acc * 10 + DigitVal(s[i]) <= limit {
      DigitsWithin(s, i + 1, end, acc * 10 + DigitVal(s[i]), limit);
    }
  }

  function ProtoOf(line: string): Option<string> {
    if Find(line, "proto tcp", 0) != NPOS then Some("tcp")
    else if Find(line, "proto udp", 0) != NPOS then Some("udp")
    else None
  }

  /** Past spaces and an optional equals sign. */
  function TokenFrom(line: string, i: nat, end: nat): (r: nat)
    requires i <= end <= |line|
    ensures i <= r <= end
  {
    var j := SkipSpaces(line, i, end);
    if j < end && line[j] == '=' then SkipSpaces(line, j + 1, end) else j
  }

  function ReadRule(line: string): Option<HostPort> {
    var arrow, proto, p := Find(line, "->", 0), ProtoOf(line), Find(line, " port ", 0);
    // A host port that would start past the arrow has no digits before it.
    if Find(line, "rdr", 0) == NPOS || arrow == NPOS || proto.None? || p == NPOS || p + 6 > arrow then None
    else
      match PortRange(line, TokenFrom(line, p + 6, arrow), arrow)
      case None => None
      case Some((lo, hi)) => Some(HostPort(proto.value, lo, hi))
  }

  function ReadRules(lines: seq<string>): seq<HostPort> {
    if lines == [] then []
    else
      var before, last := ReadRules(lines[..|lines| - 1]), ReadRule(DropCr(lines[|lines| - 1]));
      if last.Some? then before + [last.value] else before
  }

  method SkipSpacesLoop(line: string, from: nat, end: nat) returns (i: nat)
    requires from <= end <= |line|
    ensures i == SkipSpaces(line, from, end)
  {
    i := from;
    while i < end && line[i] == ' '
      invariant from <= i <= end && SkipSpaces(line, from, end) == SkipSpaces(line, i, end)
    {
      i := i + 1;
    }
  }

  method ParsePortRange(line: string, start: nat, arrow: nat) returns (r: Option<(nat, nat)>)
    requires start <= arrow <= |line|
    ensures r == PortRange(line, start, arrow)
  {
    var first := ReadNumber(line, start, arrow, PORT_MAX);
    if first.None? || first.value.1 == start { return None; }
    var i, lo, hi := first.value.1, first.value.0, first.value.0;
    if i < arrow && line[i] == ':' {
      var second := ReadNumber(line, i + 1, arrow, PORT_MAX);
      if second.None? || second.value.1 == i + 1 { return None; }
      hi := second.value.0;
    }
    if hi < lo { lo, hi := hi, lo; }
    return Some((lo, hi));
  }

  method ParseHostPort(line: string, start: nat, arrow: nat) returns (r: Option<(nat, nat)>)
    requires start <= arrow <= |line|
    ensures r == PortRange(line, TokenFrom(line, start, arrow), arrow)
  {
    var i := SkipSpacesLoop(line, start, arrow);
    if i < arrow && line[i] == '=' {
      i := SkipSpacesLoop(line, i + 1, arrow);
    }
    r := ParsePortRange(line, i, arrow);
  }

  /** One line of the loop of parseRdrHostPorts. */
  method ParseRdrLine(line: string) returns (r: Option<HostPort>)
    ensures r == ReadRule(line)
  {
    if Find(line, "rdr", 0) == NPOS { return None; }
    var arrow := Find(line, "->", 0);
    if arrow == NPOS { return None; }
    var proto := ProtoOf(line);
    if proto.None? { return None; }
    var p := Find(line, " port ", 0);
    if p == NPOS || p + 6 > arrow { return None; }
    var range := ParseHostPort(line, p + 6, arrow);
    return if range.None? then None else Some(HostPort(proto.value, range.value.0, range.value.1));
  }

  lemma {:induction false} ReadRulesStep(lines: seq<string>, i: nat)
    requires i < |lines|
    ensures var last := ReadRule(DropCr(lines[i]));
      ReadRules(lines[..i + 1]) == if last.Some? then ReadRules(lines[..i]) + [last.value] else ReadRules(lines[..i])
  {
    assert lines[..i + 1][..i] == lines[..i];
  }

  method ParseRdrHostPorts(output: string) returns (ports: seq<HostPort>)
    ensures ports == ReadRules(SplitLines(output))
  {
    ports := [];
    var lines := ReadLines(output);
    for i := 0 to |lines|
      invariant ports == ReadRules(lines[..i])
    {
      ReadRulesStep(lines, i);
      var port := ParseRdrLine(DropCr(lines[i]));
      if port.Some? {
        ports := ports + [port.value];
      }
    }
    assert lines[..|lines|] == lines;
  }

  /** The port lies between the two, whichever is larger. */
  predicate Between(x: nat, a: nat, b: nat) { a <= x <= b || b <= x <= a }

  /** Some port is in both the request and a range of the same protocol. */
  ghost predicate Clashes(t: HostPort, proto: string, lo: nat, hi: nat) {
    t.proto == proto && exists x: nat :: Between(x, t.lo, t.hi) && Between(x, lo, hi)
  }

  /** The test the loop makes, after it has put the request's ends in order. */
  predicate Overlaps(t: HostPort, proto: string, lo: nat, hi: nat) {
    t.proto == proto && t.lo <= (if hi < lo then lo else hi) && (if hi < lo then hi else lo) <= t.hi
  }

  lemma ClashIsOverlap(t: HostPort, proto: string, lo: nat, hi: nat)
    requires t.lo <= t.hi
    ensures Clashes(t, proto, lo, hi) <==> Overlaps(t, proto, lo, hi)
  {
    var l, h := if hi < lo then hi else lo, if hi < lo then lo else hi;
    if Overlaps(t, proto, lo, hi) {
      var x := if t.lo < l then l else t.lo;
      assert Between(x, t.lo, t.hi) && Between(x, lo, hi);
    }
  }

  method RdrHostPortTaken(ports: seq<HostPort>, proto: string, lo: nat, hi: nat) returns (taken: bool)
    ensures taken <==> exists i :: 0 <= i < |ports| && Overlaps(ports[i], proto, lo, hi)
  {
    var lo', hi' := lo, hi;
    if hi < lo { lo', hi' := hi, lo; }
    for i := 0 to |ports|
      invariant forall j :: 0 <= j < i ==> !Overlaps(ports[j], proto, lo, hi)
    {
      var t := ports[i];
      if t.proto == proto && t.lo <= hi' && lo' <= t.hi { return true; }
    }
    return false;
  }

  // ---------- Printing rules ----------

  /** `spelled` is the "port = N" in which `pfctl -sn` gives a single host port. */
  datatype Rule = Rule(
    iface: string, proto: string, hostLo: nat, hostHi: nat,
    addr: string, jailLo: nat, jailHi: nat, spelled: bool)

  predicate IfaceChar(c: char) { 'a' <= c <= 'z' || 'A' <= c <= 'Z' || IsDigit(c) || c == '.' || c == '_' }
  predicate AddrChar(c: char) { IsDigit(c) || c == '.' || c == '/' }

  /** The characters validateExternalIface and validateRuleAddress admit, validateProto and validatePort's bound. */
  predicate ValidRule(r: Rule) {
    && 0 < |r.iface| && (forall k :: 0 <= k < |r.iface| ==> IfaceChar(r.iface[k]))
    && (r.proto == "tcp" || r.proto == "udp")
    && r.hostLo <= 65535 && r.hostHi <= 65535
    && forall k :: 0 <= k < |r.addr| ==> AddrChar(r.addr[k])
  }

  /** formatPortToken. */
  function PortToken(lo: nat, hi: nat): string { if lo == hi then Dec(lo) else Dec(lo) + ":" + Dec(hi) }

  function HostPart(r: Rule): seq<string> {
    (if r.spelled then ["="] else []) + [PortToken(r.hostLo, r.hostHi)]
  }

  function RuleHead(r: Rule): seq<string> {
    ["rdr", "on", r.iface, "inet", "proto", r.proto, "from", "any", "to", "(" + r.iface + ")", "port"]
  }

  function RuleWords(r: Rule): seq<string> {
    RuleHead(r) + HostPart(r) + ["->", r.addr, "port", PortToken(r.jailLo, r.jailHi)]
  }

  /** formatRdrRule, when not `spelled`. */
  function RuleText(r: Rule): string { Join(RuleWords(r)) }

  /** The words of a rule as the daemon writes it and, with the equals sign, as pfctl gives it back. */
  lemma RuleWordsAre(r: Rule)
    ensures RuleWords(r) ==
      ["rdr", "on", r.iface, "inet", "proto", r.proto, "from", "any", "to", "(" + r.iface + ")", "port"]
      + (if r.spelled then ["="] else [])
      + [PortToken(r.hostLo, r.hostHi), "->", r.addr, "port", PortToken(r.jailLo, r.jailHi)]
  {
  }

  function RuleTexts(rs: seq<Rule>): seq<string> {
    if rs == [] then [] else RuleTexts(rs[..|rs| - 1]) + [RuleText(rs[|rs| - 1])]
  }

  lemma PortTokenChars(lo: nat, hi: nat)
    ensures var t := PortToken(lo, hi); t != "" && IsDigit(t[0]) && IsDigit(t[|t| - 1])
    ensures var t := PortToken(lo, hi); forall k :: 0 <= k < |t| ==> IsDigit(t[k]) || t[k] == ':'
  {
    DecValue(lo);
    DecValue(hi);
  }

  lemma NumberParses(line: string, i: nat, end: nat, n: nat)
    requires n <= PORT_MAX
    requires var d := Dec(n); i + |d| < end <= |line| && line[i..i + |d|] == d && !IsDigit(line[i + |d|])
    ensures PortNumber(line, i, end) == Some((n, i + |Dec(n)|))
  {
    DecValue(n);
    ReadDigitsWhole(line, i, end, Dec(n), PORT_MAX);
  }

  /** The host port token is read back, smaller number first. */
  lemma TokenParses(line: string, i: nat, end: nat, lo: nat, hi: nat)
    requires lo <= PORT_MAX && hi <= PORT_MAX
    requires var t := PortToken(lo, hi); i + |t| < end <= |line| && line[i..i + |t|] == t && line[i + |t|] == ' '
    ensures PortRange(line, i, end) == Some(if hi < lo then (hi, lo) else (lo, hi))
  {
    if lo != hi {
      RangeAt(line, i, Dec(lo), Dec(hi));
      NumberParses(line, i + |Dec(lo)| + 1, end, hi);
    }
    NumberParses(line, i, end, lo);
  }

  lemma RangeAt(line: string, i: nat, d: string, e: string)
    requires var t := d + ":" + e; i + |t| <= |line| && line[i..i + |t|] == t
    ensures var j := i + |d|; line[i..j] == d && line[j] == ':' && line[j + 1..j + 1 + |e|] == e
  {
    var t, j := d + ":" + e, i + |d|;
    assert t[..|d|] == d && t[|d|] == ':' && t[|d| + 1..] == e;
    assert line[i..j] == line[i..i + |t|][..|d|];
    assert line[j] == line[i..i + |t|][|d|];
    assert line[j + 1..j + 1 + |e|] == line[i..i + |t|][|d| + 1..];
  }

  // ---------- Round trip ----------

  /** Where the host port token stands among the words. */
  function TokenWord(r: Rule): nat { if r.spelled then 12 else 11 }

  lemma WordsOf(r: Rule)
    ensures var ws, t := RuleWords(r), TokenWord(r);
      && |ws| == t + 5 && ws[..11] == RuleHead(r) && ws[t] == PortToken(r.hostLo, r.hostHi)
      && (r.spelled ==> ws[11] == "=")
      && ws[t + 1..] == ["->", r.addr, "port", PortToken(r.jailLo, r.jailHi)]
  {
  }

  predicate Plain(w: string) { forall k :: 0 <= k < |w| ==> w[k] != ' ' && w[k] != '\n' && w[k] != '-' }

  lemma HeadIsPlain(r: Rule, j: nat)
    requires ValidRule(r) && j < 11
    ensures Plain(RuleHead(r)[j])
  {
  }

  /** No word holds a space or a newline or, but for the arrow, a dash. */
  lemma WordChars(r: Rule, j: nat)
    requires ValidRule(r) && j < |RuleWords(r)|
    ensures var w := RuleWords(r)[j]; j != TokenWord(r) + 1 ==> Plain(w)
    ensures j == TokenWord(r) + 1 ==> RuleWords(r)[j] == "->"
  {
    if j < 11 {
      HeadIsPlain(r, j);
      assert RuleWords(r)[j] == RuleHead(r)[j];
    } else {
      PortTokenChars(r.hostLo, r.hostHi);
      PortTokenChars(r.jailLo, r.jailHi);
      assert Plain(r.addr);
    }
  }

  lemma RuleIsWords(r: Rule)
    requires ValidRule(r)
    ensures Words(RuleWords(r))
  {
    forall j | 0 <= j < |RuleWords(r)| ensures NoSpace(RuleWords(r)[j]) { WordChars(r, j); }
  }

  lemma ArrowFound(r: Rule)
    requires ValidRule(r)
    ensures var ws := RuleWords(r); |ws| > TokenWord(r) + 1 && Find(Join(ws), "->", 0) == Pos(ws, TokenWord(r) + 1)
  {
    var ws, k := RuleWords(r), TokenWord(r) + 1;
    WordsOf(r);
    assert ws[k..][0] == "->";
    assert "->" <= Join(ws[k..]);
    forall j, i | 0 <= j < k && 0 <= i < |ws[j]| ensures ws[j][i] != "->"[0] { WordChars(r, j); }
    FindMark(ws, k, "->");
  }

  lemma ProtoAt(r: Rule)
    requires ValidRule(r)
    ensures At(RuleText(r), "proto " + r.proto, Pos(RuleWords(r), 4))
  {
    var ws, l := RuleWords(r), RuleText(r);
    WordsOf(r);
    WordAt(ws, 4);
    WordAt(ws, 5);
    assert ws[4] == ws[..11][4] && ws[5] == ws[..11][5];
    TwoWordsAt(l, Pos(ws, 4), "proto", r.proto);
    assert "proto" + (" " + r.proto) == "proto " + r.proto;
  }

  lemma TwoWordsAt(l: string, p: nat, v: string, w: string)
    requires var q := p + |v| + 1;
      q + |w| <= |l| && l[p..p + |v|] == v && l[p + |v|] == ' ' && l[q..q + |w|] == w
    ensures At(l, v + (" " + w), p)
  {
    var q := p + |v| + 1;
    assert l[p..q + |w|] == l[p..p + |v|] + ([l[p + |v|]] + l[q..q + |w|]);
  }

  lemma OtherProtoNowhere(r: Rule, i: int)
    requires ValidRule(r) && r.proto == "udp"
    ensures !At(RuleText(r), "proto tcp", i)
  {
    var ws := RuleWords(r);
    RuleIsWords(r);
    forall k | 0 <= k < |ws| - 1 ensures !Pair(ws[k], ws[k + 1], "proto", "tcp") {
      if k == 1 {
        assert ws[1] == "on";
      } else {
        TcpStarts(r, k + 1);
      }
    }
    assert "proto" + " " + "tcp" == "proto tcp";
    NoPairs(ws, "proto", "tcp", i);
  }

  /** In a udp rule only the interface name can start with "tcp". */
  lemma TcpStarts(r: Rule, k: nat)
    requires ValidRule(r) && r.proto == "udp" && 0 < k < |RuleWords(r)| && k != 2
    ensures !("tcp" <= RuleWords(r)[k])
  {
    PortTokenChars(r.hostLo, r.hostHi);
    PortTokenChars(r.jailLo, r.jailHi);
    NotTcp(RuleWords(r)[k]);
  }

  lemma NotTcp(w: string)
    requires |w| < 2 || w[0] != 't' || w[1] != 'c'
    ensures !("tcp" <= w)
  {
    var t := "tcp";
    assert t[0] == 't' && t[1] == 'c';
  }

  lemma ProtoFound(r: Rule)
    requires ValidRule(r)
    ensures ProtoOf(RuleText(r)) == Some(r.proto)
  {
    ProtoAt(r);
    assert "proto " + "tcp" == "proto tcp" && "proto " + "udp" == "proto udp";
    if r.proto == "udp" {
      var k := Find(RuleText(r), "proto tcp", 0);
      OtherProtoNowhere(r, k);
    }
  }

  /** The first " port " is the interface's when that is its name. */
  function PortWord(r: Rule): nat { if r.iface == "port" then 2 else 10 }

  lemma PortFound(r: Rule)
    requires ValidRule(r)
    ensures var ws := RuleWords(r); |ws| > 12 && Find(Join(ws), " port ", 0) + 6 == Pos(ws, PortWord(r) + 1)
  {
    var ws, k := RuleWords(r), PortWord(r);
    WordsOf(r);
    RuleIsWords(r);
    assert forall j :: 0 <= j < 11 ==> ws[j] == ws[..11][j];
    assert ws[9][0] == '(';
    assert " " + "port" + " " == " port ";
    FindSpaced(ws, "port", k);
    PosNext(ws, k);
  }

  lemma RdrFound(r: Rule)
    ensures At(RuleText(r), "rdr", 0)
  {
    WordsOf(r);
    WordAt(RuleWords(r), 0);
  }

  /** The token after "port" or after "port =". */
  lemma TokenStarts(l: string, q: nat, end: nat, spelled: bool)
    requires var p := if spelled then q + 2 else q; p < end <= |l| && IsDigit(l[p])
    requires spelled ==> l[q] == '=' && l[q + 1] == ' '
    ensures TokenFrom(l, q, end) == if spelled then q + 2 else q
  {
    assert SkipSpaces(l, q, end) == q;
    if spelled {
      assert SkipSpaces(l, q + 1, end) == SkipSpaces(l, q + 2, end) == q + 2;
    }
  }

  lemma TokenAt(r: Rule)
    ensures var ws, l, t, tok := RuleWords(r), RuleText(r), TokenWord(r), PortToken(r.hostLo, r.hostHi);
      && |ws| > t + 1 && Pos(ws, t) + |tok| + 1 == Pos(ws, t + 1) <= |l|
      && l[Pos(ws, t)..Pos(ws, t) + |tok|] == tok && l[Pos(ws, t) + |tok|] == ' '
  {
    WordsOf(r);
    WordAt(RuleWords(r), TokenWord(r));
  }

  lemma SpelledAt(r: Rule)
    requires r.spelled
    ensures var q, l := Pos(RuleWords(r), 11), RuleText(r);
      q + 2 == Pos(RuleWords(r), 12) <= |l| && l[q] == '=' && l[q + 1] == ' '
  {
    var q, l := Pos(RuleWords(r), 11), RuleText(r);
    WordsOf(r);
    WordAt(RuleWords(r), 11);
    assert l[q] == l[q..q + 1][0];
  }

  lemma TokenFound(r: Rule)
    requires ValidRule(r)
    ensures var ws, l, t := RuleWords(r), RuleText(r), TokenWord(r);
      && |ws| > t + 1 && Pos(ws, 11) <= Pos(ws, t) < Pos(ws, t + 1) <= |l|
      && TokenFrom(l, Pos(ws, 11), Pos(ws, t + 1)) == Pos(ws, t)
      && PortRange(l, Pos(ws, t), Pos(ws, t + 1))
         == Some(if r.hostHi < r.hostLo then (r.hostHi, r.hostLo) else (r.hostLo, r.hostHi))
  {
    var ws, l, t := RuleWords(r), RuleText(r), TokenWord(r);
    TokenAt(r);
    if r.spelled { SpelledAt(r); }
    var p, end, tok := Pos(ws, t), Pos(ws, t + 1), PortToken(r.hostLo, r.hostHi);
    assert IsDigit(l[p]) by {
      PortTokenChars(r.hostLo, r.hostHi);
      assert l[p] == l[p..p + |tok|][0];
    }
    TokenStarts(l, Pos(ws, 11), end, r.spelled);
    TokenParses(l, p, end, r.hostLo, r.hostHi);
  }

  /** With the interface named "port" the word after it, "inet", stands where a number should. */
  lemma NoTokenAfterIface(r: Rule, end: nat)
    requires ValidRule(r)
    requires var p := Pos(RuleWords(r), 3); p <= end <= |RuleText(r)|
    ensures var p, l := Pos(RuleWords(r), 3), RuleText(r); PortRange(l, TokenFrom(l, p, end), end) == None
  {
    var ws, l := RuleWords(r), RuleText(r);
    var p := Pos(ws, 3);
    WordAt(ws, 3);
    assert l[p] == l[p..p + 4][0] == 'i';
    assert SkipSpaces(l, p, end) == p;
  }

  function HostPortOf(r: Rule): HostPort {
    if r.hostHi < r.hostLo then HostPort(r.proto, r.hostHi, r.hostLo) else HostPort(r.proto, r.hostLo, r.hostHi)
  }

  lemma NamedPortUnread(r: Rule)
    requires ValidRule(r) && r.iface == "port"
    ensures ReadRule(RuleText(r)) == None
  {
    PortFound(r);
    var l, i := RuleText(r), Pos(RuleWords(r), 3);
    var arrow := Find(l, "->", 0);
    if i <= arrow { NoTokenAfterIface(r, arrow); }
  }

  /** What the parser found decides what it answers. */
  lemma ReadRuleIs(l: string, proto: string, i: nat, arrow: nat)
    requires At(l, "rdr", 0) && Find(l, "->", 0) == arrow && ProtoOf(l) == Some(proto)
    requires Find(l, " port ", 0) + 6 == i <= arrow <= |l| && Find(l, " port ", 0) != NPOS
    ensures var range := PortRange(l, TokenFrom(l, i, arrow), arrow);
      ReadRule(l) == if range.None? then None else Some(HostPort(proto, range.value.0, range.value.1))
  {
  }

  /** A printed rule is read back, except exactly when its interface is named "port". */
  lemma RuleRoundTrip(r: Rule)
    requires ValidRule(r)
    ensures ReadRule(RuleText(r)) == if r.iface == "port" then None else Some(HostPortOf(r))
  {
    if r.iface == "port" {
      NamedPortUnread(r);
    } else {
      var ws := RuleWords(r);
      RdrFound(r);
      ArrowFound(r);
      ProtoFound(r);
      PortFound(r);
      TokenFound(r);
      PosNext(ws, 10);
      ReadRuleIs(RuleText(r), r.proto, Pos(ws, 11), Pos(ws, TokenWord(r) + 1));
    }
  }

  /** Printed rules are lines of their own. */
  lemma RuleIsLine(r: Rule)
    requires ValidRule(r)
    ensures OneLine(RuleText(r)) && DropCr(RuleText(r)) == RuleText(r)
  {
    var ws := RuleWords(r);
    forall j | 0 <= j < |ws| ensures OneLine(ws[j]) { WordChars(r, j); }
    JoinIsLine(ws);
    assert IsDigit(ws[|ws| - 1][|ws[|ws| - 1]| - 1]) by {
      WordsOf(r);
      PortTokenChars(r.jailLo, r.jailHi);
    }
    JoinEnds(ws);
  }

  /** A join ends as its last word does. */
  lemma {:induction false} JoinEnds(ws: seq<string>)
    requires |ws| > 0 && ws[|ws| - 1] != ""
    ensures var l, w := Join(ws), ws[|ws| - 1]; l != "" && l[|l| - 1] == w[|w| - 1]
  {
    if |ws| > 1 { JoinEnds(ws[1..]); }
  }

  lemma {:induction false} JoinIsLine(ws: seq<string>)
    requires |ws| > 0 && forall j :: 0 <= j < |ws| ==> OneLine(ws[j])
    ensures OneLine(Join(ws))
  {
    if |ws| > 1 { JoinIsLine(ws[1..]); }
  }

  /** What the rules take, in order, of those the parser sees. */
  function HostPorts(rs: seq<Rule>): seq<HostPort> {
    if rs == [] then []
    else
      var before, r := HostPorts(rs[..|rs| - 1]), rs[|rs| - 1];
      if r.iface == "port" then before else before + [HostPortOf(r)]
  }

  predicate ValidRules(rs: seq<Rule>) { forall i :: 0 <= i < |rs| ==> ValidRule(rs[i]) }

  lemma {:induction false} TextsRead(rs: seq<Rule>)
    requires ValidRules(rs)
    ensures |RuleTexts(rs)| == |rs| && (forall i :: 0 <= i < |rs| ==> OneLine(RuleTexts(rs)[i]))
    ensures ReadRules(RuleTexts(rs)) == HostPorts(rs)
  {
    if rs != [] {
      var n := |rs| - 1;
      TextsRead(rs[..n]);
      var lines := RuleTexts(rs[..n]) + [RuleText(rs[n])];
      RuleIsLine(rs[n]);
      RuleRoundTrip(rs[n]);
      ReadRulesStep(lines, n);
      assert lines[..n + 1] == lines && lines[..n] == RuleTexts(rs[..n]);
    }
  }

  /** Printed rules, one per line, are read back in order: protocols and host ranges. */
  lemma {:induction false} PrintedRulesRead(rs: seq<Rule>)
    requires ValidRules(rs)
    ensures ReadRules(SplitLines(JoinLines(RuleTexts(rs)))) == HostPorts(rs)
  {
    TextsRead(rs);
    SplitJoined(RuleTexts(rs));
  }

  /** The rule takes a port of the request. */
  ghost predicate Takes(r: Rule, proto: string, lo: nat, hi: nat) {
    r.proto == proto && exists x: nat :: Between(x, r.hostLo, r.hostHi) && Between(x, lo, hi)
  }

  lemma TakesIsOverlap(r: Rule, proto: string, lo: nat, hi: nat)
    ensures Takes(r, proto, lo, hi) <==> Overlaps(HostPortOf(r), proto, lo, hi)
  {
    var t := HostPortOf(r);
    ClashIsOverlap(t, proto, lo, hi);
    assert forall x: nat :: Between(x, r.hostLo, r.hostHi) <==> Between(x, t.lo, t.hi);
  }

  lemma {:induction false} TakenAmong(rs: seq<Rule>, proto: string, lo: nat, hi: nat)
    ensures (exists i :: 0 <= i < |HostPorts(rs)| && Overlaps(HostPorts(rs)[i], proto, lo, hi))
       <==> exists i :: 0 <= i < |rs| && rs[i].iface != "port" && Takes(rs[i], proto, lo, hi)
  {
    if rs != [] {
      var n := |rs| - 1;
      TakenAmong(rs[..n], proto, lo, hi);
      TakesIsOverlap(rs[n], proto, lo, hi);
      var before, all := HostPorts(rs[..n]), HostPorts(rs);
      if i :| 0 <= i < |before| && Overlaps(before[i], proto, lo, hi) {
        assert all[i] == before[i];
      }
      if i :| 0 <= i < n && rs[i].iface != "port" && Takes(rs[i], proto, lo, hi) {
        assert rs[..n][i] == rs[i];
      }
      if rs[n].iface != "port" && Takes(rs[n], proto, lo, hi) {
        assert all[|before|] == HostPortOf(rs[n]);
      }
    }
  }

  /** On printed rules the search answers yes exactly when a same-protocol rule shares a host port with the request. */
  method TakenOnPrinted(rs: seq<Rule>, proto: string, lo: nat, hi: nat) returns (taken: bool)
    requires ValidRules(rs)
    ensures taken <==> exists i :: 0 <= i < |rs| && rs[i].iface != "port" && Takes(rs[i], proto, lo, hi)
  {
    var ports := ParseRdrHostPorts(JoinLines(RuleTexts(rs)));
    taken := RdrHostPortTaken(ports, proto, lo, hi);
    PrintedRulesRead(rs);
    TakenAmong(rs, proto, lo, hi);
  }

  /** An interface may be called "port": its forward is then invisible and the port handed out twice. */
  lemma NamedPortHidesRule()
    ensures var r := Rule("port", "tcp", 80, 80, "10.66.0.5", 80, 80, false);
      ValidRule(r) && Takes(r, "tcp", 80, 80) && HostPorts([r]) == []
  {
    assert Between(80, 80, 80);
    assert HostPorts([]) == [];
  }
}
