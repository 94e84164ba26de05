/** Firewall ids and rule text of lib/auto_fw_pure.cpp. */
module AutoFw {
  import opened Text
  import opened Lines

  // ---------- Id layout ----------

  const NAT_BASE := 30000
  const RULE_BASE := 40000
  const RULE_END := 60000
  const THROTTLE_BASE := 20000
  const MAX_JID := 9999

  /** unsigned arithmetic on 32 bits, from a signed jid. */
  function Wrap(n: int): nat { n % 0x1_0000_0000 }

  function NatId(jid: int): nat { Wrap(NAT_BASE + Wrap(jid)) }
  function RuleId(jid: int): nat { Wrap(RULE_BASE + 2 * Wrap(jid)) }
  function LoopbackId(jid: int): nat { Wrap(RULE_BASE + 2 * Wrap(jid) + 1) }

  /** validateIpfwIdsForJid. */
  predicate HasIds(jid: int) { 1 <= jid <= MAX_JID }

  datatype Kind = NatInstance | MainRule | LoopbackRule

  function Id(kind: Kind, jid: int): nat {
    match kind case NatInstance => NatId(jid) case MainRule => RuleId(jid) case LoopbackRule => LoopbackId(jid)
  }

  /** Within the accepted jids no two ids coincide, across jails and kinds, and all fit 16 bits. */
  lemma IdsAreDistinct(k: Kind, a: int, l: Kind, b: int)
    requires HasIds(a) && HasIds(b)
    ensures Id(k, a) == Id(l, b) <==> k == l && a == b
    ensures Id(k, a) <= 65535
  {
    IdsPlain(a);
    IdsPlain(b);
  }

  /** Within the accepted jids nothing wraps. */
  lemma IdsPlain(jid: int)
    requires HasIds(jid)
    ensures NatId(jid) == 30000 + jid && RuleId(jid) == 40000 + 2 * jid && LoopbackId(jid) == 40001 + 2 * jid
  {
    assert Wrap(jid) == jid;
  }

  /** The jid an id belongs to, by the inverse the sweeps use. */
  lemma IdsDecode(jid: int)
    requires HasIds(jid)
    ensures RULE_BASE <= RuleId(jid) < LoopbackId(jid) < RULE_END
    ensures (RuleId(jid) - RULE_BASE) / 2 == jid && (LoopbackId(jid) - RULE_BASE) / 2 == jid
    ensures NAT_BASE <= NatId(jid) < RULE_BASE && NatId(jid) - NAT_BASE == jid
  {
  }

  /** A jid is accepted exactly when it is positive and its NAT instance stays below the rules. */
  lemma AcceptedIff(jid: int)
    requires jid < 0x8000_0000
    ensures HasIds(jid) <==> jid > 0 && NatId(jid) < RuleId(0)
  {
    if jid > 0 {
      assert Wrap(jid) == jid;
    }
  }

  /** The bound is exact: the next jid's NAT instance is a rule number. */
  lemma NextJidCollides()
    ensures NatId(MAX_JID + 1) == RuleId(0)
  {
  }

  // ---------- Rule listings ----------

  /** parseLeadingNumber; None for the source's -1. */
  function LeadingNumber(line: string): Option<nat> {
    var i := SkipBlanks(line, 0);
    if i == |line| || !IsDigit(line[i]) then None
    else
      match ReadDigits(line, i, |line|, 0, 99999)
      case None => None
      case Some(r) => Some(r.0)
  }

  function SkipBlanks(line: string, i: nat): (r: nat)
    requires i <= |line|
    ensures i <= r <= |line| && (r < |line| ==> line[r] != ' ' && line[r] != '\t')
    decreases |line| - i
  {
    if i < |line| && (line[i] == ' ' || line[i] == '\t') then SkipBlanks(line, i + 1) else i
  }

  method ParseLeadingNumber(line: string) returns (n: Option<nat>)
    ensures n == LeadingNumber(line)
  {
    var i := 0;
    while i < |line| && (line[i] == ' ' || line[i] == '\t')
      invariant i <= |line| && SkipBlanks(line, 0) == SkipBlanks(line, i)
    {
      i := i + 1;
    }
    if i >= |line| || !IsDigit(line[i]) {
      return None;
    }
    var r := ReadNumber(line, i, |line|, 99999);
    return if r.None? then None else Some(r.value.0);
  }

  /** A block of ids; each jid has two in a row there if `pairs`, else one. */
  datatype Range = Range(base: nat, end: nat, pairs: bool)

  const RULES := Range(RULE_BASE, RULE_END, true)
  const THROTTLES := Range(THROTTLE_BASE, NAT_BASE, true)
  const NATS := Range(NAT_BASE, RULE_BASE, false)

  /** An id in the block of a jid that is not running. */
  predicate IsOrphan(n: nat, range: Range, running: set<int>) {
    range.base <= n < range.end && (if range.pairs then (n - range.base) / 2 else n - range.base) !in running
  }

  function OrphanOf(n: Option<nat>, range: Range, running: set<int>): seq<nat> {
    if n.Some? && IsOrphan(n.value, range, running) then [n.value] else []
  }

  /** What a sweep selects from a listing whose lines are read by `read`. */
  function OrphansIn(lines: seq<string>, read: string -> Option<nat>, range: Range, running: set<int>): seq<nat> {
    if lines == [] then []
    else
      OrphansIn(lines[..|lines| - 1], read, range, running) + OrphanOf(read(DropCr(lines[|lines| - 1])), range, running)
  }

  lemma {:induction false} OrphansStep(
    lines: seq<string>, i: nat, read: string -> Option<nat>, range: Range, running: set<int>)
    requires i < |lines|
    ensures OrphansIn(lines[..i + 1], read, range, running)
         == OrphansIn(lines[..i], read, range, running) + OrphanOf(read(DropCr(lines[i])), range, running)
  {
    assert lines[..i + 1][..i] == lines[..i];
  }

  /** The loop of pickOrphanIpfwRulesByJid (RULES) and pickOrphanIpfwThrottleRulesByJid (THROTTLES). */
  method PickOrphanRules(output: string, range: Range, running: set<int>) returns (orphans: seq<nat>)
    requires range.pairs
    ensures orphans == OrphansIn(SplitLines(output), LeadingNumber, range, running)
  {
    orphans := [];
    var lines := ReadLines(output);
    for i := 0 to |lines|
      invariant orphans == OrphansIn(lines[..i], LeadingNumber, range, running)
    {
      OrphansStep(lines, i, LeadingNumber, range, running);
      var n := ParseLeadingNumber(DropCr(lines[i]));
      var orphan := KeepOrphan(n, range, running);
      orphans := orphans + orphan;
    }
    assert lines[..|lines|] == lines;
  }

  method KeepOrphan(n: Option<nat>, range: Range, running: set<int>) returns (orphan: seq<nat>)
    ensures orphan == OrphanOf(n, range, running)
  {
    if n.Some? && range.base <= n.value < range.end {
      var jid := if range.pairs then (n.value - range.base) / 2 else n.value - range.base;
      if jid !in running {
        return [n.value];
      }
    }
    return [];
  }

  // ---------- Printed listings ----------

  /** A rule or instance that ipfw lists: its number and the rest of the line. */
  datatype Listed = Listed(id: nat, body: string)

  predicate ValidListed(r: Listed) { r.id <= 65535 && OneLine(r.body) }

  predicate ValidRules(rs: seq<Listed>) { forall i :: 0 <= i < |rs| ==> ValidListed(rs[i]) }

  function Printed(rs: seq<Listed>, show: Listed -> string): seq<string> {
    if rs == [] then [] else Printed(rs[..|rs| - 1], show) + [show(rs[|rs| - 1])]
  }

  /** The reader gives back the number of whatever the printer printed. */
  ghost predicate Reads(show: Listed -> string, read: string -> Option<nat>) {
    forall r :: ValidListed(r) ==> OneLine(show(r)) && read(DropCr(show(r))) == Some(r.id)
  }

  /** The orphans among listed rules, by their ids alone. */
  function Orphans(rs: seq<Listed>, range: Range, running: set<int>): seq<nat> {
    if rs == [] then []
    else
      var before, n := Orphans(rs[..|rs| - 1], range, running), rs[|rs| - 1].id;
      if IsOrphan(n, range, running) then before + [n] else before
  }

  lemma {:induction false} LinesAreRules(
    rs: seq<Listed>, show: Listed -> string, read: string -> Option<nat>, range: Range, running: set<int>)
    requires ValidRules(rs) && Reads(show, read)
    ensures |Printed(rs, show)| == |rs| && (forall i :: 0 <= i < |rs| ==> OneLine(Printed(rs, show)[i]))
    ensures OrphansIn(Printed(rs, show), read, range, running) == Orphans(rs, range, running)
  {
    if rs != [] {
      var n := |rs| - 1;
      LinesAreRules(rs[..n], show, read, range, running);
      assert ValidListed(rs[n]);
      var lines := Printed(rs[..n], show) + [show(rs[n])];
      assert Printed(rs, show) == lines && lines[..n] == Printed(rs[..n], show);
    }
  }

  /** The text of a listing, swept. */
  function Swept(
    rs: seq<Listed>, show: Listed -> string, read: string -> Option<nat>, range: Range, running: set<int>): seq<nat>
  {
    OrphansIn(SplitLines(JoinLines(Printed(rs, show))), read, range, running)
  }

  /** Sweeping a printed listing selects, in order, exactly the ids that belong to no running jail. */
  lemma {:induction false} SweepSelects(
    rs: seq<Listed>, show: Listed -> string, read: string -> Option<nat>, range: Range, running: set<int>)
    requires ValidRules(rs) && Reads(show, read)
    ensures Swept(rs, show, read, range, running) == Orphans(rs, range, running)
  {
    LinesAreRules(rs, show, read, range, running);
    SplitJoined(Printed(rs, show));
  }

  lemma {:induction false} OrphansMember(rs: seq<Listed>, range: Range, running: set<int>, n: nat)
    ensures n in Orphans(rs, range, running) <==>
      IsOrphan(n, range, running) && exists i :: 0 <= i < |rs| && rs[i].id == n
  {
    if rs != [] {
      var m := |rs| - 1;
      OrphansMember(rs[..m], range, running, n);
      assert forall i :: 0 <= i < m ==> rs[..m][i] == rs[i];
      if n in Orphans(rs, range, running) && n in Orphans(rs[..m], range, running) {
        var i :| 0 <= i < m && rs[..m][i].id == n;
        assert rs[i].id == n;
      }
    }
  }

  predicate Lists(rs: seq<Listed>, id: nat) { exists i :: 0 <= i < |rs| && rs[i].id == id }

  /** The rules left once the swept ids are deleted. */
  function Deleted(rs: seq<Listed>, ids: seq<nat>): seq<Listed> {
    if rs == [] then [] else (if rs[0].id in ids then [] else [rs[0]]) + Deleted(rs[1..], ids)
  }

  lemma {:induction false} DeletedLeaves(rs: seq<Listed>, ids: seq<nat>, r: Listed)
    ensures r in Deleted(rs, ids) <==> r in rs && r.id !in ids
  {
    if rs != [] {
      DeletedLeaves(rs[1..], ids, r);
      assert rs == [rs[0]] + rs[1..];
    }
  }

  lemma {:induction false} NothingOrphaned(rs: seq<Listed>, range: Range, running: set<int>)
    requires forall r :: r in rs ==> !IsOrphan(r.id, range, running)
    ensures Orphans(rs, range, running) == []
  {
    if rs != [] {
      assert rs[|rs| - 1] in rs;
      NothingOrphaned(rs[..|rs| - 1], range, running);
    }
  }

  /** Deleting the orphans leaves valid rules and no orphan. */
  lemma {:induction false} DeletedAreSettled(rs: seq<Listed>, range: Range, running: set<int>)
    requires ValidRules(rs)
    ensures var left := Deleted(rs, Orphans(rs, range, running));
      ValidRules(left) && Orphans(left, range, running) == []
  {
    var swept := Orphans(rs, range, running);
    var left := Deleted(rs, swept);
    forall r | r in left ensures !IsOrphan(r.id, range, running) && r in rs {
      DeletedLeaves(rs, swept, r);
      var i :| 0 <= i < |rs| && rs[i] == r;
      OrphansMember(rs, range, running, r.id);
    }
    assert ValidRules(left) by {
      forall i | 0 <= i < |left| ensures ValidListed(left[i]) {
        assert left[i] in left;
      }
    }
    NothingOrphaned(left, range, running);
  }

  /** Sweeping again after deleting what was swept finds nothing. */
  lemma {:induction false} SecondSweepEmpty(
    rs: seq<Listed>, show: Listed -> string, read: string -> Option<nat>, range: Range, running: set<int>)
    requires ValidRules(rs) && Reads(show, read)
    ensures Swept(Deleted(rs, Swept(rs, show, read, range, running)), show, read, range, running) == []
  {
    SweepSelects(rs, show, read, range, running);
    DeletedAreSettled(rs, range, running);
    SweepSelects(Deleted(rs, Orphans(rs, range, running)), show, read, range, running);
  }

  // ---------- `ipfw list` ----------

  /** A five-digit number, a space and the rule body. */
  function RuleLine(r: Listed): string { Pad(r.id, 5) + " " + r.body }

  lemma RuleLineParses(r: Listed)
    requires r.id <= 65535
    ensures LeadingNumber(DropCr(RuleLine(r))) == Some(r.id)
  {
    var d, line := Pad(r.id, 5), DropCr(RuleLine(r));
    assert Pow10(5) == 100000 by { assert Pow10(3) == 1000; }
    PadValue(r.id, 5);
    assert line[0] == d[0] && IsDigit(d[0]);
    assert SkipBlanks(line, 0) == 0;
    assert line[0..5] == d;
    assert |line| > 5 ==> line[5] == ' ';
    ReadDigitsWhole(line, 0, |line|, d, 99999);
  }

  lemma RulesRead()
    ensures Reads(RuleLine, LeadingNumber)
  {
    forall r | ValidListed(r) ensures OneLine(RuleLine(r)) && LeadingNumber(DropCr(RuleLine(r))) == Some(r.id) {
      RuleLineParses(r);
      var p := Pad(r.id, 5);
      assert forall k :: 0 <= k < |p| ==> IsDigit(p[k]);
    }
  }

  lemma RuleOrphan(kind: Kind, jid: int, running: set<int>)
    requires HasIds(jid) && kind != NatInstance
    ensures IsOrphan(Id(kind, jid), RULES, running) <==> jid !in running
  {
    IdsDecode(jid);
  }

  /** So of the two rules of a listed jail, a sweep takes both when it is not running and neither when it is. */
  lemma {:induction false} SweepByJail(rs: seq<Listed>, running: set<int>, jid: int, kind: Kind)
    requires ValidRules(rs) && HasIds(jid) && kind != NatInstance && Lists(rs, Id(kind, jid))
    ensures Id(kind, jid) in Swept(rs, RuleLine, LeadingNumber, RULES, running) <==> jid !in running
  {
    RulesRead();
    SweptIff(rs, RuleLine, LeadingNumber, RULES, running, Id(kind, jid));
    RuleOrphan(kind, jid, running);
  }

  // ---------- `ipfw nat list` ----------

  predicate IsSpace(c: char) { c == ' ' || c == '\t' || c == '\n' || c == '\r' || c == '\U{000B}' || c == '\U{000C}' }

  /** isspace of the C locale: the codes 9 to 13 and 32. */
  lemma SpaceCodes(c: char)
    ensures IsSpace(c) <==> c as int == 32 || 9 <= c as int <= 13
  {
  }

  function TokenStart(s: string, i: nat): (r: nat)
    requires i <= |s|
    ensures i <= r <= |s|
    decreases |s| - i
  {
    if i < |s| && IsSpace(s[i]) then TokenStart(s, i + 1) else i
  }

  function TokenEnd(s: string, i: nat): (r: nat)
    requires i <= |s|
    ensures i <= r <= |s|
    decreases |s| - i
  {
    if i < |s| && !IsSpace(s[i]) then TokenEnd(s, i + 1) else i
  }

  /** `is >> tok` from position `i`: the token and where it ends. */
  function Token(s: string, i: nat): (r: (string, nat))
    requires i <= |s|
    ensures i <= r.1 <= |s|
  {
    var b := TokenStart(s, i);
    var e := TokenEnd(s, b);
    (s[b..e], e)
  }

  /** The all-digits third field, below 100000. */
  function FieldNumber(t: string): Option<nat> {
    if t == "" then None
    else
      match ReadDigits(t, 0, |t|, 0, 99999)
      case None => None
      case Some(r) => if r.1 == |t| then Some(r.0) else None
  }

  function NatNumber(line: string): Option<nat> {
    var (t1, e1) := Token(line, 0);
    var (t2, e2) := Token(line, e1);
    var (t3, e3) := Token(line, e2);
    if t3 == "" || t1 != "ipfw" || t2 != "nat" then None else FieldNumber(t3)
  }

  /** pickOrphanIpfwNatIds. */
  method PickOrphanNatIds(output: string, running: set<int>) returns (orphans: seq<nat>)
    ensures orphans == OrphansIn(SplitLines(output), NatNumber, NATS, running)
  {
    orphans := [];
    var lines := ReadLines(output);
    for i := 0 to |lines|
      invariant orphans == OrphansIn(lines[..i], NatNumber, NATS, running)
    {
      OrphansStep(lines, i, NatNumber, NATS, running);
      var orphan := KeepOrphan(NatNumber(DropCr(lines[i])), NATS, running);
      orphans := orphans + orphan;
    }
    assert lines[..|lines|] == lines;
  }

  /** No other line is read: the first two fields are "ipfw" and "nat". */
  lemma OnlyInstances(line: string)
    requires NatNumber(line).Some?
    ensures var first := Token(line, 0); first.0 == "ipfw" && Token(line, first.1).0 == "nat"
  {
  }

  /** One instance as `ipfw nat list` prints it. */
  function NatLine(r: Listed): string { "ipfw nat " + (Dec(r.id) + (" " + r.body)) }

  lemma {:induction false} TokenEndIs(s: string, i: nat, e: nat)
    requires i <= e <= |s| && (e == |s| || IsSpace(s[e])) && forall k :: i <= k < e ==> !IsSpace(s[k])
    ensures TokenEnd(s, i) == e
    decreases e - i
  {
    if i < e { TokenEndIs(s, i + 1, e); }
  }

  /** A token after at most one space. */
  lemma TokenIs(s: string, i: nat, b: nat, tok: string)
    requires i <= b <= i + 1 && (b == i + 1 ==> i < |s| && s[i] == ' ')
    requires tok != "" && b + |tok| <= |s| && s[b..b + |tok|] == tok && forall k :: 0 <= k < |tok| ==> !IsSpace(tok[k])
    requires b + |tok| == |s| || s[b + |tok|] == ' '
    ensures Token(s, i) == (tok, b + |tok|)
  {
    assert forall k :: b <= k < b + |tok| ==> s[k] == s[b..b + |tok|][k - b];
    assert !IsSpace(s[b]);
    assert TokenStart(s, i) == b;
    TokenEndIs(s, b, b + |tok|);
  }

  /** "ipfw nat " and the number are there whether or not a carriage return is dropped. */
  lemma NatLineShape(r: Listed)
    ensures var d, line := Dec(r.id), DropCr(NatLine(r)); var e := 9 + |d|;
      && |line| >= e && line[0..4] == "ipfw" && line[4] == ' ' && line[5..8] == "nat" && line[8] == ' '
      && line[9..e] == d && (|line| > e ==> line[e] == ' ')
  {
    var d, full := Dec(r.id), NatLine(r);
    var e := 9 + |d|;
    var head := "ipfw nat ";
    assert full == head + d + " " + r.body;
    assert full[..e] == head + d && full[e] == ' ';
    var line := DropCr(full);
    assert line[..e] == full[..e];
    assert line[9..e] == line[..e][9..] == d;
    assert line[0..4] == line[..e][0..4] == "ipfw";
    assert line[5..8] == line[..e][5..8] == "nat";
    assert line[4] == line[..e][4] && line[8] == line[..e][8];
  }

  lemma NatLineParses(r: Listed)
    requires r.id <= 65535
    ensures NatNumber(DropCr(NatLine(r))) == Some(r.id)
  {
    NatLineShape(r);
    NatFields(DropCr(NatLine(r)), Dec(r.id));
    FieldReads(r.id);
  }

  /** The three fields of a line, the third all digits. */
  lemma NatFields(line: string, d: string)
    requires d != "" && AllDigits(d) && |line| >= 9 + |d|
    requires line[0..4] == "ipfw" && line[4] == ' ' && line[5..8] == "nat" && line[8] == ' '
    requires line[9..9 + |d|] == d && (|line| > 9 + |d| ==> line[9 + |d|] == ' ')
    ensures NatNumber(line) == FieldNumber(d)
  {
    FirstField(line);
    SecondField(line);
    ThirdField(line, d);
    NatNumberIs(line, d);
  }

  lemma ThirdField(line: string, d: string)
    requires d != "" && AllDigits(d) && |line| >= 9 + |d| && line[8] == ' '
    requires line[9..9 + |d|] == d && (|line| > 9 + |d| ==> line[9 + |d|] == ' ')
    ensures Token(line, 8).0 == d
  {
    forall k | 0 <= k < |d| ensures !IsSpace(d[k]) { assert IsDigit(d[k]); }
    TokenIs(line, 8, 9, d);
  }

  lemma FirstField(line: string)
    requires |line| > 4 && line[0..4] == "ipfw" && line[4] == ' '
    ensures Token(line, 0) == ("ipfw", 4)
  {
    TokenIs(line, 0, 0, "ipfw");
  }

  lemma SecondField(line: string)
    requires |line| > 8 && line[4] == ' ' && line[5..8] == "nat" && line[8] == ' '
    ensures Token(line, 4) == ("nat", 8)
  {
    TokenIs(line, 4, 5, "nat");
  }

  lemma NatNumberIs(line: string, d: string)
    requires |line| >= 8 && d != ""
    requires Token(line, 0) == ("ipfw", 4) && Token(line, 4) == ("nat", 8) && Token(line, 8).0 == d
    ensures NatNumber(line) == FieldNumber(d)
  {
  }

  lemma FieldReads(n: nat)
    requires n <= 65535
    ensures FieldNumber(Dec(n)) == Some(n)
  {
    var d := Dec(n);
    DecValue(n);
    assert d[0..|d|] == d;
    ReadDigitsWhole(d, 0, |d|, d, 99999);
  }

  lemma NatsRead()
    ensures Reads(NatLine, NatNumber)
  {
    forall r | ValidListed(r) ensures OneLine(NatLine(r)) && NatNumber(DropCr(NatLine(r))) == Some(r.id) {
      NatLineParses(r);
      NatLineIsOne(r);
    }
  }

  lemma NatLineIsOne(r: Listed)
    requires OneLine(r.body)
    ensures OneLine(NatLine(r))
  {
    var d := Dec(r.id);
    assert forall k :: 0 <= k < |d| ==> IsDigit(d[k]);
  }

  // ---------- Exactly what is swept ----------

  /** A rule of a jid that is not running: `base` + 2 * jid or the number behind it. */
  ghost predicate PairOfStopped(id: nat, base: nat, jids: nat, running: set<int>) {
    exists jid :: 0 <= jid < jids && jid !in running && base + 2 * jid <= id <= base + 2 * jid + 1
  }

  lemma PairOrphan(id: nat, base: nat, jids: nat, running: set<int>)
    ensures IsOrphan(id, Range(base, base + 2 * jids, true), running) <==> PairOfStopped(id, base, jids, running)
  {
    if id >= base {
      var jid := (id - base) / 2;
      assert base + 2 * jid <= id <= base + 2 * jid + 1;
    }
  }

  lemma {:induction false} SweptIff(
    rs: seq<Listed>, show: Listed -> string, read: string -> Option<nat>, range: Range, running: set<int>, id: nat)
    requires ValidRules(rs) && Reads(show, read)
    ensures id in Swept(rs, show, read, range, running) <==> Lists(rs, id) && IsOrphan(id, range, running)
  {
    SweepSelects(rs, show, read, range, running);
    OrphansMember(rs, range, running, id);
  }

  lemma {:induction false} InstancesSweptIff(
    rs: seq<Listed>, show: Listed -> string, read: string -> Option<nat>, running: set<int>, id: nat)
    requires ValidRules(rs) && Reads(show, read)
    ensures id in Swept(rs, show, read, NATS, running) <==>
      Lists(rs, id) && 30000 <= id <= 39999 && id - 30000 !in running
  {
    SweptIff(rs, show, read, NATS, running, id);
  }

  /** The instance sweep takes exactly the listed 30000 + jid of jids 0 to 9999 not running. */
  lemma {:induction false} NatsSweptIff(rs: seq<Listed>, running: set<int>, id: nat)
    requires ValidRules(rs)
    ensures id in Swept(rs, NatLine, NatNumber, NATS, running) <==>
      Lists(rs, id) && 30000 <= id <= 39999 && id - 30000 !in running
  {
    NatsRead();
    InstancesSweptIff(rs, NatLine, NatNumber, running, id);
  }

  /** Of a listed instance: swept exactly when its jail is not running. */
  lemma {:induction false} NatSweepByJail(rs: seq<Listed>, running: set<int>, jid: int)
    requires ValidRules(rs) && HasIds(jid) && Lists(rs, NatId(jid))
    ensures NatId(jid) in Swept(rs, NatLine, NatNumber, NATS, running) <==> jid !in running
  {
    IdsPlain(jid);
    NatsSweptIff(rs, running, NatId(jid));
  }

  /** The rule sweep takes exactly the listed 40000 + 2 * jid and 40001 + 2 * jid of jids 0 to 9999 not running. */
  lemma {:induction false} RulesSweptIff(rs: seq<Listed>, running: set<int>, id: nat)
    requires ValidRules(rs)
    ensures id in Swept(rs, RuleLine, LeadingNumber, RULES, running) <==>
      Lists(rs, id) && PairOfStopped(id, 40000, 10000, running)
  {
    RulesRead();
    SweptIff(rs, RuleLine, LeadingNumber, RULES, running, id);
    PairOrphan(id, 40000, 10000, running);
  }

  /** The throttle sweep takes exactly the listed 20000 + 2 * jid and 20001 + 2 * jid of jids 0 to 4999 not running. */
  lemma {:induction false} ThrottlesSweptIff(rs: seq<Listed>, running: set<int>, id: nat)
    requires ValidRules(rs)
    ensures id in Swept(rs, RuleLine, LeadingNumber, THROTTLES, running) <==>
      Lists(rs, id) && PairOfStopped(id, 20000, 5000, running)
  {
    RulesRead();
    SweptIff(rs, RuleLine, LeadingNumber, THROTTLES, running, id);
    PairOrphan(id, 20000, 5000, running);
  }

  /** ipfw's default rule is never swept. */
  lemma {:induction false} DefaultRuleStays(rs: seq<Listed>, running: set<int>)
    requires ValidRules(rs)
    ensures 65535 !in Swept(rs, RuleLine, LeadingNumber, RULES, running)
    ensures 65535 !in Swept(rs, RuleLine, LeadingNumber, THROTTLES, running)
  {
    RulesSweptIff(rs, running, 65535);
    ThrottlesSweptIff(rs, running, 65535);
  }
}
