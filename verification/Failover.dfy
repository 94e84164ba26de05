/**
 The hub's down-streaks and failover orders: pollNode of hub/poller.cpp as locked state steps,
 hub/ha_pure.cpp, and the views hub/api.cpp builds between them.
 */
module Failover {
  import opened Text

  // ---------- The poller ----------

  /** What one locked section of pollNode recorded about reachability. */
  datatype Probe = Up | Down(at: int)

  datatype NodeStatus = NodeStatus(name: string, reachable: bool, firstDownAt: int, containers: string, stale: bool)

  /** What a poll met: an exception before the host answered, or an answer and then the container list. */
  datatype Poll =
    | Threw(now: int)
    | Answered(hostOk: bool, now: int, containers: ListPoll)

  /**
   What became of the container list. `ListThrew` is an exception before the list was taken over,
   `StoreThrew` one from recording it, which is attempted only when the host answered.
   */
  datatype ListPoll = ListBody(text: string) | NoList | ListThrew(now: int) | StoreThrew(text: string, now: int)

  /** The poll fails after the host's answer was recorded. */
  predicate FailsLate(p: Poll) {
    p.Answered? && (p.containers.ListThrew? || (p.containers.StoreThrew? && p.hostOk))
  }

  function Probes(p: Poll): seq<Probe> {
    match p
    case Threw(t) => [Down(t)]
    case Answered(ok, t, rest) => [if ok then Up else Down(t)] + if FailsLate(p) then [Down(rest.now)] else []
  }

  predicate EndsUp(h: seq<Probe>) { h != [] && h[|h| - 1].Up? }

  /** Time of the first failure of the current streak; 0 while up or never polled. */
  function StreakStart(h: seq<Probe>): int {
    if h == [] || h[|h| - 1].Up? then 0
    else
      var before := h[..|h| - 1];
      if before == [] || before[|before| - 1].Up? then h[|h| - 1].at else StreakStart(before)
  }

  /** Failures are recorded at positive times that never run backwards. */
  ghost predicate Clocked(h: seq<Probe>) {
    && (forall i :: 0 <= i < |h| && h[i].Down? ==> h[i].at > 0)
    && (forall i, j :: 0 <= i < j < |h| && h[i].Down? && h[j].Down? ==> h[i].at <= h[j].at)
  }

  ghost predicate Records(s: NodeStatus, h: seq<Probe>) {
    s.reachable == EndsUp(h) && s.firstDownAt == StreakStart(h)
  }

  lemma StreakPositive(h: seq<Probe>)
    requires Clocked(h)
    ensures StreakStart(h) >= 0 && (StreakStart(h) == 0 <==> h == [] || EndsUp(h))
  {
    if h != [] && !EndsUp(h) {
      StreakPositive(h[..|h| - 1]);
    }
  }

  /** The locked section that records a probe. */
  function AfterProbe(s: NodeStatus, p: Probe): NodeStatus {
    match p
    case Up => s.(reachable := true, firstDownAt := 0)
    case Down(now) => s.(reachable := false, firstDownAt := if s.firstDownAt == 0 then now else s.firstDownAt)
  }

  /** pollNode as a whole: a failed list keeps the previous one, marked stale. */
  function AfterPoll(s: NodeStatus, p: Poll): NodeStatus {
    match p
    case Threw(t) => AfterProbe(s, Down(t)).(stale := true)
    case Answered(ok, t, rest) =>
      var mid := AfterProbe(s, if ok then Up else Down(t));
      match rest
      case ListBody(text) => mid.(containers := text, stale := false)
      case NoList => mid.(stale := true)
      case ListThrew(u) => AfterProbe(mid, Down(u)).(stale := true)
      case StoreThrew(text, u) =>
        var got := mid.(containers := text, stale := false);
        if ok then AfterProbe(got, Down(u)).(stale := true) else got
  }

  /** The text of a list that a poll got hold of. */
  function ListOf(p: Poll): Option<string> {
    if p.Answered? && (p.containers.ListBody? || p.containers.StoreThrew?) then Some(p.containers.text) else None
  }

  /**
   The list of a poll replaces the previous one and a poll without one keeps it; it is marked
   stale exactly when the poll brought none or failed.
   */
  lemma ListAfterPoll(s: NodeStatus, p: Poll)
    ensures AfterPoll(s, p).containers == if ListOf(p).Some? then ListOf(p).value else s.containers
    ensures AfterPoll(s, p).stale <==> ListOf(p).None? || FailsLate(p)
  {
  }

  /** After several polls the list is the last one brought, or the first status's own. */
  function AfterPolls(s: NodeStatus, ps: seq<Poll>): NodeStatus {
    if ps == [] then s else AfterPoll(AfterPolls(s, ps[..|ps| - 1]), ps[|ps| - 1])
  }

  lemma {:induction false} ListIsLatest(s: NodeStatus, ps: seq<Poll>, k: nat)
    requires k < |ps| && ListOf(ps[k]).Some? && forall i :: k < i < |ps| ==> ListOf(ps[i]).None?
    ensures AfterPolls(s, ps).containers == ListOf(ps[k]).value
    ensures k < |ps| - 1 ==> AfterPolls(s, ps).stale
  {
    var n := |ps| - 1;
    ListAfterPoll(AfterPolls(s, ps[..n]), ps[n]);
    if k < n {
      ListIsLatest(s, ps[..n], k);
    }
  }

  lemma RecordsNext(s: NodeStatus, h: seq<Probe>, p: Probe)
    requires Records(s, h) && Clocked(h + [p])
    ensures Records(AfterProbe(s, p), h + [p])
  {
    assert (h + [p])[..|h|] == h;
    assert Clocked(h) by {
      assert forall i :: 0 <= i < |h| ==> (h + [p])[i] == h[i];
    }
    StreakPositive(h);
  }

  /** A poll keeps the record, and so does each of its locked sections on the way. */
  lemma PollRecords(s: NodeStatus, h: seq<Probe>, p: Poll)
    requires Records(s, h) && Clocked(h + Probes(p))
    ensures Records(AfterPoll(s, p), h + Probes(p)) && AfterPoll(s, p).name == s.name
    ensures Records(AfterProbe(s, Probes(p)[0]), h + [Probes(p)[0]])
  {
    var first, after := Probes(p)[0], AfterPoll(s, p);
    ClockedFirst(h, Probes(p));
    RecordsNext(s, h, first);
    var mid := AfterProbe(s, first);
    if FailsLate(p) {
      LatePoll(s, p);
      Appended(h, first, Down(p.containers.now));
      LateRecords(mid, TakenOver(s, p), h + [first], p.containers.now);
    } else {
      EarlyPoll(s, p);
      assert Records(after, h + [first]);
    }
  }

  lemma LatePoll(s: NodeStatus, p: Poll)
    requires FailsLate(p)
    ensures Probes(p) == [Probes(p)[0]] + [Down(p.containers.now)]
    ensures AfterPoll(s, p) == AfterProbe(TakenOver(s, p), Down(p.containers.now)).(stale := true)
    ensures var mid := AfterProbe(s, Probes(p)[0]);
      TakenOver(s, p).reachable == mid.reachable && TakenOver(s, p).firstDownAt == mid.firstDownAt
    ensures AfterPoll(s, p).name == s.name
  {
  }

  lemma EarlyPoll(s: NodeStatus, p: Poll)
    requires !FailsLate(p)
    ensures Probes(p) == [Probes(p)[0]]
    ensures var mid := AfterProbe(s, Probes(p)[0]);
      AfterPoll(s, p).reachable == mid.reachable && AfterPoll(s, p).firstDownAt == mid.firstDownAt
    ensures AfterPoll(s, p).name == s.name
  {
  }

  /** The status when a late failure strikes: the list may have been taken over. */
  function TakenOver(s: NodeStatus, p: Poll): NodeStatus
    requires FailsLate(p)
  {
    var mid := AfterProbe(s, Probes(p)[0]);
    if p.containers.StoreThrew? then mid.(containers := p.containers.text, stale := false) else mid
  }

  lemma LateRecords(mid: NodeStatus, got: NodeStatus, h: seq<Probe>, now: int)
    requires Records(mid, h) && Clocked(h + [Down(now)])
    requires got.reachable == mid.reachable && got.firstDownAt == mid.firstDownAt
    ensures Records(AfterProbe(got, Down(now)).(stale := true), h + [Down(now)])
  {
    RecordsNext(got, h, Down(now));
  }

  ghost predicate AllRecord(names: seq<string>, statuses: seq<NodeStatus>, hs: seq<seq<Probe>>) {
    && |hs| == |statuses| == |names|
    && forall i :: 0 <= i < |statuses| ==> statuses[i].name == names[i] && Records(statuses[i], hs[i])
  }

  lemma AllRecordNext(names: seq<string>, statuses: seq<NodeStatus>, hs: seq<seq<Probe>>, i: nat, p: Poll)
    requires AllRecord(names, statuses, hs) && i < |statuses| && Clocked(hs[i] + Probes(p))
    ensures AllRecord(names, statuses[i := AfterPoll(statuses[i], p)], hs[i := hs[i] + Probes(p)])
  {
    PollRecords(statuses[i], hs[i], p);
    OneRecordNext(names, statuses, hs, i, AfterPoll(statuses[i], p), hs[i] + Probes(p));
  }

  lemma OneRecordNext(
    names: seq<string>, statuses: seq<NodeStatus>, hs: seq<seq<Probe>>, i: nat, s: NodeStatus, h: seq<Probe>)
    requires AllRecord(names, statuses, hs) && i < |statuses| && Records(s, h) && s.name == names[i]
    ensures AllRecord(names, statuses[i := s], hs[i := h])
  {
  }

  class Poller {
    const names: seq<string>
    var statuses: seq<NodeStatus>
    ghost var histories: seq<seq<Probe>>

    ghost predicate Valid()
      reads this
    {
      AllRecord(names, statuses, histories)
    }

    constructor (names: seq<string>)
      ensures Valid() && this.names == names && forall i :: 0 <= i < |names| ==> histories[i] == []
    {
      this.names := names;
      statuses := seq(|names|, i requires 0 <= i < |names| => NodeStatus(names[i], false, 0, "", false));
      histories := seq(|names|, i => []);
    }

    /** pollNode on node `i`. */
    method PollNode(i: nat, p: Poll)
      requires Valid() && i < |statuses| && Clocked(histories[i] + Probes(p))
      modifies this
      ensures Valid() && histories == old(histories)[i := old(histories)[i] + Probes(p)]
      ensures statuses == old(statuses)[i := AfterPoll(old(statuses)[i], p)]
    {
      AllRecordNext(names, statuses, histories, i, p);
      var s := PollStatus(statuses[i], p);
      statuses := statuses[i := s];
      histories := histories[i := histories[i] + Probes(p)];
    }

    /** The sections of pollNode on the status it was given. */
    method PollStatus(status: NodeStatus, p: Poll) returns (s: NodeStatus)
      ensures s == AfterPoll(status, p)
    {
      s := status;
      match p {
        case Threw(now) => s := Caught(s, now);
        case Answered(ok, now, list) =>
          if ok {
            s := s.(reachable := true, firstDownAt := 0);
          } else {
            s := s.(reachable := false);
            if s.firstDownAt == 0 {
              s := s.(firstDownAt := now);
            }
          }
          match list {
            case ListBody(text) => s := s.(containers := text, stale := false);
            case NoList => s := s.(stale := true);
            case ListThrew(u) => s := Caught(s, u);
            case StoreThrew(text, u) =>
              s := s.(containers := text, stale := false);
              if s.reachable {
                s := Caught(s, u);
              }
          }
      }
    }

    /** The catch block. */
    method Caught(status: NodeStatus, now: int) returns (s: NodeStatus)
      ensures s == AfterProbe(status, Down(now)).(stale := true)
    {
      s := status.(reachable := false, stale := true);
      if s.firstDownAt == 0 {
        s := s.(firstDownAt := now);
      }
    }

    /** getNodeStatuses. */
    method GetNodeStatuses() returns (copy: seq<NodeStatus>)
      requires Valid()
      ensures copy == statuses && |copy| == |histories|
      ensures forall i :: 0 <= i < |copy| ==> Records(copy[i], histories[i])
    {
      copy := statuses;
    }
  }

  lemma Appended<T>(s: seq<T>, x: T, y: T)
    ensures s + [x] + [y] == s + ([x] + [y])
  {
  }

  lemma ClockedFirst(h: seq<Probe>, ps: seq<Probe>)
    requires Clocked(h + ps)
    ensures ps != [] ==> Clocked(h + [ps[0]])
  {
    if ps != [] {
      assert forall i :: 0 <= i <= |h| ==> (h + [ps[0]])[i] == (h + ps)[i];
    }
  }

  // ---------- What a streak start means ----------

  /** Some failure at or before `t` has been followed by failures only. */
  ghost predicate FailedSince(h: seq<Probe>, t: int) {
    exists k :: FailedFrom(h, t, k)
  }

  ghost predicate FailedFrom(h: seq<Probe>, t: int, k: int) {
    0 <= k < |h| && h[k].Down? && h[k].at <= t && forall m :: k <= m < |h| ==> h[m].Down?
  }

  lemma {:induction false} StreakIsFirst(h: seq<Probe>) returns (k: nat)
    requires h != [] && !EndsUp(h)
    ensures k < |h| && (k == 0 || h[k - 1].Up?) && (forall m :: k <= m < |h| ==> h[m].Down?)
      && StreakStart(h) == h[k].at
  {
    var n := |h| - 1;
    var before := h[..n];
    if before == [] || before[|before| - 1].Up? {
      k := n;
    } else {
      k := StreakIsFirst(before);
    }
  }

  lemma StreakReachesBack(h: seq<Probe>, t: int)
    requires Clocked(h)
    ensures h != [] && !EndsUp(h) && StreakStart(h) <= t <==> FailedSince(h, t)
  {
    if h != [] && !EndsUp(h) {
      var k := StreakIsFirst(h);
      if StreakStart(h) <= t { assert FailedFrom(h, t, k); }
      if FailedSince(h, t) {
        var m :| FailedFrom(h, t, m);
        assert k <= m;
      }
    }
  }

  // ---------- Failover orders ----------

  datatype NodeView = NodeView(name: string, reachable: bool, unreachableSeconds: int)

  datatype HaSpec = HaSpec(container: string, primary: string, partners: seq<string>)

  datatype MigrationOrder = MigrationOrder(container: string, fromNode: string, toNode: string)

  /** The view hub/api.cpp builds of a status at time `now`. */
  function ViewOf(s: NodeStatus, now: int): NodeView {
    NodeView(s.name, s.reachable, if s.firstDownAt > 0 && !s.reachable then now - s.firstDownAt else 0)
  }

  function Views(statuses: seq<NodeStatus>, now: int): (v: seq<NodeView>)
    ensures |v| == |statuses| && forall i :: 0 <= i < |v| ==> v[i] == ViewOf(statuses[i], now)
  {
    seq(|statuses|, i requires 0 <= i < |statuses| => ViewOf(statuses[i], now))
  }

  /** Index of the first node of that name, or the number of nodes. */
  function IndexOf(nodes: seq<NodeView>, name: string): (i: nat)
    ensures i <= |nodes| && (i < |nodes| ==> nodes[i].name == name) && forall k :: 0 <= k < i ==> nodes[k].name != name
  {
    if nodes == [] then 0 else if nodes[0].name == name then 0 else 1 + IndexOf(nodes[1..], name)
  }

  predicate IsUp(nodes: seq<NodeView>, name: string) {
    var i := IndexOf(nodes, name);
    i < |nodes| && nodes[i].reachable
  }

  predicate FirstUpAt(nodes: seq<NodeView>, partners: seq<string>, k: int) {
    0 <= k < |partners| && IsUp(nodes, partners[k]) && forall j :: 0 <= j < k ==> !IsUp(nodes, partners[j])
  }

  /** The first reachable partner. */
  function FirstUp(nodes: seq<NodeView>, partners: seq<string>): (r: Option<string>)
    ensures r.None? ==> forall k :: 0 <= k < |partners| ==> !IsUp(nodes, partners[k])
    ensures r.Some? ==> exists k :: FirstUpAt(nodes, partners, k) && partners[k] == r.value
  {
    if partners == [] then None
    else if IsUp(nodes, partners[0]) then
      assert FirstUpAt(nodes, partners, 0);
      Some(partners[0])
    else
      assert forall j :: 0 < j < |partners| ==> partners[j] == partners[1..][j - 1];
      assert forall k :: FirstUpAt(nodes, partners[1..], k) ==> FirstUpAt(nodes, partners, k + 1);
      FirstUp(nodes, partners[1..])
  }

  predicate IsDown(nodes: seq<NodeView>, name: string, threshold: int) {
    var i := IndexOf(nodes, name);
    i < |nodes| && !nodes[i].reachable && nodes[i].unreachableSeconds >= threshold
  }

  function OrderFor(s: HaSpec, nodes: seq<NodeView>, threshold: int): Option<MigrationOrder> {
    if !IsDown(nodes, s.primary, threshold) then None
    else
      match FirstUp(nodes, s.partners)
      case None => None
      case Some(p) => Some(MigrationOrder(s.container, s.primary, p))
  }

  /** What is picked, in order. */
  function Picked<S, T>(items: seq<S>, pick: S -> Option<T>): seq<T> {
    if items == [] then []
    else
      var before, last := Picked(items[..|items| - 1], pick), pick(items[|items| - 1]);
      if last.Some? then before + [last.value] else before
  }

  lemma {:induction false} PickedStep<S, T>(items: seq<S>, i: nat, pick: S -> Option<T>)
    requires i < |items|
    ensures Picked(items[..i + 1], pick)
         == if pick(items[i]).Some? then Picked(items[..i], pick) + [pick(items[i]).value] else Picked(items[..i], pick)
  {
    assert items[..i + 1][..i] == items[..i];
  }

  lemma {:induction false} PickedMember<S, T>(items: seq<S>, pick: S -> Option<T>, o: T)
    ensures o in Picked(items, pick) <==> exists k :: 0 <= k < |items| && pick(items[k]) == Some(o)
  {
    if items != [] {
      var n := |items| - 1;
      PickedMember(items[..n], pick, o);
      assert items == items[..n] + [items[n]];
      assert forall k :: 0 <= k < n ==> items[..n][k] == items[k];
      if k :| 0 <= k < n && pick(items[..n][k]) == Some(o) {
        assert pick(items[k]) == Some(o);
      }
    }
  }

  function Orders(specs: seq<HaSpec>, nodes: seq<NodeView>, threshold: int): seq<MigrationOrder> {
    Picked(specs, (s: HaSpec) => OrderFor(s, nodes, threshold))
  }

  method FindNode(nodes: seq<NodeView>, name: string) returns (i: nat)
    ensures i == IndexOf(nodes, name)
  {
    i := 0;
    while i < |nodes| && nodes[i].name != name
      invariant i <= |nodes| && forall k :: 0 <= k < i ==> nodes[k].name != name
    {
      i := i + 1;
    }
  }

  /** evaluateFailoverOrders. */
  method EvaluateFailoverOrders(
    specs: seq<HaSpec>, nodes: seq<NodeView>, threshold: int)
    returns (orders: seq<MigrationOrder>)
    ensures orders == Orders(specs, nodes, threshold)
  {
    ghost var pick := (s: HaSpec) => OrderFor(s, nodes, threshold);
    orders := [];
    for k := 0 to |specs|
      invariant orders == Picked(specs[..k], pick)
    {
      PickedStep(specs, k, pick);
      var order := EvaluateSpec(specs[k], nodes, threshold);
      if order.Some? {
        orders := orders + [order.value];
      }
    }
    assert specs[..|specs|] == specs;
  }

  /** The loop over one container's partners. */
  method EvaluateSpec(s: HaSpec, nodes: seq<NodeView>, threshold: int) returns (order: Option<MigrationOrder>)
    ensures order == OrderFor(s, nodes, threshold)
  {
    var primary := FindNode(nodes, s.primary);
    if primary == |nodes| || nodes[primary].reachable || nodes[primary].unreachableSeconds < threshold {
      return None;
    }
    assert s.partners[0..] == s.partners;
    for j := 0 to |s.partners|
      invariant FirstUp(nodes, s.partners) == FirstUp(nodes, s.partners[j..])
    {
      var p := FindNode(nodes, s.partners[j]);
      if p < |nodes| && nodes[p].reachable {
        return Some(MigrationOrder(s.container, s.primary, s.partners[j]));
      }
      assert s.partners[j..][1..] == s.partners[j + 1..];
    }
    return None;
  }

  lemma OrdersComeFromSpecs(specs: seq<HaSpec>, nodes: seq<NodeView>, threshold: int, o: MigrationOrder)
    ensures o in Orders(specs, nodes, threshold) <==>
      exists k :: 0 <= k < |specs| && OrderFor(specs[k], nodes, threshold) == Some(o)
  {
    PickedMember(specs, (s: HaSpec) => OrderFor(s, nodes, threshold), o);
  }

  // ---------- validateSpecs ----------

  predicate IsName(s: string) { 0 < |s| <= 128 && forall i :: 0 <= i < |s| ==> IsNameChar(s[i]) }

  /** One to 128 characters of a name. */
  predicate NameText(s: string) { 1 <= |s| <= 128 && AllNameCodes(s) }

  lemma NameIff(s: string)
    ensures IsName(s) <==> NameText(s)
  {
  }

  ghost predicate ValidSpec(s: HaSpec) {
    && NameText(s.container) && NameText(s.primary) && s.partners != []
    && (forall i :: 0 <= i < |s.partners| ==> NameText(s.partners[i]) && s.partners[i] != s.primary)
    && (forall i, j :: 0 <= i < j < |s.partners| ==> s.partners[i] != s.partners[j])
  }

  /** validateSpecs, with the error text reduced to a flag. */
  method ValidateSpecs(specs: seq<HaSpec>) returns (ok: bool)
    ensures ok <==> forall k :: 0 <= k < |specs| ==> ValidSpec(specs[k])
  {
    for k := 0 to |specs|
      invariant forall m :: 0 <= m < k ==> ValidSpec(specs[m])
    {
      var s := specs[k];
      NameIff(s.container);
      NameIff(s.primary);
      if !IsName(s.container) || !IsName(s.primary) || s.partners == [] {
        return false;
      }
      var seen := {s.primary};
      for j := 0 to |s.partners|
        invariant seen == {s.primary} + set i | 0 <= i < j :: s.partners[i]
        invariant forall i :: 0 <= i < j ==> NameText(s.partners[i]) && s.partners[i] != s.primary
        invariant forall i, m :: 0 <= i < m < j ==> s.partners[i] != s.partners[m]
      {
        NameIff(s.partners[j]);
        if !IsName(s.partners[j]) || s.partners[j] in seen {
          assert !ValidSpec(s);
          return false;
        }
        seen := seen + {s.partners[j]};
      }
    }
    return true;
  }

  // ---------- Main result ----------

  /** The poll history of the first node of that name. */
  ghost predicate PrimaryFailed(statuses: seq<NodeStatus>, hs: seq<seq<Probe>>, now: int, name: string, threshold: int)
    requires |statuses| == |hs|
  {
    var i := IndexOf(Views(statuses, now), name);
    i < |hs| && FailedSince(hs[i], now - threshold)
  }

  ghost predicate PartnerUp(statuses: seq<NodeStatus>, hs: seq<seq<Probe>>, now: int, name: string)
    requires |statuses| == |hs|
  {
    var i := IndexOf(Views(statuses, now), name);
    i < |hs| && EndsUp(hs[i])
  }

  ghost predicate SomePartnerUp(statuses: seq<NodeStatus>, hs: seq<seq<Probe>>, now: int, s: HaSpec)
    requires |statuses| == |hs|
  {
    exists k :: 0 <= k < |s.partners| && PartnerUp(statuses, hs, now, s.partners[k])
  }

  /** The primary is listed but was never polled. */
  ghost predicate NeverPolled(statuses: seq<NodeStatus>, hs: seq<seq<Probe>>, now: int, name: string)
    requires |statuses| == |hs|
  {
    var i := IndexOf(Views(statuses, now), name);
    i < |hs| && hs[i] == []
  }

  /**
   For any threshold, whatever polls led here: a spec gets an order exactly when some partner answered
   its last poll and its primary has failed every poll since at least `threshold` seconds ago, or
   was never polled while the threshold is not positive. The order goes to the first such partner,
   and for a validated spec never to the primary.
   */
  lemma {:induction false} OrderWhen(
    statuses: seq<NodeStatus>, hs: seq<seq<Probe>>, now: int, s: HaSpec, threshold: int)
    requires |statuses| == |hs|
    requires forall i :: 0 <= i < |hs| ==> Records(statuses[i], hs[i]) && Clocked(hs[i])
    ensures var r := OrderFor(s, Views(statuses, now), threshold);
      && (r.Some? <==>
            && SomePartnerUp(statuses, hs, now, s)
            && (PrimaryFailed(statuses, hs, now, s.primary, threshold)
                || (threshold <= 0 && NeverPolled(statuses, hs, now, s.primary))))
      && (r.Some? ==> r.value.container == s.container && r.value.fromNode == s.primary && exists k ::
            0 <= k < |s.partners| && r.value.toNode == s.partners[k] && PartnerUp(statuses, hs, now, s.partners[k])
            && forall j :: 0 <= j < k ==> !PartnerUp(statuses, hs, now, s.partners[j]))
      && (r.Some? && ValidSpec(s) ==> r.value.toNode != s.primary)
  {
    var views := Views(statuses, now);
    DownWhen(statuses, hs, now, s.primary, threshold);
    forall k | 0 <= k < |s.partners|
      ensures IsUp(views, s.partners[k]) <==> PartnerUp(statuses, hs, now, s.partners[k])
    {
      var j := IndexOf(views, s.partners[k]);
      if j < |hs| { assert views[j] == ViewOf(statuses[j], now); }
    }
  }

  lemma {:induction false} DownWhen(
    statuses: seq<NodeStatus>, hs: seq<seq<Probe>>, now: int, name: string, threshold: int)
    requires |statuses| == |hs|
    requires forall i :: 0 <= i < |hs| ==> Records(statuses[i], hs[i]) && Clocked(hs[i])
    ensures IsDown(Views(statuses, now), name, threshold) <==>
      || PrimaryFailed(statuses, hs, now, name, threshold)
      || (threshold <= 0 && NeverPolled(statuses, hs, now, name))
  {
    var views := Views(statuses, now);
    var i := IndexOf(views, name);
    if i < |hs| {
      StreakPositive(hs[i]);
      StreakReachesBack(hs[i], now - threshold);
      assert views[i] == ViewOf(statuses[i], now);
    }
  }

  /**
   The promise "ordered if and only if the primary has been down for the threshold and a partner is
   up" holds exactly when the threshold is positive, the primary is unknown or was polled, or no
   partner is up.
   */
  lemma {:induction false} OrderIff(
    statuses: seq<NodeStatus>, hs: seq<seq<Probe>>, now: int, s: HaSpec, threshold: int)
    requires |statuses| == |hs|
    requires forall i :: 0 <= i < |hs| ==> Records(statuses[i], hs[i]) && Clocked(hs[i])
    ensures var up := SomePartnerUp(statuses, hs, now, s);
      (OrderFor(s, Views(statuses, now), threshold).Some? <==>
        PrimaryFailed(statuses, hs, now, s.primary, threshold) && up)
      <==> (threshold > 0 || !NeverPolled(statuses, hs, now, s.primary) || !up)
  {
    OrderWhen(statuses, hs, now, s, threshold);
  }

  /** A witness: with zero, a primary that was never polled is failed over. */
  lemma ZeroThresholdFires(container: string, a: string, b: string, now: int)
    requires a != b
    ensures var statuses := [NodeStatus(a, false, 0, "", false), NodeStatus(b, true, 0, "", false)];
      && Records(statuses[0], []) && Records(statuses[1], [Up])
      && OrderFor(HaSpec(container, a, [b]), Views(statuses, now), 0) == Some(MigrationOrder(container, a, b))
  {
    var statuses := [NodeStatus(a, false, 0, "", false), NodeStatus(b, true, 0, "", false)];
    var views := Views(statuses, now);
    assert views[0] == NodeView(a, false, 0) && views[1] == NodeView(b, true, 0);
    assert IndexOf(views, a) == 0 && IndexOf(views, b) == 1;
    assert IsUp(views, [b][0]);
  }
}
