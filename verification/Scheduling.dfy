/** pickLeastLoaded of hub/scheduling_pure.cpp and the migrations it drives. */
module Scheduling {
  import opened Text
  import opened Sorting

  datatype NodeView = NodeView(name: string, host: string, reachable: bool, count: nat)

  datatype Recommendation = Recommendation(target: string, host: string, count: nat, runnerUp: nat, confidence: int)

  const NOBODY := Recommendation("", "", 0, 0, 0)

  const ANTI_FLAP_PERCENT := 10

  function Tolerance(best: nat): nat { best + best * ANTI_FLAP_PERCENT / 100 }

  // ---------- What is recommended ----------

  predicate LoadLe(a: NodeView, b: NodeView) {
    a.count < b.count || (a.count == b.count && !Less(b.name, a.name))
  }

  lemma LoadOrdered()
    ensures TotalPreorder(LoadLe)
  {
    forall a, b ensures LoadLe(a, b) || LoadLe(b, a) {
      LessTotal(a.name, b.name);
    }
    forall a, b, c | LoadLe(a, b) && LoadLe(b, c) ensures LoadLe(a, c) {
      LessTotal(a.name, b.name);
      LessTotal(b.name, c.name);
      LessTotal(a.name, c.name);
      if Less(a.name, b.name) && Less(b.name, c.name) { LessTransitive(a.name, b.name, c.name); }
    }
  }

  /** Least loaded of the reachable nodes, the first name among equals. */
  ghost predicate IsBest(nodes: seq<NodeView>, b: NodeView) {
    b in nodes && b.reachable && forall n :: n in nodes && n.reachable ==> LoadLe(b, n)
  }

  /** A reachable node of that name within tolerance of the least loaded. */
  predicate Tolerated(nodes: seq<NodeView>, hint: string, best: nat, n: NodeView) {
    n in nodes && n.reachable && n.name == hint && n.count <= Tolerance(best)
  }

  ghost predicate Stays(nodes: seq<NodeView>, hint: string, best: nat) {
    hint != "" && exists n :: Tolerated(nodes, hint, best, n)
  }

  /** Stay on the hinted node while it is within tolerance, else go to the least loaded. */
  ghost predicate Recommends(nodes: seq<NodeView>, hint: string, t: NodeView) {
    exists b :: IsBest(nodes, b) &&
      if Stays(nodes, hint, b.count) then Tolerated(nodes, hint, b.count, t) else t == b
  }

  function ReachableNodes(nodes: seq<NodeView>): seq<NodeView> {
    if nodes == [] then []
    else
      var before := ReachableNodes(nodes[..|nodes| - 1]);
      if nodes[|nodes| - 1].reachable then before + [nodes[|nodes| - 1]] else before
  }

  lemma {:induction false} ReachableMember(nodes: seq<NodeView>, n: NodeView)
    ensures n in ReachableNodes(nodes) <==> n in nodes && n.reachable
  {
    if nodes != [] {
      ReachableMember(nodes[..|nodes| - 1], n);
      assert nodes == nodes[..|nodes| - 1] + [nodes[|nodes| - 1]];
    }
  }

  /** The load to beat: the least count once the best is taken out. */
  ghost predicate IsRunnerUp(nodes: seq<NodeView>, best: NodeView, r: nat) {
    var rest := multiset(ReachableNodes(nodes)) - multiset{best};
    if rest == multiset{} then r == best.count
    else (exists n :: n in rest && n.count == r) && forall n :: n in rest ==> r <= n.count
  }

  function Confidence(sole: bool, best: nat, runnerUp: nat): (c: int)
    ensures 0 <= c <= 100
  {
    if sole then 100
    else if runnerUp == 0 then 50
    else if runnerUp <= best then 0
    else
      var pct := (runnerUp - best) * 100 / runnerUp;
      assert (runnerUp - best) * 100 <= runnerUp * 100;
      if pct > 100 then 100 else pct
  }

  method CollectReachable(nodes: seq<NodeView>) returns (r: seq<NodeView>)
    ensures r == ReachableNodes(nodes)
  {
    r := [];
    for i := 0 to |nodes|
      invariant r == ReachableNodes(nodes[..i])
    {
      assert nodes[..i + 1][..i] == nodes[..i];
      if nodes[i].reachable {
        r := r + [nodes[i]];
      }
    }
    assert nodes[..|nodes|] == nodes;
  }

  /** find_if over the sorted nodes: the least loaded of that name. */
  method FindNamed(sorted: seq<NodeView>, hint: string) returns (i: nat)
    requires Sorted(sorted, LoadLe)
    ensures i <= |sorted|
    ensures i < |sorted| ==> sorted[i].name == hint
    ensures i < |sorted| ==> forall n :: n in sorted && n.name == hint ==> sorted[i].count <= n.count
    ensures i == |sorted| ==> forall n :: n in sorted ==> n.name != hint
  {
    i := 0;
    while i < |sorted| && sorted[i].name != hint
      invariant i <= |sorted| && forall k :: 0 <= k < i ==> sorted[k].name != hint
    {
      i := i + 1;
    }
    if i < |sorted| {
      forall n | n in sorted && n.name == hint ensures sorted[i].count <= n.count {
        var k :| 0 <= k < |sorted| && sorted[k] == n;
        assert k == i || LoadLe(sorted[i], sorted[k]);
      }
    }
  }

  lemma SortedHead(nodes: seq<NodeView>, sorted: seq<NodeView>)
    requires multiset(sorted) == multiset(ReachableNodes(nodes)) && Sorted(sorted, LoadLe) && sorted != []
    ensures forall n :: n in sorted <==> n in nodes && n.reachable
    ensures IsBest(nodes, sorted[0])
    ensures IsRunnerUp(nodes, sorted[0], if |sorted| >= 2 then sorted[1].count else sorted[0].count)
  {
    SameElements(sorted, ReachableNodes(nodes));
    forall n ensures n in sorted <==> n in nodes && n.reachable {
      ReachableMember(nodes, n);
    }
    forall n | n in sorted ensures LoadLe(sorted[0], n) {
      var k :| 0 <= k < |sorted| && sorted[k] == n;
      if k == 0 { LoadOrdered(); assert LoadLe(n, n); }
    }
    assert sorted[0] in sorted;
    RunnerUpIsSecond(nodes, sorted);
  }

  lemma RunnerUpIsSecond(nodes: seq<NodeView>, sorted: seq<NodeView>)
    requires multiset(sorted) == multiset(ReachableNodes(nodes)) && Sorted(sorted, LoadLe) && sorted != []
    ensures IsRunnerUp(nodes, sorted[0], if |sorted| >= 2 then sorted[1].count else sorted[0].count)
  {
    var tail := sorted[1..];
    assert sorted == [sorted[0]] + tail;
    assert multiset(sorted) - multiset{sorted[0]} == multiset(tail);
    if |sorted| >= 2 {
      assert tail[0] in tail;
      forall n | n in multiset(tail) ensures sorted[1].count <= n.count {
        assert n in tail;
        var k :| 0 <= k < |tail| && tail[k] == n;
        assert k == 0 || LoadLe(sorted[1], sorted[k + 1]);
      }
    }
  }

  /** Without alternative certain, even between empty nodes, none on a tie, else the whole per cent of the spread. */
  lemma ConfidenceMeans(sole: bool, best: nat, runnerUp: nat)
    requires best <= runnerUp
    ensures var c := Confidence(sole, best, runnerUp);
      if sole then c == 100
      else if runnerUp == 0 then c == 50
      else c * runnerUp <= 100 * (runnerUp - best) < (c + 1) * runnerUp
  {
    if runnerUp > 0 {
      Percent(runnerUp - best, runnerUp);
    }
  }

  lemma Percent(spread: nat, whole: nat)
    requires 0 < whole && spread <= whole
    ensures var p := spread * 100 / whole; p <= 100 && p * whole <= 100 * spread < (p + 1) * whole
  {
    var p := spread * 100 / whole;
    assert spread * 100 == p * whole + spread * 100 % whole;
    if 100 < p {
      Exceeds(p, whole);
    }
  }

  lemma Exceeds(p: nat, whole: nat)
    requires p > 100
    ensures p * whole >= 100 * whole + whole
  {
    assert p * whole == 100 * whole + (p - 100) * whole && (p - 100) * whole >= whole;
  }

  // ---------- The tolerance ----------

  lemma WithinTenPercent(best: nat, c: nat)
    ensures c <= Tolerance(best) <==> 10 * c <= 11 * best
  {
  }

  ghost predicate LeastCount(nodes: seq<NodeView>, b: nat) {
    && (exists n :: n in nodes && n.reachable && n.count == b)
    && forall n :: n in nodes && n.reachable ==> b <= n.count
  }

  ghost predicate LeastNamed(nodes: seq<NodeView>, name: string, c: nat) {
    && (exists n :: n in nodes && n.reachable && n.name == name && n.count == c)
    && forall n :: n in nodes && n.reachable && n.name == name ==> c <= n.count
  }

  /** The hinted node is kept exactly while its count exceeds the least by no more than a tenth. */
  ghost predicate KeptByTenth(nodes: seq<NodeView>, hint: string, target: string) {
    forall b, c :: hint != "" && LeastCount(nodes, b) && LeastNamed(nodes, hint, c) ==>
      (target == hint <==> 10 * c <= 11 * b)
  }

  /** Away from the hint it is a least loaded node, the first by name among those. */
  ghost predicate FirstOfLeast(nodes: seq<NodeView>, hint: string, rec: Recommendation) {
    rec.target != hint ==> forall n :: n in nodes && n.reachable ==>
      rec.count < n.count || (rec.count == n.count && !Less(n.name, rec.target))
  }

  lemma RecommendsByTenth(nodes: seq<NodeView>, hint: string, t: NodeView)
    requires Recommends(nodes, hint, t)
    ensures KeptByTenth(nodes, hint, t.name)
  {
    var best :| IsBest(nodes, best)
      && if Stays(nodes, hint, best.count) then Tolerated(nodes, hint, best.count, t) else t == best;
    forall b, c | hint != "" && LeastCount(nodes, b) && LeastNamed(nodes, hint, c)
      ensures t.name == hint <==> 10 * c <= 11 * b
    {
      BestHasLeast(nodes, best, b);
      WithinTenPercent(b, c);
      var n :| n in nodes && n.reachable && n.name == hint && n.count == c;
      if 10 * c <= 11 * b {
        assert Tolerated(nodes, hint, b, n);
      } else if Stays(nodes, hint, b) {
        WithinTenPercent(b, t.count);
      }
    }
  }

  lemma BestHasLeast(nodes: seq<NodeView>, best: NodeView, b: nat)
    requires IsBest(nodes, best) && LeastCount(nodes, b)
    ensures b == best.count
  {
    var n :| n in nodes && n.reachable && n.count == b;
    assert LoadLe(best, n);
  }

  /** pickLeastLoaded; container counts are unbounded here. */
  method PickLeastLoaded(nodes: seq<NodeView>, hint: string) returns (rec: Recommendation)
    ensures (forall n :: n in nodes ==> !n.reachable) ==> rec == Recommendation("", "", 0, 0, 0)
    ensures (exists n :: n in nodes && n.reachable) ==>
      exists t :: Recommends(nodes, hint, t) && rec.target == t.name && rec.host == t.host && rec.count == t.count
    ensures KeptByTenth(nodes, hint, rec.target) && FirstOfLeast(nodes, hint, rec)
    ensures forall b :: IsBest(nodes, b) ==>
      if Stays(nodes, hint, b.count) then rec.runnerUp == b.count && rec.confidence == 100
      else (IsRunnerUp(nodes, b, rec.runnerUp)
            && rec.confidence == Confidence(|ReachableNodes(nodes)| == 1, b.count, rec.runnerUp))
  {
    var reachable := CollectReachable(nodes);
    forall n ensures n in reachable <==> n in nodes && n.reachable {
      ReachableMember(nodes, n);
    }
    if reachable == [] {
      return NOBODY;
    }
    assert reachable[0] in reachable;
    LoadOrdered();
    var sorted := Sort(reachable, LoadLe);
    SameElements(sorted, reachable);
    SortedHead(nodes, sorted);
    var best := sorted[0];
    BestCountUnique(nodes, best);
    var runnerUp := if |sorted| >= 2 then sorted[1].count else best.count;
    if hint != "" {
      var i := FindNamed(sorted, hint);
      if i < |sorted| {
        var cur := sorted[i];
        assert cur in sorted;
        if cur.count <= Tolerance(best.count) {
          assert Tolerated(nodes, hint, best.count, cur);
          assert Recommends(nodes, hint, cur);
          RecommendsByTenth(nodes, hint, cur);
          return Recommendation(cur.name, cur.host, cur.count, best.count, 100);
        }
      }
    }
    assert !Stays(nodes, hint, best.count);
    assert Recommends(nodes, hint, best);
    RecommendsByTenth(nodes, hint, best);
    rec := Recommendation(best.name, best.host, best.count, runnerUp, Confidence(|sorted| == 1, best.count, runnerUp));
    assert FirstOfLeast(nodes, hint, rec);
    forall b | IsBest(nodes, b) ensures IsRunnerUp(nodes, b, runnerUp) {
      SameRunnerUp(nodes, best, b, runnerUp);
    }
  }

  lemma BestCountUnique(nodes: seq<NodeView>, b: NodeView)
    requires IsBest(nodes, b)
    ensures forall c :: IsBest(nodes, c) ==> c.count == b.count
  {
    forall c | IsBest(nodes, c) ensures c.count == b.count {
      assert LoadLe(b, c) && LoadLe(c, b);
    }
  }

  lemma SameRunnerUp(nodes: seq<NodeView>, a: NodeView, b: NodeView, r: nat)
    requires IsBest(nodes, a) && IsBest(nodes, b) && IsRunnerUp(nodes, a, r)
    ensures IsRunnerUp(nodes, b, r)
  {
    BestCountUnique(nodes, a);
    var all := multiset(ReachableNodes(nodes));
    ReachableMember(nodes, a);
    ReachableMember(nodes, b);
    assert a in all && b in all;
    if a != b {
      assert b in all - multiset{a} && a in all - multiset{b};
      forall n | n in all - multiset{b} ensures r <= n.count {
        if n != a { assert n in all - multiset{a}; }
        assert r <= b.count;
      }
      var n :| n in all - multiset{a} && n.count == r;
      if n == b { assert a.count == r; } else { assert n in all - multiset{b}; }
    }
  }

  // ---------- Migrating as told ----------

  ghost predicate Cluster(ns: seq<NodeView>) {
    && (forall i :: 0 <= i < |ns| ==> ns[i].name != "")
    && (forall i, j :: 0 <= i < j < |ns| ==> ns[i].name != ns[j].name)
  }

  function Moved(ns: seq<NodeView>, i: nat, j: nat): seq<NodeView>
    requires i < |ns| && j < |ns| && ns[i].count > 0
  {
    ns[i := ns[i].(count := ns[i].count - 1)][j := ns[j].(count := ns[j].count + 1)]
  }

  /** A container on reachable node `i` asks with its node as the hint and is sent to node `j`. */
  ghost predicate Migrates(ns: seq<NodeView>, i: nat, j: nat) {
    && i < |ns| && j < |ns| && i != j && ns[i].reachable && ns[i].count > 0
    && Recommends(ns, ns[i].name, ns[j])
  }

  /** A migration leaves an intolerably loaded node for the least loaded one. */
  lemma MigratesWhen(ns: seq<NodeView>, i: nat, j: nat)
    requires Cluster(ns) && Migrates(ns, i, j)
    ensures IsBest(ns, ns[j]) && ns[i].count > Tolerance(ns[j].count)
  {
    var b :| IsBest(ns, b)
      && if Stays(ns, ns[i].name, b.count) then Tolerated(ns, ns[i].name, b.count, ns[j]) else ns[j] == b;
    if !Stays(ns, ns[i].name, b.count) {
      assert !Tolerated(ns, ns[i].name, b.count, ns[i]);
    }
  }

  ghost predicate LeastIs(ns: seq<NodeView>, m: nat) {
    forall k :: 0 <= k < |ns| && ns[k].reachable ==> m <= ns[k].count
  }

  /** n * n, by odd numbers. */
  function Square(n: nat): nat { if n == 0 then 0 else Square(n - 1) + 2 * n - 1 }

  lemma {:induction false} SquareIsProduct(n: nat)
    ensures Square(n) == n * n
  {
    if n > 0 { SquareIsProduct(n - 1); }
  }

  function SumOfSquares(ns: seq<NodeView>): nat {
    if ns == [] then 0 else SumOfSquares(ns[..|ns| - 1]) + Square(ns[|ns| - 1].count)
  }

  lemma {:induction false} SquareReplaced(ns: seq<NodeView>, i: nat, n: NodeView)
    requires i < |ns|
    ensures SumOfSquares(ns[i := n]) == SumOfSquares(ns) - Square(ns[i].count) + Square(n.count)
  {
    var k := |ns| - 1;
    if i == k {
      assert ns[i := n][..k] == ns[..k];
    } else {
      SquareReplaced(ns[..k], i, n);
      assert ns[i := n][..k] == ns[..k][i := n];
    }
  }

  /** With at least ten containers everywhere, a move goes downhill by two or more and lowers the sum of squares. */
  lemma MoveGoesDown(ns: seq<NodeView>, i: nat, j: nat)
    requires Cluster(ns) && LeastIs(ns, 10) && Migrates(ns, i, j)
    ensures ns[i].count >= ns[j].count + 2
    ensures SumOfSquares(Moved(ns, i, j)) + 2 <= SumOfSquares(ns)
    ensures forall m :: LeastIs(ns, m) ==> LeastIs(Moved(ns, i, j), m)
    ensures Cluster(Moved(ns, i, j))
  {
    MigratesWhen(ns, i, j);
    assert ns[j].count >= 10;
    SquaresFall(ns, i, j);
    forall m | LeastIs(ns, m) ensures LeastIs(Moved(ns, i, j), m) {
      LeastKept(ns, i, j, m);
    }
  }

  lemma LeastKept(ns: seq<NodeView>, i: nat, j: nat, m: nat)
    requires i < |ns| && j < |ns| && i != j && ns[i].count > ns[j].count && ns[j].reachable && LeastIs(ns, m)
    ensures LeastIs(Moved(ns, i, j), m)
  {
    var next := Moved(ns, i, j);
    forall k | 0 <= k < |next| && next[k].reachable ensures m <= next[k].count {
      assert m <= ns[j].count;
      if k != i && k != j { assert next[k] == ns[k]; }
    }
  }

  lemma {:induction false} SquaresFall(ns: seq<NodeView>, i: nat, j: nat)
    requires i < |ns| && j < |ns| && i != j && ns[i].count >= ns[j].count + 2
    ensures SumOfSquares(Moved(ns, i, j)) + 2 <= SumOfSquares(ns)
  {
    SumMoved(ns, i, j);
    StepDown(ns[i].count, ns[j].count);
  }

  lemma {:induction false} SumMoved(ns: seq<NodeView>, i: nat, j: nat)
    requires i < |ns| && j < |ns| && i != j && ns[i].count > 0
    ensures SumOfSquares(Moved(ns, i, j)) - SumOfSquares(ns) ==
      Square(ns[i].count - 1) - Square(ns[i].count) + Square(ns[j].count + 1) - Square(ns[j].count)
  {
    var light, heavy := ns[i].(count := ns[i].count - 1), ns[j].(count := ns[j].count + 1);
    SquareReplaced(ns, i, light);
    SquareReplaced(ns[i := light], j, heavy);
  }

  lemma StepDown(x: nat, y: nat)
    requires x >= y + 2
    ensures Square(x - 1) - Square(x) + Square(y + 1) - Square(y) <= -2
  {
    assert Square(x) == Square(x - 1) + 2 * x - 1;
    assert Square(y + 1) == Square(y) + 2 * y + 1;
  }

  /** A run: each state follows from the last by one migration. */
  ghost predicate IsRun(run: seq<seq<NodeView>>) {
    && run != []
    && forall t :: 0 <= t < |run| - 1 ==> Follows(run[t], run[t + 1])
  }

  ghost predicate Follows(ns: seq<NodeView>, next: seq<NodeView>) {
    exists i, j :: Migrates(ns, i, j) && next == Moved(ns, i, j)
  }

  /** A move to a node with at least two containers fewer. */
  ghost predicate Steep(ns: seq<NodeView>, next: seq<NodeView>) {
    exists i: nat, j: nat :: Migrates(ns, i, j) && next == Moved(ns, i, j) && ns[i].count >= ns[j].count + 2
  }

  /** A move from m + 1 containers to m, with m below ten: it only swaps the two counts. */
  ghost predicate Flat(ns: seq<NodeView>, next: seq<NodeView>) {
    exists i: nat, j: nat :: Migrates(ns, i, j) && next == Moved(ns, i, j) && ns[i].count == ns[j].count + 1 <= 10
  }

  /** How many of the first `t` moves are of a kind. */
  ghost function Moves(run: seq<seq<NodeView>>, t: nat, kind: (seq<NodeView>, seq<NodeView>) -> bool): nat
    requires t < |run|
  {
    if t == 0 then 0 else Moves(run, t - 1, kind) + if kind(run[t - 1], run[t]) then 1 else 0
  }

  ghost function SteepMoves(run: seq<seq<NodeView>>, t: nat): nat
    requires t < |run|
  {
    Moves(run, t, (a, b) => Steep(a, b))
  }

  lemma {:induction false} AllMoves(run: seq<seq<NodeView>>, t: nat, kind: (seq<NodeView>, seq<NodeView>) -> bool)
    requires t < |run| && forall s :: 0 <= s < t ==> kind(run[s], run[s + 1])
    ensures Moves(run, t, kind) == t
  {
    if t > 0 {
      AllMoves(run, t - 1, kind);
      assert kind(run[t - 1], run[t - 1 + 1]);
    }
  }

  /** Every move is steep, or flat below ten; the sum of squares falls by two or stays. */
  lemma {:induction false} SteepOrFlat(ns: seq<NodeView>, next: seq<NodeView>)
    requires Cluster(ns) && Follows(ns, next)
    ensures Cluster(next) && (Steep(ns, next) || Flat(ns, next))
    ensures SumOfSquares(next) + (if Steep(ns, next) then 2 else 0) <= SumOfSquares(ns)
    ensures forall m :: LeastIs(ns, m) ==> LeastIs(next, m)
  {
    var i: nat, j: nat :| Migrates(ns, i, j) && next == Moved(ns, i, j);
    MoveKeeps(ns, i, j);
    if Steep(ns, next) {
      var k: nat, l: nat :| Migrates(ns, k, l) && next == Moved(ns, k, l) && ns[k].count >= ns[l].count + 2;
      SquaresFall(ns, k, l);
    } else {
      assert ns[i].count == ns[j].count + 1;
      SquaresStay(ns, i, j);
      assert Flat(ns, next);
    }
  }

  lemma {:induction false} MoveKeeps(ns: seq<NodeView>, i: nat, j: nat)
    requires Cluster(ns) && Migrates(ns, i, j)
    ensures Cluster(Moved(ns, i, j)) && (ns[i].count >= ns[j].count + 2 || ns[i].count == ns[j].count + 1 <= 10)
    ensures forall m :: LeastIs(ns, m) ==> LeastIs(Moved(ns, i, j), m)
  {
    MigratesWhen(ns, i, j);
    forall m | LeastIs(ns, m) ensures LeastIs(Moved(ns, i, j), m) { LeastKept(ns, i, j, m); }
  }

  lemma {:induction false} SquaresStay(ns: seq<NodeView>, i: nat, j: nat)
    requires i < |ns| && j < |ns| && i != j && ns[i].count == ns[j].count + 1
    ensures SumOfSquares(Moved(ns, i, j)) == SumOfSquares(ns)
  {
    SumMoved(ns, i, j);
  }

  /**
   Along every run of migrations in any cluster: twice the number of steep moves plus the sum of
   squares never exceeds the initial sum, every other move is flat, and the least count never drops.
   */
  lemma {:induction false} RunsEnd(run: seq<seq<NodeView>>, t: nat)
    requires IsRun(run) && Cluster(run[0]) && t < |run|
    ensures Cluster(run[t]) && 2 * SteepMoves(run, t) + SumOfSquares(run[t]) <= SumOfSquares(run[0])
    ensures t + 1 < |run| ==> Steep(run[t], run[t + 1]) || Flat(run[t], run[t + 1])
    ensures forall m :: LeastIs(run[0], m) ==> LeastIs(run[t], m)
  {
    if t > 0 {
      RunsEnd(run, t - 1);
      assert Follows(run[t - 1], run[t - 1 + 1]);
      SteepOrFlat(run[t - 1], run[t]);
    }
    if t + 1 < |run| {
      assert Follows(run[t], run[t + 1]);
      SteepOrFlat(run[t], run[t + 1]);
    }
  }

  /** With ten containers everywhere all moves are steep ... */
  lemma {:induction false} AllSteep(run: seq<seq<NodeView>>, t: nat)
    requires IsRun(run) && Cluster(run[0]) && LeastIs(run[0], 10) && t < |run|
    ensures SteepMoves(run, t) == t
  {
    var kind := (a: seq<NodeView>, b: seq<NodeView>) => Steep(a, b);
    forall s | 0 <= s < t ensures kind(run[s], run[s + 1]) {
      TenStays(run, s);
      SteepFromTen(run[s], run[s + 1]);
    }
    AllMoves(run, t, kind);
  }

  lemma {:induction false} TenStays(run: seq<seq<NodeView>>, t: nat)
    requires IsRun(run) && Cluster(run[0]) && LeastIs(run[0], 10) && t < |run|
    ensures Cluster(run[t]) && LeastIs(run[t], 10) && (t + 1 < |run| ==> Follows(run[t], run[t + 1]))
  {
    RunsEnd(run, t);
  }

  lemma {:induction false} SteepFromTen(ns: seq<NodeView>, next: seq<NodeView>)
    requires Cluster(ns) && LeastIs(ns, 10) && Follows(ns, next)
    ensures Steep(ns, next)
  {
    var i: nat, j: nat :| Migrates(ns, i, j) && next == Moved(ns, i, j);
    MoveGoesDown(ns, i, j);
  }

  /** ... so every run is finite. */
  lemma RunLengthBounded(run: seq<seq<NodeView>>)
    requires IsRun(run) && Cluster(run[0]) && LeastIs(run[0], 10)
    ensures 2 * (|run| - 1) <= SumOfSquares(run[0])
  {
    RunsEnd(run, |run| - 1);
    AllSteep(run, |run| - 1);
  }

  /** Asked again at once, the container that moved to `j` is told to stay. */
  ghost predicate SettledOn(ns: seq<NodeView>, name: string) {
    forall t :: Recommends(ns, name, t) ==> t.name == name
  }

  /**
   Exactly when a move is not undone or continued at once: the target held ten or more
   containers, or one step was not enough to make another node the lighter one.
   */
  lemma SettlesIff(ns: seq<NodeView>, i: nat, j: nat)
    requires Cluster(ns) && Migrates(ns, i, j)
    ensures SettledOn(Moved(ns, i, j), ns[j].name) <==>
      || ns[j].count >= 10
      || (ns[i].count >= ns[j].count + 2
          && forall k :: 0 <= k < |ns| && k != j && ns[k].reachable ==> ns[k].count > ns[j].count)
  {
    MigratesWhen(ns, i, j);
    var next, b, c := Moved(ns, i, j), ns[j].count, ns[i].count;
    assert next[j] == ns[j].(count := b + 1) && next[i] == ns[i].(count := c - 1);
    assert forall k :: 0 <= k < |ns| && ns[k].reachable ==> LoadLe(ns[j], ns[k]) by {
      forall k | 0 <= k < |ns| && ns[k].reachable ensures LoadLe(ns[j], ns[k]) { assert ns[k] in ns; }
    }
    var least := SomeBest(next, j);
    BestCountUnique(next, least);
    assert LoadLe(least, next[j]);
    assert b <= least.count <= b + 1;
    if b >= 10 || least.count == b + 1 {
      assert Tolerated(next, ns[j].name, least.count, next[j]);
      assert SettledOn(next, ns[j].name);
    } else {
      NotTolerated(next, j, least);
      assert Recommends(next, ns[j].name, least);
      assert least.name != ns[j].name by { NameDecides(next, j, least); }
    }
    LightestAfter(ns, i, j, least);
  }

  lemma SomeBest(ns: seq<NodeView>, j: nat) returns (b: NodeView)
    requires j < |ns| && ns[j].reachable
    ensures IsBest(ns, b)
  {
    var r := ReachableNodes(ns);
    ReachableMember(ns, ns[j]);
    LoadOrdered();
    b := LightestOf(r);
    ReachableMember(ns, b);
    forall n | n in ns && n.reachable ensures LoadLe(b, n) {
      ReachableMember(ns, n);
    }
  }

  lemma {:induction false} LightestOf(r: seq<NodeView>) returns (b: NodeView)
    requires r != [] && TotalPreorder(LoadLe)
    ensures b in r && forall n :: n in r ==> LoadLe(b, n)
  {
    if |r| == 1 {
      b := r[0];
      assert LoadLe(b, b);
    } else {
      var last := r[|r| - 1];
      var a := LightestOf(r[..|r| - 1]);
      assert r == r[..|r| - 1] + [last];
      assert LoadLe(a, last) || LoadLe(last, a);
      b := if LoadLe(a, last) then a else last;
      assert LoadLe(last, last);
    }
  }

  lemma NameDecides(ns: seq<NodeView>, j: nat, n: NodeView)
    requires j < |ns| && n in ns && n.count != ns[j].count
    requires forall i, k :: 0 <= i < k < |ns| ==> ns[i].name != ns[k].name
    ensures n.name != ns[j].name
  {
    var k :| 0 <= k < |ns| && ns[k] == n;
  }

  lemma NotTolerated(ns: seq<NodeView>, j: nat, least: NodeView)
    requires Cluster(ns) && j < |ns| && IsBest(ns, least) && least.count < 10 && ns[j].count > least.count
    ensures !Stays(ns, ns[j].name, least.count)
  {
    forall n ensures !Tolerated(ns, ns[j].name, least.count, n) {
      if n in ns && n.name == ns[j].name {
        var k :| 0 <= k < |ns| && ns[k] == n;
        assert k == j;
      }
    }
  }

  /** The least count after the move is still `b` exactly when another node was as light, or became so. */
  lemma LightestAfter(ns: seq<NodeView>, i: nat, j: nat, least: NodeView)
    requires Cluster(ns) && Migrates(ns, i, j) && IsBest(ns, ns[j]) && ns[i].count > ns[j].count
    requires IsBest(Moved(ns, i, j), least)
    ensures least.count == ns[j].count + 1 <==>
      && ns[i].count >= ns[j].count + 2
      && forall k :: 0 <= k < |ns| && k != j && ns[k].reachable ==> ns[k].count > ns[j].count
  {
    var next := Moved(ns, i, j);
    forall k | 0 <= k < |next| && next[k].reachable ensures least.count <= next[k].count {
      assert next[k] in next;
    }
    var k :| 0 <= k < |next| && next[k] == least;
    assert next[i].count == ns[i].count - 1 && next[j].count == ns[j].count + 1;
    assert forall m :: 0 <= m < |ns| && ns[m].reachable ==> ns[m] in ns && ns[m].count >= ns[j].count;
    if k != i && k != j { assert next[k] == ns[k]; }
    if least.count == ns[j].count + 1 {
      forall m | 0 <= m < |ns| && m != j && ns[m].reachable ensures ns[m].count > ns[j].count {
        if m != i { assert next[m] == ns[m]; }
      }
    }
  }

  /** In particular with ten everywhere. */
  lemma MovedStays(ns: seq<NodeView>, i: nat, j: nat)
    requires Cluster(ns) && LeastIs(ns, 10) && Migrates(ns, i, j)
    ensures SettledOn(Moved(ns, i, j), ns[j].name)
  {
    MigratesWhen(ns, i, j);
    SettlesIff(ns, i, j);
  }

  /** Below ten the scheduler can send a container back and forth for ever. */
  lemma PingPong(a: string, b: string, n: nat)
    requires a != "" && b != "" && a != b && n < 10
    ensures var here, there := [NodeView(a, "", true, n + 1), NodeView(b, "", true, n)],
      [NodeView(a, "", true, n), NodeView(b, "", true, n + 1)];
      Follows(here, there) && Follows(there, here)
  {
    var here, there := [NodeView(a, "", true, n + 1), NodeView(b, "", true, n)],
      [NodeView(a, "", true, n), NodeView(b, "", true, n + 1)];
    assert IsBest(here, here[1]) && IsBest(there, there[0]) by {
      LessTotal(a, b);
      LessTotal(a, a);
      LessTotal(b, b);
    }
    NotTolerated(here, 0, here[1]);
    NotTolerated(there, 1, there[0]);
    assert Recommends(here, a, here[1]) && Recommends(there, b, there[0]);
    assert Migrates(here, 0, 1) && there == Moved(here, 0, 1);
    assert Migrates(there, 1, 0) && here == Moved(there, 1, 0);
  }

  // ---------- When runs are bounded ----------

  ghost predicate RunFrom(run: seq<seq<NodeView>>, ns: seq<NodeView>) { IsRun(run) && run[0] == ns }

  ghost predicate BoundedBy(ns: seq<NodeView>, b: nat) { forall run :: RunFrom(run, ns) ==> |run| <= b }

  /** Step `t` of a run is flat. */
  ghost predicate FlatAt(run: seq<seq<NodeView>>, t: int) { 0 <= t < |run| - 1 && Flat(run[t], run[t + 1]) }

  /** After a flat move the container that moved can be moved flat again. */
  lemma {:induction false} FlatAgain(ns: seq<NodeView>, next: seq<NodeView>) returns (after: seq<NodeView>)
    requires Cluster(ns) && Flat(ns, next)
    ensures Cluster(next) && Flat(next, after)
  {
    var i: nat, j: nat :| Migrates(ns, i, j) && next == Moved(ns, i, j) && ns[i].count == ns[j].count + 1 <= 10;
    MoveKeeps(ns, i, j);
    var best := SomeBest(next, i);
    BestAfterFlat(ns, i, j, best);
    NotTolerated(next, j, best);
    var k :| 0 <= k < |next| && next[k] == best;
    assert Recommends(next, next[j].name, next[k]);
    assert Migrates(next, j, k);
    after := Moved(next, j, k);
  }

  lemma {:induction false} BestAfterFlat(ns: seq<NodeView>, i: nat, j: nat, best: NodeView)
    requires Cluster(ns) && Migrates(ns, i, j) && ns[i].count == ns[j].count + 1
    requires IsBest(Moved(ns, i, j), best)
    ensures best.count == ns[j].count
  {
    MigratesWhen(ns, i, j);
    var next, m := Moved(ns, i, j), ns[j].count;
    assert LeastIs(ns, m) by {
      forall k | 0 <= k < |ns| && ns[k].reachable ensures m <= ns[k].count { assert ns[k] in ns; }
    }
    LeastKept(ns, i, j, m);
    assert next[i] in next && next[i].count == m;
    var k :| 0 <= k < |next| && next[k] == best;
  }

  /** A run from `ns` whose last move is flat. */
  ghost predicate EndsFlat(run: seq<seq<NodeView>>, ns: seq<NodeView>) {
    RunFrom(run, ns) && Cluster(ns) && FlatAt(run, |run| - 2)
  }

  /** Such a run goes on for as long as one likes. */
  lemma {:induction false} FlatGoesOn(run: seq<seq<NodeView>>, ns: seq<NodeView>, n: nat)
    returns (longer: seq<seq<NodeView>>)
    requires EndsFlat(run, ns)
    ensures EndsFlat(longer, ns) && |longer| == |run| + n
    decreases n
  {
    longer := run;
    if n > 0 {
      var more := FlatOnce(run, ns);
      longer := FlatGoesOn(more, ns, n - 1);
    }
  }

  lemma {:induction false} FlatOnce(run: seq<seq<NodeView>>, ns: seq<NodeView>) returns (more: seq<seq<NodeView>>)
    requires EndsFlat(run, ns)
    ensures EndsFlat(more, ns) && |more| == |run| + 1
  {
    var last := |run| - 1;
    assert Cluster(run[last - 1]) by { RunsEnd(run, last - 1); }
    var after := FlatAgain(run[last - 1], run[last]);
    RunSnoc(run, after);
    more := run + [after];
  }

  lemma {:induction false} RunSnoc(run: seq<seq<NodeView>>, after: seq<NodeView>)
    requires IsRun(run) && Flat(run[|run| - 1], after)
    ensures IsRun(run + [after]) && FlatAt(run + [after], |run| - 1)
  {
    var more := run + [after];
    forall t | 0 <= t < |more| - 1 ensures Follows(more[t], more[t + 1]) {
      if t < |run| - 1 { assert Follows(run[t], run[t + 1]); }
    }
  }

  lemma {:induction false} RunPrefix(run: seq<seq<NodeView>>, n: nat)
    requires IsRun(run) && 0 < n <= |run|
    ensures IsRun(run[..n])
  {
    forall t | 0 <= t < n - 1 ensures Follows(run[..n][t], run[..n][t + 1]) {
      assert Follows(run[t], run[t + 1]);
    }
  }

  /** A run without a flat move is all steep, and so as short as the sum of squares allows. */
  lemma {:induction false} NoFlatIsShort(run: seq<seq<NodeView>>)
    requires IsRun(run) && Cluster(run[0]) && forall t :: !FlatAt(run, t)
    ensures 2 * (|run| - 1) <= SumOfSquares(run[0])
  {
    var kind := (a: seq<NodeView>, b: seq<NodeView>) => Steep(a, b);
    var n := |run| - 1;
    forall s | 0 <= s < n ensures kind(run[s], run[s + 1]) {
      RunsEnd(run, s);
      assert !FlatAt(run, s);
    }
    AllMoves(run, n, kind);
    RunsEnd(run, n);
  }

  /** The exact condition: the runs from a cluster are bounded if and only if none of them makes a flat move. */
  lemma {:induction false} BoundedIff(ns: seq<NodeView>)
    requires Cluster(ns)
    ensures (exists b: nat :: BoundedBy(ns, b)) <==> forall run, t :: RunFrom(run, ns) ==> !FlatAt(run, t)
  {
    if forall run, t :: RunFrom(run, ns) ==> !FlatAt(run, t) {
      forall run | RunFrom(run, ns) ensures |run| <= SumOfSquares(ns) + 1 { NoFlatIsShort(run); }
      assert BoundedBy(ns, SumOfSquares(ns) + 1);
    } else {
      var run, t :| RunFrom(run, ns) && FlatAt(run, t);
      forall b: nat ensures !BoundedBy(ns, b) {
        FlatIsUnbounded(run, t, b);
      }
    }
  }

  lemma {:induction false} FlatIsUnbounded(run: seq<seq<NodeView>>, t: int, b: nat)
    requires IsRun(run) && Cluster(run[0]) && FlatAt(run, t)
    ensures !BoundedBy(run[0], b)
  {
    var short := run[..t + 2];
    RunPrefix(run, t + 2);
    assert EndsFlat(short, run[0]);
    var longer := FlatGoesOn(short, run[0], b);
    assert RunFrom(longer, run[0]) && |longer| > b;
  }
}
