/** decidePrune and explainKeeps of lib/backup_prune_pure.cpp: the policy over a directory of many jails. */
module PruneAll {
  import opened StreamName
  import opened Sorting
  import opened Retention
  import opened Buckets
  import opened Prune
  import opened PruneWalk

  // ---------- Grouping by jail ----------

  function JailFiles(files: seq<StreamFile>, n: nat, jail: string): seq<StreamFile>
    requires n <= |files|
  {
    if n == 0 then []
    else
      var before := JailFiles(files, n - 1, jail);
      if files[n - 1].jail == jail then before + [files[n - 1]] else before
  }

  lemma {:induction false} JailFilesFrom(files: seq<StreamFile>, n: nat, jail: string, k: nat) returns (i: nat)
    requires n <= |files| && k < |JailFiles(files, n, jail)|
    ensures i < n && JailFiles(files, n, jail)[k] == files[i] && files[i].jail == jail
  {
    var before := JailFiles(files, n - 1, jail);
    if k < |before| {
      i := JailFilesFrom(files, n - 1, jail, k);
    } else {
      i := n - 1;
    }
  }

  lemma {:induction false} JailFilesHas(files: seq<StreamFile>, n: nat, jail: string, i: nat)
    requires i < n <= |files| && files[i].jail == jail
    ensures files[i] in JailFiles(files, n, jail)
  {
    if i < n - 1 { JailFilesHas(files, n - 1, jail, i); }
  }

  lemma JailFilesArePart(files: seq<StreamFile>, jail: string)
    ensures AsSet(JailFiles(files, |files|, jail)) == Part(AsSet(files), jail)
    ensures forall k :: 0 <= k < |JailFiles(files, |files|, jail)| ==> JailFiles(files, |files|, jail)[k].jail == jail
  {
    var js := JailFiles(files, |files|, jail);
    forall k | 0 <= k < |js| ensures js[k].jail == jail && js[k] in Part(AsSet(files), jail) {
      var i := JailFilesFrom(files, |files|, jail, k);
    }
    forall f | f in Part(AsSet(files), jail) ensures f in AsSet(js) {
      var i :| 0 <= i < |files| && files[i] == f;
      JailFilesHas(files, |files|, jail, i);
    }
  }

  lemma {:induction false} JailFilesDistinct(files: seq<StreamFile>, n: nat, jail: string)
    requires n <= |files| && DistinctNames(files)
    ensures DistinctNames(JailFiles(files, n, jail))
  {
    if n > 0 {
      JailFilesDistinct(files, n - 1, jail);
      var before := JailFiles(files, n - 1, jail);
      forall k | 0 <= k < |before| ensures before[k].filename != files[n - 1].filename {
        var i := JailFilesFrom(files, n - 1, jail, k);
      }
    }
  }

  /** The names of the files whose jail is in `done`. */
  ghost function NamesIn(files: seq<StreamFile>, n: nat, done: set<string>): multiset<string>
    requires n <= |files|
  {
    if n == 0 then multiset{}
    else NamesIn(files, n - 1, done) + if files[n - 1].jail in done then multiset{files[n - 1].filename} else multiset{}
  }

  lemma {:induction false} NamesInOneMore(files: seq<StreamFile>, n: nat, done: set<string>, jail: string)
    requires n <= |files| && jail !in done
    ensures NamesIn(files, n, done + {jail}) == NamesIn(files, n, done) + NamesIn(files, n, {jail})
  {
    if n > 0 { NamesInOneMore(files, n - 1, done, jail); }
  }

  lemma {:induction false} NamesInJail(files: seq<StreamFile>, n: nat, jail: string)
    requires n <= |files|
    ensures var js := JailFiles(files, n, jail); multiset(AllNames(js, |js|)) == NamesIn(files, n, {jail})
  {
    if n > 0 {
      NamesInJail(files, n - 1, jail);
      NamesInStep(JailFiles(files, n - 1, jail), files[n - 1], files[n - 1].jail == jail,
                  NamesIn(files, n - 1, {jail}), NamesIn(files, n, {jail}));
    }
  }

  lemma {:induction false} NamesInStep(
    before: seq<StreamFile>, f: StreamFile, mine: bool, names: multiset<string>, more: multiset<string>)
    requires multiset(AllNames(before, |before|)) == names
    requires more == names + if mine then multiset{f.filename} else multiset{}
    ensures var js := if mine then before + [f] else before; multiset(AllNames(js, |js|)) == more
  {
    if mine { AllNamesSnoc(before, f); }
  }

  lemma {:induction false} AllNamesSnoc(js: seq<StreamFile>, f: StreamFile)
    ensures multiset(AllNames(js + [f], |js + [f]|)) == multiset(AllNames(js, |js|)) + multiset{f.filename}
  {
    AllNamesAppend(js, f, |js|);
    assert AllNames(js + [f], |js + [f]|) == AllNames(js, |js|) + [f.filename];
  }

  lemma {:induction false} AllNamesAppend(js: seq<StreamFile>, f: StreamFile, n: nat)
    requires n <= |js|
    ensures AllNames(js + [f], n) == AllNames(js, n)
  {
    if n > 0 { AllNamesAppend(js, f, n - 1); }
  }

  lemma {:induction false} NamesInAll(files: seq<StreamFile>, n: nat, done: set<string>)
    requires n <= |files| && forall i :: 0 <= i < n ==> files[i].jail in done
    ensures NamesIn(files, n, done) == multiset(AllNames(files, n))
  {
    if n > 0 { NamesInAll(files, n - 1, done); }
  }

  lemma {:induction false} NameInJail(files: seq<StreamFile>, n: nat, done: set<string>, s: string)
    requires n <= |files| && s in NamesIn(files, n, done)
    ensures exists i :: 0 <= i < n && files[i].jail in done && files[i].filename == s
  {
    if s in NamesIn(files, n - 1, done) { NameInJail(files, n - 1, done, s); }
  }

  method GroupByJail(files: seq<StreamFile>) returns (byJail: map<string, seq<StreamFile>>)
    ensures byJail.Keys == set i | 0 <= i < |files| :: files[i].jail
    ensures forall j :: j in byJail ==> byJail[j] == JailFiles(files, |files|, j)
  {
    byJail := map[];
    for i := 0 to |files|
      invariant byJail.Keys == set k | 0 <= k < i :: files[k].jail
      invariant forall j :: (if j in byJail then byJail[j] else []) == JailFiles(files, i, j)
    {
      var f := files[i];
      var sofar := if f.jail in byJail then byJail[f.jail] else [];
      byJail := byJail[f.jail := sofar + [f]];
    }
  }

  // ---------- decidePrune ----------

  ghost predicate AllListed(d: Decision, names: multiset<string>) {
    multiset(d.keep) + multiset(d.remove) + multiset(d.orphans) == names
  }

  function Joined(d: Decision, e: Decision): Decision {
    Decision(d.keep + e.keep, d.remove + e.remove, d.orphans + e.orphans)
  }

  lemma JoinedListed(d: Decision, a: multiset<string>, e: Decision, b: multiset<string>)
    requires AllListed(d, a) && AllListed(e, b)
    ensures AllListed(Joined(d, e), a + b)
  {
    assert multiset(d.keep + e.keep) == multiset(d.keep) + multiset(e.keep);
    assert multiset(d.remove + e.remove) == multiset(d.remove) + multiset(e.remove);
    assert multiset(d.orphans + e.orphans) == multiset(d.orphans) + multiset(e.orphans);
  }

  predicate Lists3(d: Decision, s: string) { s in d.keep || s in d.remove || s in d.orphans }

  lemma ListedName(d: Decision, names: multiset<string>, s: string)
    requires AllListed(d, names)
    ensures Lists3(d, s) <==> s in names
  {
    assert s in names <==> s in multiset(d.keep) || s in multiset(d.remove) || s in multiset(d.orphans);
  }

  /** What holds of the lists after the jails in `done`. */
  ghost predicate Progress(
    files: seq<StreamFile>, rules: seq<Rule>, del: bool, done: set<string>, kf: set<StreamFile>, d: Decision) {
    && (forall f :: f in kf ==> f.jail in done)
    && (forall j :: j in done ==> KeptFulls(Part(AsSet(files), j), rules, Part(kf, j)))
    && (forall f :: f in AsSet(files) && f.jail in done ==>
          DecidesFile(Part(AsSet(files), f.jail), del, Part(kf, f.jail), d, f))
  }

  /** A name listed for a jail is the name of a file of that jail. */
  lemma {:induction false} OthersNotListed(files: seq<StreamFile>, done: set<string>, d: Decision, f: StreamFile)
    requires DistinctNames(files) && f in AsSet(files) && f.jail !in done
    requires AllListed(d, NamesIn(files, |files|, done))
    ensures !Lists3(d, f.filename)
  {
    ListedName(d, NamesIn(files, |files|, done), f.filename);
    if f.filename in NamesIn(files, |files|, done) {
      NameInJail(files, |files|, done, f.filename);
    }
  }

  lemma ProgressNext(
    files: seq<StreamFile>, rules: seq<Rule>, del: bool, done: set<string>, kf: set<StreamFile>, d: Decision,
                     jail: string, kf1: set<StreamFile>, one: Decision)
    requires DistinctNames(files) && jail !in done
    requires Progress(files, rules, del, done, kf, d) && AllListed(d, NamesIn(files, |files|, done))
    requires Decides(Part(AsSet(files), jail), rules, del, kf1, one) && AllListed(one, NamesIn(files, |files|, {jail}))
    ensures Progress(files, rules, del, done + {jail}, kf + kf1, Joined(d, one))
  {
    var all, both := AsSet(files), kf + kf1;
    assert forall f :: f in kf1 ==> f in Part(all, jail) && f.jail == jail;
    assert Part(both, jail) == kf1;
    forall j | j in done ensures Part(both, j) == Part(kf, j) {
    }
    forall f | f in all && f.jail in done + {jail}
      ensures DecidesFile(Part(all, f.jail), del, Part(both, f.jail), Joined(d, one), f)
    {
      if f.jail == jail {
        OthersNotListed(files, done, d, f);
        assert DecidesFile(Part(all, jail), del, kf1, one, f);
      } else {
        OthersNotListed(files, {jail}, one, f);
        assert DecidesFile(Part(all, f.jail), del, Part(kf, f.jail), d, f);
      }
    }
  }

  lemma ProgressDone(
    files: seq<StreamFile>, rules: seq<Rule>, del: bool, done: set<string>, kf: set<StreamFile>, d: Decision)
    requires Progress(files, rules, del, done, kf, d) && forall i :: 0 <= i < |files| ==> files[i].jail in done
    ensures Decides(AsSet(files), rules, del, kf, d)
  {
    FullsPerJail(AsSet(files), rules, kf);
    forall f | f in AsSet(files) ensures DecidesFile(AsSet(files), del, kf, d, f) {
      KeptPerJail(AsSet(files), kf, f);
      assert DecidesFile(Part(AsSet(files), f.jail), del, Part(kf, f.jail), d, f);
    }
  }

  /** The decision does not depend on the order of the lists. */
  lemma SortedDecides(
    files: set<StreamFile>, rules: seq<Rule>, del: bool, kf: set<StreamFile>, d: Decision, e: Decision)
    requires Decides(files, rules, del, kf, d)
    requires multiset(d.keep) == multiset(e.keep) && multiset(d.remove) == multiset(e.remove)
      && multiset(d.orphans) == multiset(e.orphans)
    ensures Decides(files, rules, del, kf, e)
  {
    SameElements(d.keep, e.keep);
    SameElements(d.remove, e.remove);
    SameElements(d.orphans, e.orphans);
    forall f | f in files ensures DecidesFile(files, del, kf, e, f) {
      assert DecidesFile(files, del, kf, d, f);
    }
  }

  /**
   decidePrune, for any bucket types. Every file is named exactly once in the three sorted lists;
   in a directory (distinct names) the lists are what the retention policy says.
   */
  method DecideByRules(
    files: seq<StreamFile>, rules: seq<Rule>, del: bool)
    returns (d: Decision, ghost kf: set<StreamFile>)
    ensures multiset(d.keep) + multiset(d.remove) + multiset(d.orphans) == multiset(AllNames(files, |files|))
    ensures Sorted(d.keep, NameLe) && Sorted(d.remove, NameLe) && Sorted(d.orphans, NameLe)
    ensures DistinctNames(files) ==> Decides(AsSet(files), rules, del, kf, d)
  {
    var raw;
    raw, kf := DecideEachJail(files, rules, del);
    NamesOrdered();
    var keep := Sort(raw.keep, NameLe);
    var remove := Sort(raw.remove, NameLe);
    var orphans := Sort(raw.orphans, NameLe);
    d := Decision(keep, remove, orphans);
    if DistinctNames(files) {
      SortedDecides(AsSet(files), rules, del, kf, raw, d);
    }
  }

  ghost predicate SoFar(
    files: seq<StreamFile>, rules: seq<Rule>, del: bool, done: set<string>, kf: set<StreamFile>, d: Decision) {
    && AllListed(d, NamesIn(files, |files|, done))
    && (DistinctNames(files) ==> Progress(files, rules, del, done, kf, d))
  }

  lemma SoFarNext(
    files: seq<StreamFile>, rules: seq<Rule>, del: bool, done: set<string>, kf: set<StreamFile>, d: Decision,
                  jail: string, kf1: set<StreamFile>, one: Decision)
    requires SoFar(files, rules, del, done, kf, d) && jail !in done
    requires var js := JailFiles(files, |files|, jail);
      AllListed(one, multiset(AllNames(js, |js|))) && (DistinctNames(js) ==> Decides(AsSet(js), rules, del, kf1, one))
    ensures SoFar(files, rules, del, done + {jail}, kf + kf1, Joined(d, one))
  {
    NamesInJail(files, |files|, jail);
    NamesInOneMore(files, |files|, done, jail);
    JoinedListed(d, NamesIn(files, |files|, done), one, NamesIn(files, |files|, {jail}));
    if DistinctNames(files) {
      JailFilesDistinct(files, |files|, jail);
      JailFilesArePart(files, jail);
      ProgressNext(files, rules, del, done, kf, d, jail, kf1, one);
    }
  }

  lemma SoFarDone(
    files: seq<StreamFile>, rules: seq<Rule>, del: bool, done: set<string>, kf: set<StreamFile>, d: Decision)
    requires SoFar(files, rules, del, done, kf, d) && done == set i | 0 <= i < |files| :: files[i].jail
    ensures AllListed(d, multiset(AllNames(files, |files|)))
    ensures DistinctNames(files) ==> Decides(AsSet(files), rules, del, kf, d)
  {
    NamesInAll(files, |files|, done);
    if DistinctNames(files) {
      ProgressDone(files, rules, del, done, kf, d);
    }
  }

  /** The loop over byJail. std::map visits the jails in name order; the final sort makes the order immaterial. */
  method DecideEachJail(
    files: seq<StreamFile>, rules: seq<Rule>, del: bool)
    returns (d: Decision, ghost kf: set<StreamFile>)
    ensures AllListed(d, multiset(AllNames(files, |files|)))
    ensures DistinctNames(files) ==> Decides(AsSet(files), rules, del, kf, d)
  {
    var byJail := GroupByJail(files);
    var todo := byJail.Keys;
    ghost var done: set<string> := {};
    d, kf := Decision([], [], []), {};
    SoFarNone(files, rules, del);
    while todo != {}
      invariant todo !! done && todo + done == byJail.Keys
      invariant SoFar(files, rules, del, done, kf, d)
      decreases todo
    {
      var jail :| jail in todo;
      d, kf := NextJail(files, byJail[jail], rules, del, jail, done, d, kf);
      todo, done := todo - {jail}, done + {jail};
    }
    SoFarDone(files, rules, del, done, kf, d);
  }

  /** One turn of the loop. */
  method NextJail(ghost files: seq<StreamFile>, js: seq<StreamFile>, rules: seq<Rule>, del: bool, ghost jail: string,
                  ghost done: set<string>, d: Decision, ghost kf: set<StreamFile>)
    returns (d': Decision, ghost kf': set<StreamFile>)
    requires SoFar(files, rules, del, done, kf, d) && jail !in done && js == JailFiles(files, |files|, jail)
    ensures SoFar(files, rules, del, done + {jail}, kf', d')
  {
    JailFilesArePart(files, jail);
    var one;
    ghost var kf1;
    one, kf1 := DecidePruneOneJail(js, rules, del, jail);
    SoFarNext(files, rules, del, done, kf, d, jail, kf1, one);
    d', kf' := Joined(d, one), kf + kf1;
  }

  lemma SoFarNone(files: seq<StreamFile>, rules: seq<Rule>, del: bool)
    ensures SoFar(files, rules, del, {}, {}, Decision([], [], []))
  {
    NoNamesYet(files, |files|);
  }

  lemma {:induction false} NoNamesYet(files: seq<StreamFile>, n: nat)
    requires n <= |files|
    ensures NamesIn(files, n, {}) == multiset{}
  {
    if n > 0 { NoNamesYet(files, n - 1); }
  }

  /** decidePrune with crate's four bucket types. */
  method DecidePrune(
    files: seq<StreamFile>, policy: Policy, deleteOrphans: bool)
    returns (d: Decision, ghost kf: set<StreamFile>)
    ensures multiset(d.keep) + multiset(d.remove) + multiset(d.orphans) == multiset(AllNames(files, |files|))
    ensures Sorted(d.keep, NameLe) && Sorted(d.remove, NameLe) && Sorted(d.orphans, NameLe)
    ensures DistinctNames(files) ==> Decides(AsSet(files), Rules(policy), deleteOrphans, kf, d)
    ensures DistinctNames(files) ==> KeepsByCalendar(AsSet(files), policy, d)
  {
    d, kf := DecideByRules(files, Rules(policy), deleteOrphans);
    if DistinctNames(files) {
      PolicyKeeps(AsSet(files), policy, deleteOrphans, kf, d);
    }
  }

  /** Pruning what a run left, with the same policy and flag, removes nothing. */
  lemma PruningTwice(files: seq<StreamFile>, rules: seq<Rule>, del: bool, kf: set<StreamFile>, d: Decision,
                     left: seq<StreamFile>, kf2: set<StreamFile>, d2: Decision)
    requires Decides(AsSet(files), rules, del, kf, d)
    requires AsSet(left) == Survivors(AsSet(files), d)
    requires Decides(AsSet(left), rules, del, kf2, d2) && AllListed(d2, multiset(AllNames(left, |left|)))
    ensures d2.remove == []
  {
    SecondRunRemovesNothing(AsSet(files), rules, del, kf, d, kf2, d2);
    if d2.remove != [] {
      var s := d2.remove[0];
      var jails := set i | 0 <= i < |left| :: left[i].jail;
      ListedName(d2, multiset(AllNames(left, |left|)), s);
      NamesInAll(left, |left|, jails);
      NameInJail(left, |left|, jails, s);
    }
  }

  // ---------- explainKeeps ----------

  /** `rule` is the bucket type, `rank` the number printed after its name. */
  datatype KeepReason = KeepReason(fileIndex: nat, rule: nat, rank: nat)

  /** What one jail's entry of `seen` knows: all its buckets until `n` are full. */
  ghost predicate Tracks(files: seq<StreamFile>, ord: seq<nat>, r: Rule, k: nat, jail: string, js: set<int>)
    requires InRange(files, ord) && k <= |ord|
  {
    var keys := KeysBefore(files, ord, r.bucket, k, jail);
    js <= keys && (|js| < r.n ==> js == keys)
  }

  function SeenOf(seen: map<string, set<int>>, jail: string): set<int> {
    if jail in seen then seen[jail] else {}
  }

  lemma TracksNext(files: seq<StreamFile>, ord: seq<nat>, r: Rule, k: nat, jail: string, js: set<int>)
    requires InRange(files, ord) && k < |ord| && Tracks(files, ord, r, k, jail, js)
    ensures var f := files[ord[k]]; var key := r.bucket(f.epoch);
      && (f.jail != jail || |js| >= r.n || key in js ==> Tracks(files, ord, r, k + 1, jail, js))
      && (f.jail == jail && |js| < r.n && key !in js ==> Tracks(files, ord, r, k + 1, jail, js + {key}))
      && (f.jail == jail ==> (KeptAt(files, ord, r, k) <==> |js| < r.n && key !in js))
  {
    KeysGrow(files, ord, r.bucket, k, jail);
    SubsetSize(js, KeysBefore(files, ord, r.bucket, k, jail));
  }

  ghost predicate RightRank(files: seq<StreamFile>, ord: seq<nat>, r: Rule, x: KeepReason)
    requires InRange(files, ord)
  {
    exists k :: 0 <= k < |ord| && x.fileIndex == ord[k] && KeptAt(files, ord, r, k)
      && x.rank == |KeysBefore(files, ord, r.bucket, k, files[ord[k]].jail)| + 1
  }

  ghost predicate AllTracked(files: seq<StreamFile>, ord: seq<nat>, r: Rule, k: nat, seen: map<string, set<int>>)
    requires InRange(files, ord) && k <= |ord|
  {
    forall jail :: Tracks(files, ord, r, k, jail, SeenOf(seen, jail))
  }

  lemma AllTrackedNext(files: seq<StreamFile>, ord: seq<nat>, r: Rule, k: nat, seen: map<string, set<int>>)
    requires InRange(files, ord) && k < |ord| && AllTracked(files, ord, r, k, seen)
    ensures var f := files[ord[k]]; var key := r.bucket(f.epoch); var js := SeenOf(seen, f.jail);
      if |js| < r.n && key !in js
      then AllTracked(files, ord, r, k + 1, seen[f.jail := js + {key}])
           && KeptAt(files, ord, r, k) && js == KeysBefore(files, ord, r.bucket, k, f.jail)
      else AllTracked(files, ord, r, k + 1, seen) && !KeptAt(files, ord, r, k)
  {
    var f := files[ord[k]];
    var js := SeenOf(seen, f.jail);
    var next := if |js| < r.n && r.bucket(f.epoch) !in js then seen[f.jail := js + {r.bucket(f.epoch)}] else seen;
    assert Tracks(files, ord, r, k, f.jail, js);
    TracksNext(files, ord, r, k, f.jail, js);
    forall jail ensures Tracks(files, ord, r, k + 1, jail, SeenOf(next, jail)) {
      if jail != f.jail {
        assert SeenOf(next, jail) == SeenOf(seen, jail);
        assert Tracks(files, ord, r, k, jail, SeenOf(seen, jail));
        TracksNext(files, ord, r, k, jail, SeenOf(seen, jail));
      }
    }
  }

  method ExplainRule(files: seq<StreamFile>, ord: seq<nat>, r: Rule, rule: nat) returns (out: seq<KeepReason>)
    requires InRange(files, ord)
    ensures Named(out) == KeptIndices(files, ord, r, |ord|)
    ensures forall x :: x in out ==> x.rule == rule && RightRank(files, ord, r, x)
  {
    out := [];
    if r.n == 0 {
      return;
    }
    var seen: map<string, set<int>> := map[];
    ghost var named: set<nat> := {};
    for k := 0 to |ord|
      invariant AllTracked(files, ord, r, k, seen)
      invariant named == Named(out)
      invariant named == KeptIndices(files, ord, r, k)
      invariant forall x :: x in out ==> x.rule == rule && RightRank(files, ord, r, x)
    {
      var f := files[ord[k]];
      var js := SeenOf(seen, f.jail);
      var key := r.bucket(f.epoch);
      AllTrackedNext(files, ord, r, k, seen);
      KeptIndicesGrow(files, ord, r, k);
      if |js| < r.n && key !in js {
        var reason := KeepReason(ord[k], rule, |js| + 1);
        assert RightRank(files, ord, r, reason);
        IndexAdded(out, reason);
        out := out + [reason];
        named := named + {ord[k]};
        seen := seen[f.jail := js + {key}];
      }
    }
  }

  lemma IndexAdded(out: seq<KeepReason>, x: KeepReason)
    ensures (set y | y in out + [x] :: y.fileIndex) == (set y | y in out :: y.fileIndex) + {x.fileIndex}
  {
    var a, b := (set y | y in out + [x] :: y.fileIndex), (set y | y in out :: y.fileIndex);
    assert x in out + [x];
    forall i | i in b ensures i in a {
      var y :| y in out && y.fileIndex == i;
      assert y in out + [x];
    }
  }

  ghost function NamedFiles(files: seq<StreamFile>, out: seq<KeepReason>): set<StreamFile> {
    set x | x in out && x.fileIndex < |files| :: files[x.fileIndex]
  }

  ghost function Named(out: seq<KeepReason>): set<nat> { set x | x in out :: x.fileIndex }

  /** The indices that some rule keeps. */
  ghost function NamedBySome(files: seq<StreamFile>, ord: seq<nat>, rules: seq<Rule>): set<nat>
    requires InRange(files, ord)
  {
    set k | 0 <= k < |ord| && KeptBySome(files, ord, rules, k) :: ord[k]
  }

  /** The indices named under rule `t`. */
  ghost function NamedUnder(out: seq<KeepReason>, t: nat): set<nat> { set x | x in out && x.rule == t :: x.fileIndex }

  ghost function FilesNamedUnder(files: seq<StreamFile>, out: seq<KeepReason>, t: nat): set<StreamFile> {
    set x | x in out && x.rule == t && x.fileIndex < |files| :: files[x.fileIndex]
  }

  lemma NamedUnderJoin(a: seq<KeepReason>, b: seq<KeepReason>, t: nat)
    requires (forall x :: x in a ==> x.rule < t) && forall x :: x in b ==> x.rule == t
    ensures forall u :: 0 <= u < t ==> NamedUnder(a + b, u) == NamedUnder(a, u)
    ensures NamedUnder(a + b, t) == Named(b)
  {
    forall u | 0 <= u < t ensures NamedUnder(a + b, u) == NamedUnder(a, u) {
      forall i | i in NamedUnder(a, u) ensures i in NamedUnder(a + b, u) {
        var x :| x in a && x.rule == u && x.fileIndex == i;
        assert x in a + b;
      }
    }
    forall i | i in Named(b) ensures i in NamedUnder(a + b, t) {
      var x :| x in b && x.fileIndex == i;
      assert x in a + b;
    }
  }

  lemma UnderRuleAreKept(files: seq<StreamFile>, ord: seq<nat>, r: Rule, out: seq<KeepReason>, t: nat)
    requires InRange(files, ord) && NamedUnder(out, t) == KeptIndices(files, ord, r, |ord|)
    ensures FilesNamedUnder(files, out, t) == FilesKeptAt(files, ord, [r])
  {
    var named, kept := FilesNamedUnder(files, out, t), FilesKeptAt(files, ord, [r]);
    forall f | f in named ensures f in kept {
      var x :| x in out && x.rule == t && x.fileIndex < |files| && files[x.fileIndex] == f;
      assert x.fileIndex in NamedUnder(out, t);
      var j :| 0 <= j < |ord| && KeptAt(files, ord, r, j) && ord[j] == x.fileIndex;
      assert KeptAt(files, ord, [r][0], j);
    }
    forall f | f in kept ensures f in named {
      var k :| 0 <= k < |ord| && KeptBySome(files, ord, [r], k) && files[ord[k]] == f;
      assert ord[k] in KeptIndices(files, ord, r, |ord|);
      var x :| x in out && x.rule == t && x.fileIndex == ord[k];
    }
  }

  /**
   explainKeeps: written as one loop over all jails, it names fulls the way decidePrune keeps
   them, and its rank counts the buckets of that jail from the newest.
   */
  method ExplainKeeps(files: seq<StreamFile>, rules: seq<Rule>) returns (out: seq<KeepReason>)
    ensures forall x :: x in out ==> x.fileIndex < |files| && x.rule < |rules|
    ensures KeptFulls(AsSet(files), rules, NamedFiles(files, out))
    ensures forall t :: 0 <= t < |rules| ==> KeptFulls(AsSet(files), [rules[t]], FilesNamedUnder(files, out, t))
    ensures forall x :: x in out ==> var f := files[x.fileIndex]; var epochs := FullEpochs(AsSet(files), f.jail);
      Chosen(epochs, rules[x.rule], f.epoch) && x.rank == |NewerBuckets(epochs, rules[x.rule], f.epoch)| + 1
  {
    var ord, incs, bad := OrderStreams(files);
    OrdersAreNewestFirst(files, ord, incs, bad);
    out := ExplainRules(files, ord, rules);
    assert rules[..|rules|] == rules;
    OrderKeepsFulls(files, ord, rules);
    NamedAreKept(files, ord, rules, out);
    EachRuleKeeps(files, ord, rules, out);
    forall x | x in out
      ensures x.fileIndex < |files| && var f := files[x.fileIndex]; var epochs := FullEpochs(AsSet(files), f.jail);
        Chosen(epochs, rules[x.rule], f.epoch) && x.rank == |NewerBuckets(epochs, rules[x.rule], f.epoch)| + 1
    {
      RankCounts(files, ord, rules[x.rule], x);
    }
  }

  lemma EachRuleKeeps(files: seq<StreamFile>, ord: seq<nat>, rules: seq<Rule>, out: seq<KeepReason>)
    requires NewestFirst(files, ord)
    requires forall t :: 0 <= t < |rules| ==> NamedUnder(out, t) == KeptIndices(files, ord, rules[t], |ord|)
    ensures forall t :: 0 <= t < |rules| ==> KeptFulls(AsSet(files), [rules[t]], FilesNamedUnder(files, out, t))
  {
    forall t | 0 <= t < |rules| ensures KeptFulls(AsSet(files), [rules[t]], FilesNamedUnder(files, out, t)) {
      UnderRuleAreKept(files, ord, rules[t], out, t);
      OrderKeepsFulls(files, ord, [rules[t]]);
    }
  }

  /** What the reasons say once the first `t` bucket types are done. */
  ghost predicate Explains(files: seq<StreamFile>, ord: seq<nat>, rules: seq<Rule>, t: nat, out: seq<KeepReason>)
    requires InRange(files, ord) && t <= |rules|
  {
    && Named(out) == NamedBySome(files, ord, rules[..t])
    && (forall x :: x in out ==> x.rule < t && RightRank(files, ord, rules[x.rule], x))
    && (forall u :: 0 <= u < t ==> NamedUnder(out, u) == KeptIndices(files, ord, rules[u], |ord|))
  }

  lemma ExplainsNext(
    files: seq<StreamFile>, ord: seq<nat>, rules: seq<Rule>, t: nat, out: seq<KeepReason>, some: seq<KeepReason>)
    requires InRange(files, ord) && t < |rules| && Explains(files, ord, rules, t, out)
    requires Named(some) == KeptIndices(files, ord, rules[t], |ord|)
    requires forall x :: x in some ==> x.rule == t && RightRank(files, ord, rules[t], x)
    ensures Explains(files, ord, rules, t + 1, out + some)
  {
    IndicesJoin(out, some);
    NamedUnderJoin(out, some, t);
    RulesJoin(files, ord, rules, t);
  }

  /** The loop over the bucket types. */
  method ExplainRules(files: seq<StreamFile>, ord: seq<nat>, rules: seq<Rule>) returns (out: seq<KeepReason>)
    requires InRange(files, ord)
    ensures Explains(files, ord, rules, |rules|, out)
  {
    out := [];
    for t := 0 to |rules|
      invariant Explains(files, ord, rules, t, out)
    {
      var some := ExplainRule(files, ord, rules[t], t);
      ExplainsNext(files, ord, rules, t, out, some);
      out := out + some;
    }
  }

  /** With one full per jail and epoch, the fulls explainKeeps names are the fulls decidePrune kept. */
  lemma ExplainedAreKept(
    files: seq<StreamFile>, rules: seq<Rule>, del: bool, kf: set<StreamFile>, d: Decision, out: seq<KeepReason>)
    requires Decides(AsSet(files), rules, del, kf, d) && KeptFulls(AsSet(files), rules, NamedFiles(files, out))
    requires OneFullPerEpoch(AsSet(files))
    ensures NamedFiles(files, out) == kf
    ensures forall f :: f in AsSet(files) && IsFull(f) ==> (f in NamedFiles(files, out) <==> f.filename in d.keep)
  {
    DistinctEpochsDecide(AsSet(files), rules, kf);
    DistinctEpochsDecide(AsSet(files), rules, NamedFiles(files, out));
    forall f | f in AsSet(files) && IsFull(f) ensures f in kf <==> f.filename in d.keep {
      assert DecidesFile(AsSet(files), del, kf, d, f);
      if f.filename in d.keep {
        FullSurvivorIsKept(AsSet(files), rules, del, kf, d, f);
      }
    }
  }

  lemma IndicesJoin(a: seq<KeepReason>, b: seq<KeepReason>)
    ensures Named(a + b) == Named(a) + Named(b)
  {
    var l, r := Named(a), Named(b);
    var both := Named(a + b);
    forall i | i in l + r ensures i in both {
      var y :| (y in a || y in b) && y.fileIndex == i;
      assert y in a + b;
    }
  }

  lemma RulesJoin(files: seq<StreamFile>, ord: seq<nat>, rules: seq<Rule>, t: nat)
    requires InRange(files, ord) && t < |rules|
    ensures NamedBySome(files, ord, rules[..t + 1]) ==
      NamedBySome(files, ord, rules[..t]) + KeptIndices(files, ord, rules[t], |ord|)
  {
    forall k | 0 <= k < |ord|
      ensures KeptBySome(files, ord, rules[..t + 1], k) <==>
        KeptBySome(files, ord, rules[..t], k) || KeptAt(files, ord, rules[t], k)
    {
      KeptByOneMore(files, ord, rules, t, k);
    }
  }

  lemma NamedAreKept(files: seq<StreamFile>, ord: seq<nat>, rules: seq<Rule>, out: seq<KeepReason>)
    requires InRange(files, ord)
    requires Named(out) == NamedBySome(files, ord, rules)
    ensures NamedFiles(files, out) == FilesKeptAt(files, ord, rules)
  {
    var a, b := Named(out), NamedBySome(files, ord, rules);
    forall f | f in NamedFiles(files, out) ensures f in FilesKeptAt(files, ord, rules) {
      var x :| x in out && x.fileIndex < |files| && files[x.fileIndex] == f;
      assert x.fileIndex in a;
      assert x.fileIndex in b;
    }
    forall f | f in FilesKeptAt(files, ord, rules) ensures f in NamedFiles(files, out) {
      var k :| 0 <= k < |ord| && KeptBySome(files, ord, rules, k) && files[ord[k]] == f;
      assert ord[k] in b;
      assert ord[k] in a;
      var x :| x in out && x.fileIndex == ord[k];
    }
  }

  lemma RankCounts(files: seq<StreamFile>, ord: seq<nat>, r: Rule, x: KeepReason)
    requires NewestFirst(files, ord) && RightRank(files, ord, r, x)
    ensures x.fileIndex < |files| && var f := files[x.fileIndex]; var epochs := FullEpochs(AsSet(files), f.jail);
      Chosen(epochs, r, f.epoch) && x.rank == |NewerBuckets(epochs, r, f.epoch)| + 1
  {
    var k :| 0 <= k < |ord| && x.fileIndex == ord[k] && KeptAt(files, ord, r, k)
      && x.rank == |KeysBefore(files, ord, r.bucket, k, files[ord[k]].jail)| + 1;
    KeptAtIsChosen(files, ord, r, k);
    KeysAreNewerBuckets(files, ord, r, k);
  }
}
