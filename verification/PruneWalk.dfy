/** decidePruneOneJail of lib/backup_prune_pure.cpp, against Retention. */
module PruneWalk {
  import opened Text
  import opened StreamName
  import opened Sorting
  import opened Retention
  import opened Prune

  // ---------- The comparisons given to std::sort ----------

  predicate NameLe(a: string, b: string) { !Less(b, a) }

  function NewerFirst(files: seq<StreamFile>): (nat, nat) -> bool {
    (a: nat, b: nat) => EpochAt(files, a) >= EpochAt(files, b)
  }

  function OlderFirst(files: seq<StreamFile>): (nat, nat) -> bool {
    (a: nat, b: nat) => EpochAt(files, a) < EpochAt(files, b)
              || (EpochAt(files, a) == EpochAt(files, b) && NameLe(NameAt(files, a), NameAt(files, b)))
  }

  lemma NamesOrdered()
    ensures TotalPreorder(NameLe)
  {
    forall a, b ensures NameLe(a, b) || NameLe(b, a) {
      LessTotal(a, b);
    }
    forall a, b, c | NameLe(a, b) && NameLe(b, c) ensures NameLe(a, c) {
      LessTotal(a, b);
      LessTotal(b, c);
      LessTotal(a, c);
      if Less(a, b) && Less(b, c) { LessTransitive(a, b, c); }
    }
  }

  lemma OlderFirstOrdered(files: seq<StreamFile>)
    ensures TotalPreorder(OlderFirst(files))
  {
    NamesOrdered();
    var le := OlderFirst(files);
    forall a, b, c | le(a, b) && le(b, c) ensures le(a, c) {
      if EpochAt(files, a) == EpochAt(files, c) {
        assert NameLe(NameAt(files, a), NameAt(files, b)) && NameLe(NameAt(files, b), NameAt(files, c));
      }
    }
    forall a, b ensures le(a, b) || le(b, a) {
      assert NameLe(NameAt(files, a), NameAt(files, b)) || NameLe(NameAt(files, b), NameAt(files, a));
    }
  }

  // ---------- Names picked from a list of indices ----------

  /** Names of those among the first `n` whose membership in `K` is `want`. */
  function Pick(files: seq<StreamFile>, idxs: seq<nat>, K: set<nat>, want: bool, n: nat): seq<string>
    requires InRange(files, idxs) && n <= |idxs|
  {
    if n == 0 then []
    else
      var before := Pick(files, idxs, K, want, n - 1);
      if (idxs[n - 1] in K) == want then before + [files[idxs[n - 1]].filename] else before
  }

  function Names(files: seq<StreamFile>, idxs: seq<nat>): seq<string>
    requires InRange(files, idxs)
  {
    Pick(files, idxs, {}, false, |idxs|)
  }

  function AllNames(files: seq<StreamFile>, n: nat): seq<string>
    requires n <= |files|
  {
    if n == 0 then [] else AllNames(files, n - 1) + [files[n - 1].filename]
  }

  /** How often `s` is picked. */
  function PickCount(files: seq<StreamFile>, idxs: seq<nat>, K: set<nat>, want: bool, n: nat, s: string): nat
    requires InRange(files, idxs) && n <= |idxs|
  {
    if n == 0 then 0
    else
      PickCount(files, idxs, K, want, n - 1, s)
        + if (idxs[n - 1] in K) == want && files[idxs[n - 1]].filename == s then 1 else 0
  }

  lemma {:induction false} PickCounted(
    files: seq<StreamFile>, idxs: seq<nat>, K: set<nat>, want: bool, n: nat, s: string)
    requires InRange(files, idxs) && n <= |idxs|
    ensures multiset(Pick(files, idxs, K, want, n))[s] == PickCount(files, idxs, K, want, n, s)
  {
    if n > 0 { PickCounted(files, idxs, K, want, n - 1, s); }
  }

  lemma {:induction false} PickCountSplits(files: seq<StreamFile>, idxs: seq<nat>, K: set<nat>, n: nat, s: string)
    requires InRange(files, idxs) && n <= |idxs|
    ensures PickCount(files, idxs, K, true, n, s) + PickCount(files, idxs, K, false, n, s)
         == PickCount(files, idxs, {}, false, n, s)
  {
    if n > 0 { PickCountSplits(files, idxs, K, n - 1, s); }
  }

  lemma {:induction false} PickSplits(files: seq<StreamFile>, idxs: seq<nat>, K: set<nat>, n: nat)
    requires InRange(files, idxs) && n <= |idxs|
    ensures multiset(Pick(files, idxs, K, true, n)) + multiset(Pick(files, idxs, K, false, n))
            == multiset(Pick(files, idxs, {}, false, n))
  {
    var yes, no, all := multiset(Pick(files, idxs, K, true, n)), multiset(Pick(files, idxs, K, false, n)),
      multiset(Pick(files, idxs, {}, false, n));
    forall s ensures (yes + no)[s] == all[s] {
      PickCounted(files, idxs, K, true, n, s);
      PickCounted(files, idxs, K, false, n, s);
      PickCounted(files, idxs, {}, false, n, s);
      PickCountSplits(files, idxs, K, n, s);
    }
  }

  lemma {:induction false} PickMember(files: seq<StreamFile>, idxs: seq<nat>, K: set<nat>, want: bool, n: nat, i: nat)
    requires InRange(files, idxs) && n <= |idxs| && i < |files| && DistinctNames(files)
    ensures files[i].filename in Pick(files, idxs, K, want, n) <==> i in idxs[..n] && (i in K) == want
  {
    if n > 0 {
      PickMember(files, idxs, K, want, n - 1, i);
      var j := idxs[n - 1];
      assert idxs[..n] == idxs[..n - 1] + [j];
      assert files[i].filename == files[j].filename <==> i == j;
    }
  }

  lemma {:induction false} PickPrefix(files: seq<StreamFile>, a: seq<nat>, b: seq<nat>, n: nat)
    requires InRange(files, a) && InRange(files, b) && n <= |a|
    ensures InRange(files, a + b) && Pick(files, a + b, {}, false, n) == Pick(files, a, {}, false, n)
  {
    if n > 0 { PickPrefix(files, a, b, n - 1); }
  }

  lemma {:induction false} NamesConcat(files: seq<StreamFile>, a: seq<nat>, b: seq<nat>, n: nat)
    requires InRange(files, a) && InRange(files, b) && n <= |b|
    ensures InRange(files, a + b)
    ensures Pick(files, a + b, {}, false, |a| + n) == Names(files, a) + Pick(files, b, {}, false, n)
  {
    PickPrefix(files, a, b, |a|);
    if n > 0 { NamesConcat(files, a, b, n - 1); }
  }

  lemma NamesTakeOut(files: seq<StreamFile>, b: seq<nat>, j: nat)
    requires InRange(files, b) && j < |b|
    ensures var c := b[..j] + b[j + 1..];
      && InRange(files, c) && multiset(b) == multiset(c) + multiset{b[j]}
      && multiset(Names(files, b)) == multiset(Names(files, c)) + multiset{files[b[j]].filename}
  {
    var l, r := b[..j], b[j + 1..];
    assert b == l + [b[j]] + r;
    MiddleCount(l, b[j], r);
    NamesMiddle(files, l, b[j], r);
    MiddleCount(Names(files, l), files[b[j]].filename, Names(files, r));
  }

  lemma NamesMiddle(files: seq<StreamFile>, l: seq<nat>, x: nat, r: seq<nat>)
    requires InRange(files, l) && x < |files| && InRange(files, r)
    ensures InRange(files, l + r) && InRange(files, l + [x] + r)
    ensures Names(files, l + r) == Names(files, l) + Names(files, r)
    ensures Names(files, l + [x] + r) == Names(files, l) + [files[x].filename] + Names(files, r)
  {
    NamesConcat(files, l, r, |r|);
    NamesConcat(files, l, [x], 1);
    NamesConcat(files, l + [x], r, |r|);
    assert Names(files, [x]) == [files[x].filename];
  }

  lemma MiddleCount<T>(l: seq<T>, x: T, r: seq<T>)
    ensures multiset(l + [x] + r) == multiset(l + r) + multiset{x}
  {
  }

  /** Sorting indices permutes the names. */
  lemma {:induction false} PermutedNames(files: seq<StreamFile>, a: seq<nat>, b: seq<nat>)
    requires InRange(files, a) && InRange(files, b) && multiset(a) == multiset(b)
    ensures multiset(Names(files, a)) == multiset(Names(files, b))
    decreases |a|
  {
    SameElements(a, b);
    if a != [] {
      assert a[0] in b;
      var j :| 0 <= j < |b| && b[j] == a[0];
      TakeOutBoth(files, a, b, j);
      PermutedNames(files, a[..0] + a[1..], b[..j] + b[j + 1..]);
    }
  }

  lemma TakeOutBoth(files: seq<StreamFile>, a: seq<nat>, b: seq<nat>, j: nat)
    requires InRange(files, a) && InRange(files, b) && multiset(a) == multiset(b) && j < |b| && a != [] && a[0] == b[j]
    ensures var c, d := a[..0] + a[1..], b[..j] + b[j + 1..];
      && InRange(files, c) && InRange(files, d) && multiset(c) == multiset(d)
      && (multiset(Names(files, c)) == multiset(Names(files, d))
        ==> multiset(Names(files, a)) == multiset(Names(files, b)))
  {
    NamesTakeOut(files, a, 0);
    NamesTakeOut(files, b, j);
    Cancels(multiset(a[..0] + a[1..]), multiset(b[..j] + b[j + 1..]), a[0]);
  }

  lemma Cancels<T>(a: multiset<T>, b: multiset<T>, x: T)
    requires a + multiset{x} == b + multiset{x}
    ensures a == b
  {
    assert a == (a + multiset{x}) - multiset{x};
    assert b == (b + multiset{x}) - multiset{x};
  }

  // ---------- One jail ----------

  datatype Kind = Full | Incremental | BadEpoch

  function KindOf(f: StreamFile): Kind {
    if f.epoch == 0 then BadEpoch else if f.base == "" then Full else Incremental
  }

  /** `idxs` lists the files of one kind among the first `n`, each once. */
  ghost predicate Lists(files: seq<StreamFile>, n: nat, idxs: seq<nat>, kind: Kind)
    requires n <= |files|
  {
    NoRepeats(idxs) && InRange(files, idxs) && forall x: nat :: x in idxs <==> x < n && KindOf(files[x]) == kind
  }

  lemma ListsNext(files: seq<StreamFile>, n: nat, idxs: seq<nat>, kind: Kind)
    requires n < |files| && Lists(files, n, idxs, kind)
    ensures KindOf(files[n]) != kind ==> Lists(files, n + 1, idxs, kind)
    ensures KindOf(files[n]) == kind ==> Lists(files, n + 1, idxs + [n], kind)
  {
    assert n !in idxs;
    if KindOf(files[n]) == kind {
      var more := idxs + [n];
      forall i, j | 0 <= i < j < |more| ensures more[i] != more[j] {
        assert more[i] in idxs;
      }
    }
  }

  ghost predicate Partitioned(files: seq<StreamFile>, n: nat, fulls: seq<nat>, incs: seq<nat>, bad: seq<nat>)
    requires n <= |files|
  {
    && Lists(files, n, fulls, Full) && Lists(files, n, incs, Incremental) && Lists(files, n, bad, BadEpoch)
    && multiset(Names(files, fulls)) + multiset(Names(files, incs)) + multiset(Names(files, bad))
      == multiset(AllNames(files, n))
  }

  function IndicesOf(files: seq<StreamFile>, n: nat, kind: Kind): seq<nat>
    requires n <= |files|
  {
    if n == 0 then []
    else
      var before := IndicesOf(files, n - 1, kind);
      if KindOf(files[n - 1]) == kind then before + [n - 1] else before
  }

  lemma {:induction false} IndicesList(files: seq<StreamFile>, n: nat, kind: Kind)
    requires n <= |files|
    ensures Lists(files, n, IndicesOf(files, n, kind), kind)
  {
    if n > 0 {
      IndicesList(files, n - 1, kind);
      ListsNext(files, n - 1, IndicesOf(files, n - 1, kind), kind);
    }
  }

  /** How many of the first `n` files of one kind are called `s`. */
  function KindCount(files: seq<StreamFile>, n: nat, kind: Kind, s: string): nat
    requires n <= |files|
  {
    if n == 0 then 0
    else KindCount(files, n - 1, kind, s) + if KindOf(files[n - 1]) == kind && files[n - 1].filename == s then 1 else 0
  }

  function NameCount(files: seq<StreamFile>, n: nat, s: string): nat
    requires n <= |files|
  {
    if n == 0 then 0 else NameCount(files, n - 1, s) + if files[n - 1].filename == s then 1 else 0
  }

  lemma {:induction false} KindCounted(files: seq<StreamFile>, n: nat, kind: Kind, s: string)
    requires n <= |files|
    ensures InRange(files, IndicesOf(files, n, kind))
    ensures multiset(Names(files, IndicesOf(files, n, kind)))[s] == KindCount(files, n, kind, s)
  {
    if n > 0 {
      KindCounted(files, n - 1, kind, s);
      NamesAppend(files, IndicesOf(files, n - 1, kind), n - 1);
    }
  }

  lemma {:induction false} NameCounted(files: seq<StreamFile>, n: nat, s: string)
    requires n <= |files|
    ensures multiset(AllNames(files, n))[s] == NameCount(files, n, s)
  {
    if n > 0 { NameCounted(files, n - 1, s); }
  }

  lemma {:induction false} KindsCount(files: seq<StreamFile>, n: nat, s: string)
    requires n <= |files|
    ensures KindCount(files, n, Full, s) + KindCount(files, n, Incremental, s) + KindCount(files, n, BadEpoch, s)
         == NameCount(files, n, s)
  {
    if n > 0 { KindsCount(files, n - 1, s); }
  }

  lemma NamesAppend(files: seq<StreamFile>, idxs: seq<nat>, i: nat)
    requires InRange(files, idxs) && i < |files|
    ensures InRange(files, idxs + [i])
    ensures Names(files, idxs + [i]) == Names(files, idxs) + [files[i].filename]
  {
    NamesConcat(files, idxs, [i], 1);
    assert Names(files, [i]) == [files[i].filename];
  }

  lemma {:induction false} KindsCover(files: seq<StreamFile>, fulls: seq<nat>, incs: seq<nat>, bad: seq<nat>)
    requires var n := |files|;
      fulls == IndicesOf(files, n, Full) && incs == IndicesOf(files, n, Incremental)
        && bad == IndicesOf(files, n, BadEpoch)
    requires InRange(files, fulls) && InRange(files, incs) && InRange(files, bad)
    ensures multiset(Names(files, fulls)) + multiset(Names(files, incs)) + multiset(Names(files, bad))
         == multiset(AllNames(files, |files|))
  {
    var n := |files|;
    var f, i, b, all := multiset(Names(files, fulls)), multiset(Names(files, incs)), multiset(Names(files, bad)),
      multiset(AllNames(files, n));
    forall s ensures (f + i + b)[s] == all[s] {
      KindCounted(files, n, Full, s);
      KindCounted(files, n, Incremental, s);
      KindCounted(files, n, BadEpoch, s);
      KindsCount(files, n, s);
      NameCounted(files, n, s);
    }
  }

  lemma {:induction false} IndicesPartition(files: seq<StreamFile>)
    ensures var n := |files|;
      Partitioned(files, n, IndicesOf(files, n, Full), IndicesOf(files, n, Incremental), IndicesOf(files, n, BadEpoch))
  {
    var n := |files|;
    IndicesList(files, n, Full);
    IndicesList(files, n, Incremental);
    IndicesList(files, n, BadEpoch);
    KindsCover(files, IndicesOf(files, n, Full), IndicesOf(files, n, Incremental), IndicesOf(files, n, BadEpoch));
  }

  /** The partition loop. */
  method Partition(files: seq<StreamFile>) returns (fulls: seq<nat>, incs: seq<nat>, bad: seq<nat>)
    ensures Partitioned(files, |files|, fulls, incs, bad)
  {
    fulls, incs, bad := [], [], [];
    for i := 0 to |files|
      invariant fulls == IndicesOf(files, i, Full)
      invariant incs == IndicesOf(files, i, Incremental)
      invariant bad == IndicesOf(files, i, BadEpoch)
    {
      if files[i].epoch == 0 {
        bad := bad + [i];
      } else if files[i].base == "" {
        fulls := fulls + [i];
      } else {
        incs := incs + [i];
      }
    }
    IndicesPartition(files);
  }

  function Streams(files: seq<StreamFile>, idxs: seq<nat>): (r: seq<StreamFile>)
    requires InRange(files, idxs)
    ensures |r| == |idxs| && forall k :: 0 <= k < |idxs| ==> r[k] == files[idxs[k]]
  {
    seq(|idxs|, k requires 0 <= k < |idxs| => files[idxs[k]])
  }

  /** The lists one jail's walk produces from its two orders. */
  function WalkDecision(files: seq<StreamFile>, fo: seq<nat>, io: seq<nat>, bad: seq<nat>,
                        kept: set<nat>, keptIncs: set<nat>, del: bool): Decision
    requires InRange(files, fo) && InRange(files, io) && InRange(files, bad)
  {
    var lost := Pick(files, io, keptIncs, false, |io|);
    Decision(Pick(files, fo, kept, true, |fo|) + Pick(files, io, keptIncs, true, |io|),
             Pick(files, fo, kept, false, |fo|) + (if del then lost else []),
             (if del then [] else lost) + Names(files, bad))
  }

  ghost predicate Orders(files: seq<StreamFile>, fo: seq<nat>, io: seq<nat>, bad: seq<nat>) {
    && Partitioned(files, |files|, fo, io, bad)
    && Sorted(fo, NewerFirst(files)) && Sorted(io, OlderFirst(files))
  }

  lemma SortedPartition(
    files: seq<StreamFile>, fulls: seq<nat>, incs: seq<nat>, bad: seq<nat>, fo: seq<nat>, io: seq<nat>)
    requires Partitioned(files, |files|, fulls, incs, bad)
    requires multiset(fo) == multiset(fulls) && multiset(io) == multiset(incs)
    ensures Partitioned(files, |files|, fo, io, bad)
  {
    SameElements(fulls, fo);
    SameElements(incs, io);
    NoRepeatsPermuted(fulls, fo);
    NoRepeatsPermuted(incs, io);
    assert InRange(files, fo) by { forall k | 0 <= k < |fo| ensures fo[k] < |files| { assert fo[k] in fo; } }
    assert InRange(files, io) by { forall k | 0 <= k < |io| ensures io[k] < |files| { assert io[k] in io; } }
    PermutedNames(files, fulls, fo);
    PermutedNames(files, incs, io);
  }

  /** Every file is named exactly once. */
  lemma WalkPartitions(
    files: seq<StreamFile>, fo: seq<nat>, io: seq<nat>, bad: seq<nat>, kept: set<nat>, keptIncs: set<nat>, del: bool)
    requires Partitioned(files, |files|, fo, io, bad)
    ensures var d := WalkDecision(files, fo, io, bad, kept, keptIncs, del);
      multiset(d.keep) + multiset(d.remove) + multiset(d.orphans) == multiset(AllNames(files, |files|))
  {
    PickSplits(files, fo, kept, |fo|);
    PickSplits(files, io, keptIncs, |io|);
  }

  lemma OrdersAreNewestFirst(files: seq<StreamFile>, fo: seq<nat>, io: seq<nat>, bad: seq<nat>)
    requires Orders(files, fo, io, bad)
    ensures NewestFirst(files, fo)
  {
    forall k | 0 <= k < |fo| ensures IsFull(files[fo[k]]) { assert fo[k] in fo; }
    forall j, k | 0 <= j < k < |fo| ensures files[fo[j]].epoch >= files[fo[k]].epoch {
      assert NewerFirst(files)(fo[j], fo[k]);
    }
  }

  lemma OrdersAreOldestFirst(files: seq<StreamFile>, fo: seq<nat>, io: seq<nat>, bad: seq<nat>, jail: string)
    requires Orders(files, fo, io, bad) && DistinctNames(files)
    requires forall i :: 0 <= i < |files| ==> files[i].jail == jail
    ensures OldestFirst(AsSet(files), Streams(files, io))
  {
    var incs := Streams(files, io);
    forall k | 0 <= k < |incs| ensures incs[k] in AsSet(files) && IsIncremental(incs[k]) {
      assert io[k] in io;
    }
    forall f | f in AsSet(files) && IsIncremental(f) ensures f in incs {
      var i :| 0 <= i < |files| && files[i] == f;
      assert i in io;
      var k :| 0 <= k < |io| && io[k] == i;
      assert incs[k] == f;
    }
    forall j, k | 0 <= j < k < |incs| ensures Before(incs[j], incs[k]) {
      assert OlderFirst(files)(io[j], io[k]);
      LessTotal(incs[j].filename, incs[k].filename);
      assert io[j] != io[k];
      assert incs[j].filename != incs[k].filename;
    }
  }

  ghost function PassedIncs(files: seq<StreamFile>, io: seq<nat>, start: set<string>): set<nat>
    requires InRange(files, io)
  {
    set k | 0 <= k < |io| && PassKeeps(Streams(files, io), start, k) :: io[k]
  }

  ghost function KeptFullIndices(files: seq<StreamFile>, fo: seq<nat>, rules: seq<Rule>): set<nat>
    requires InRange(files, fo)
  {
    set k | 0 <= k < |fo| && KeptBySome(files, fo, rules, k) :: fo[k]
  }

  /** Index sets and file sets say the same where names are distinct. */
  lemma FullIndexKept(files: seq<StreamFile>, fo: seq<nat>, rules: seq<Rule>, i: nat)
    requires InRange(files, fo) && DistinctNames(files) && i < |files|
    ensures files[i] in FilesKeptAt(files, fo, rules) <==> i in KeptFullIndices(files, fo, rules)
  {
    if files[i] in FilesKeptAt(files, fo, rules) {
      var k :| 0 <= k < |fo| && KeptBySome(files, fo, rules, k) && files[fo[k]] == files[i];
      assert fo[k] == i;
    }
  }

  lemma PassedIndices(files: seq<StreamFile>, io: seq<nat>, start: set<string>)
    requires InRange(files, io) && NoRepeats(io)
    ensures forall k :: 0 <= k < |io| ==>
      (io[k] in PassedIncs(files, io, start) <==> PassKeeps(Streams(files, io), start, k))
  {
  }

  lemma IncIndexKept(files: seq<StreamFile>, fo: seq<nat>, io: seq<nat>, bad: seq<nat>, jail: string,
                     kept: set<StreamFile>, start: set<string>, i: nat)
    requires Orders(files, fo, io, bad) && DistinctNames(files) && i < |files|
    requires forall i :: 0 <= i < |files| ==> files[i].jail == jail
    requires StartsFrom(AsSet(files), kept, start)
    ensures i in io && i in PassedIncs(files, io, start) <==> KeptIncremental(AsSet(files), kept, files[i])
  {
    OrdersAreOldestFirst(files, fo, io, bad, jail);
    if i in io {
      var k :| 0 <= k < |io| && io[k] == i;
      PassKeepsIffChain(AsSet(files), kept, Streams(files, io), start, k);
      PassedIndices(files, io, start);
    } else if KeptIncremental(AsSet(files), kept, files[i]) {
      var p := KeptHasOrderedChain(AsSet(files), kept, files[i]);
    }
  }

  /** The walk of one jail decides as the policy says. */
  lemma WalkDecides(
    files: seq<StreamFile>, fo: seq<nat>, io: seq<nat>, bad: seq<nat>, jail: string, rules: seq<Rule>, del: bool)
    requires Orders(files, fo, io, bad) && DistinctNames(files)
    requires forall i :: 0 <= i < |files| ==> files[i].jail == jail
    ensures var kf := FilesKeptAt(files, fo, rules);
      var start := set f | f in kf :: f.suffix;
      Decides(AsSet(files), rules, del, kf,
              WalkDecision(files, fo, io, bad, KeptFullIndices(files, fo, rules), PassedIncs(files, io, start), del))
  {
    var all, kf := AsSet(files), FilesKeptAt(files, fo, rules);
    var start := set f | f in kf :: f.suffix;
    var K, KI := KeptFullIndices(files, fo, rules), PassedIncs(files, io, start);
    var d := WalkDecision(files, fo, io, bad, K, KI, del);
    OrdersAreNewestFirst(files, fo, io, bad);
    OrderKeepsFulls(files, fo, rules);
    forall f | f in all ensures DecidesFile(all, del, kf, d, f) {
      var i :| 0 <= i < |files| && files[i] == f;
      WalkMembers(files, fo, io, bad, K, KI, del, i);
      FullIndexKept(files, fo, rules, i);
      IncIndexKept(files, fo, io, bad, jail, kf, start, i);
    }
  }

  /** Which list the file at index `i` is named in. */
  lemma WalkMembers(
    files: seq<StreamFile>, fo: seq<nat>, io: seq<nat>, bad: seq<nat>, K: set<nat>, KI: set<nat>, del: bool, i: nat)
    requires InRange(files, fo) && InRange(files, io) && InRange(files, bad) && DistinctNames(files) && i < |files|
    ensures var d := WalkDecision(files, fo, io, bad, K, KI, del);
      && (files[i].filename in d.keep <==> (i in fo && i in K) || (i in io && i in KI))
      && (files[i].filename in d.remove <==> (i in fo && i !in K) || (i in io && i !in KI && del))
      && (files[i].filename in d.orphans <==> i in bad || (i in io && i !in KI && !del))
  {
    assert fo[..|fo|] == fo && io[..|io|] == io && bad[..|bad|] == bad;
    PickMember(files, fo, K, true, |fo|, i);
    PickMember(files, fo, K, false, |fo|, i);
    PickMember(files, io, KI, true, |io|, i);
    PickMember(files, io, KI, false, |io|, i);
    PickMember(files, bad, {}, false, |bad|, i);
  }

  /** decidePruneOneJail. */
  method DecidePruneOneJail(files: seq<StreamFile>, rules: seq<Rule>, del: bool, ghost jail: string)
    returns (d: Decision, ghost kf: set<StreamFile>)
    requires forall i :: 0 <= i < |files| ==> files[i].jail == jail
    ensures multiset(d.keep) + multiset(d.remove) + multiset(d.orphans) == multiset(AllNames(files, |files|))
    ensures DistinctNames(files) ==> Decides(AsSet(files), rules, del, kf, d)
  {
    var fo, io, bad := OrderStreams(files);
    kf := FilesKeptAt(files, fo, rules);
    var kept := KeepFulls(files, rules, fo, jail);
    SuffixesAgree(files, fo, rules, kept, kf);
    var keptSuffixes := set i | i in kept :: files[i].suffix;
    d := Walk(files, fo, io, bad, kept, keptSuffixes, del);
    WalkPartitions(files, fo, io, bad, kept, PassedIncs(files, io, keptSuffixes), del);
    if DistinctNames(files) {
      WalkDecides(files, fo, io, bad, jail, rules, del);
    }
  }

  /** The three loops over the ordered streams. */
  method Walk(
    files: seq<StreamFile>, fo: seq<nat>, io: seq<nat>, bad: seq<nat>,
    kept: set<nat>, keptSuffixes: set<string>, del: bool)
    returns (d: Decision)
    requires InRange(files, fo) && InRange(files, io) && InRange(files, bad) && NoRepeats(io)
    ensures d == WalkDecision(files, fo, io, bad, kept, PassedIncs(files, io, keptSuffixes), del)
  {
    ghost var KI := PassedIncs(files, io, keptSuffixes);
    PassedIndices(files, io, keptSuffixes);
    var keep, remove := WalkFulls(files, fo, kept);
    var based, lost := WalkIncs(files, io, keptSuffixes, Streams(files, io), KI);
    var orphans := WalkBad(files, bad);
    d := if del then Decision(keep + based, remove + lost, orphans) else Decision(keep + based, remove, lost + orphans);
  }

  method OrderStreams(files: seq<StreamFile>) returns (fo: seq<nat>, io: seq<nat>, bad: seq<nat>)
    ensures Orders(files, fo, io, bad)
  {
    var fulls, incs;
    fulls, incs, bad := Partition(files);
    fo := Sort(fulls, NewerFirst(files));
    OlderFirstOrdered(files);
    io := Sort(incs, OlderFirst(files));
    SortedPartition(files, fulls, incs, bad, fo, io);
  }

  method WalkFulls(
    files: seq<StreamFile>, fo: seq<nat>, kept: set<nat>)
    returns (keep: seq<string>, remove: seq<string>)
    requires InRange(files, fo)
    ensures keep == Pick(files, fo, kept, true, |fo|) && remove == Pick(files, fo, kept, false, |fo|)
  {
    keep, remove := [], [];
    for k := 0 to |fo|
      invariant keep == Pick(files, fo, kept, true, k) && remove == Pick(files, fo, kept, false, k)
    {
      if fo[k] in kept {
        keep := keep + [files[fo[k]].filename];
      } else {
        remove := remove + [files[fo[k]].filename];
      }
    }
  }

  lemma {:induction false} PickStep(files: seq<StreamFile>, idxs: seq<nat>, K: set<nat>, k: nat)
    requires InRange(files, idxs) && k < |idxs|
    ensures var yes, no, name := Pick(files, idxs, K, true, k), Pick(files, idxs, K, false, k), files[idxs[k]].filename;
      && Pick(files, idxs, K, true, k + 1) == (if idxs[k] in K then yes + [name] else yes)
      && Pick(files, idxs, K, false, k + 1) == (if idxs[k] in K then no else no + [name])
  {
  }

  /** Incrementals, oldest first: kept when their base is, and then a base themselves. */
  method WalkIncs(
    files: seq<StreamFile>, io: seq<nat>, start: set<string>, ghost incs: seq<StreamFile>, ghost KI: set<nat>)
    returns (keep: seq<string>, lost: seq<string>)
    requires InRange(files, io) && incs == Streams(files, io)
    requires forall k :: 0 <= k < |io| ==> (io[k] in KI <==> PassKeeps(incs, start, k))
    ensures keep == Pick(files, io, KI, true, |io|)
    ensures lost == Pick(files, io, KI, false, |io|)
  {
    keep, lost := [], [];
    var keptSuffixes := start;
    for k := 0 to |io|
      invariant Walked(files, io, incs, start, KI, k, keep, lost, keptSuffixes)
    {
      var f := files[io[k]];
      WalkedNext(files, io, incs, start, KI, k, keep, lost, keptSuffixes);
      if f.base in keptSuffixes {
        keep := keep + [f.filename];
        keptSuffixes := keptSuffixes + {f.suffix};
      } else {
        lost := lost + [f.filename];
      }
    }
  }

  /** The loop's variables before incremental `k`. */
  ghost predicate Walked(
    files: seq<StreamFile>, io: seq<nat>, incs: seq<StreamFile>, start: set<string>, KI: set<nat>,
    k: nat, keep: seq<string>, lost: seq<string>, suffixes: set<string>)
  {
    && InRange(files, io) && k <= |io| == |incs| && suffixes == SuffixesAfter(incs, start, k)
    && keep == Pick(files, io, KI, true, k) && lost == Pick(files, io, KI, false, k)
  }

  lemma {:induction false} WalkedNext(
    files: seq<StreamFile>, io: seq<nat>, incs: seq<StreamFile>, start: set<string>, KI: set<nat>,
    k: nat, keep: seq<string>, lost: seq<string>, suffixes: set<string>)
    requires InRange(files, io) && incs == Streams(files, io) && k < |io|
    requires io[k] in KI <==> PassKeeps(incs, start, k)
    requires Walked(files, io, incs, start, KI, k, keep, lost, suffixes)
    ensures var f := files[io[k]];
      if f.base in suffixes
      then Walked(files, io, incs, start, KI, k + 1, keep + [f.filename], lost, suffixes + {f.suffix})
      else Walked(files, io, incs, start, KI, k + 1, keep, lost + [f.filename], suffixes)
  {
    assert incs[k] == files[io[k]];
    PassStep(incs, start, k);
    PickStep(files, io, KI, k);
  }

  method WalkBad(files: seq<StreamFile>, bad: seq<nat>) returns (orphans: seq<string>)
    requires InRange(files, bad)
    ensures orphans == Names(files, bad)
  {
    orphans := [];
    for k := 0 to |bad|
      invariant orphans == Pick(files, bad, {}, false, k)
    {
      orphans := orphans + [files[bad[k]].filename];
    }
  }

  lemma SuffixesAgree(files: seq<StreamFile>, fo: seq<nat>, rules: seq<Rule>, kept: set<nat>, kf: set<StreamFile>)
    requires InRange(files, fo)
    requires kept == KeptFullIndices(files, fo, rules) && kf == FilesKeptAt(files, fo, rules)
    requires forall i :: i in kept ==> i < |files|
    ensures (set i | i in kept :: files[i].suffix) == (set f | f in kf :: f.suffix)
  {
    var a, b := (set i | i in kept :: files[i].suffix), (set f | f in kf :: f.suffix);
    forall x | x in b ensures x in a {
      var f :| f in kf && f.suffix == x;
      var k :| 0 <= k < |fo| && KeptBySome(files, fo, rules, k) && files[fo[k]] == f;
      assert fo[k] in kept;
    }
  }

  /** The addAll(bucketKeep(...)) calls, one per bucket type. */
  method KeepFulls(files: seq<StreamFile>, rules: seq<Rule>, fo: seq<nat>, ghost jail: string) returns (kept: set<nat>)
    requires InRange(files, fo) && forall i :: 0 <= i < |files| ==> files[i].jail == jail
    ensures kept == KeptFullIndices(files, fo, rules)
    ensures forall i :: i in kept ==> i < |files|
  {
    kept := {};
    for t := 0 to |rules|
      invariant kept == set k | 0 <= k < |fo| && KeptBySome(files, fo, rules[..t], k) :: fo[k]
    {
      var some := BucketKeep(files, fo, rules[t], jail);
      kept := kept + some;
      forall k | 0 <= k < |fo|
        ensures KeptBySome(files, fo, rules[..t + 1], k) <==>
          KeptBySome(files, fo, rules[..t], k) || KeptAt(files, fo, rules[t], k)
      {
        KeptByOneMore(files, fo, rules, t, k);
      }
    }
    assert rules[..|rules|] == rules;
  }

  lemma KeptByOneMore(files: seq<StreamFile>, fo: seq<nat>, rules: seq<Rule>, t: nat, k: nat)
    requires InRange(files, fo) && t < |rules| && k < |fo|
    ensures KeptBySome(files, fo, rules[..t + 1], k) <==>
      KeptBySome(files, fo, rules[..t], k) || KeptAt(files, fo, rules[t], k)
  {
    var more := rules[..t + 1];
    assert forall u :: 0 <= u < t ==> more[u] == rules[..t][u];
    assert more[t] == rules[t];
  }
}
