/** bucketKeep and the single pass over incrementals of lib/backup_prune_pure.cpp, against Retention. */
module Prune {
  import opened Text
  import opened StreamName
  import opened Sorting
  import opened Retention

  // ---------- Positions in a newest-first order ----------

  predicate InRange(files: seq<StreamFile>, ord: seq<nat>) {
    forall k :: 0 <= k < |ord| ==> ord[k] < |files|
  }

  /** Buckets of the files before position `k`, of jail `jail` only. */
  function KeysBefore(files: seq<StreamFile>, ord: seq<nat>, bucket: nat -> int, k: nat, jail: string): set<int>
    requires InRange(files, ord) && k <= |ord|
  {
    set j | 0 <= j < k && files[ord[j]].jail == jail :: bucket(files[ord[j]].epoch)
  }

  /** Position `k` is kept: first of its bucket, fewer than `n` buckets before it. */
  predicate KeptAt(files: seq<StreamFile>, ord: seq<nat>, r: Rule, k: nat)
    requires InRange(files, ord) && k < |ord|
  {
    var f := files[ord[k]];
    var keys := KeysBefore(files, ord, r.bucket, k, f.jail);
    r.bucket(f.epoch) !in keys && |keys| < r.n
  }

  predicate KeptBySome(files: seq<StreamFile>, ord: seq<nat>, rules: seq<Rule>, k: nat)
    requires InRange(files, ord) && k < |ord|
  {
    exists t :: 0 <= t < |rules| && KeptAt(files, ord, rules[t], k)
  }

  lemma KeysGrow(files: seq<StreamFile>, ord: seq<nat>, bucket: nat -> int, k: nat, jail: string)
    requires InRange(files, ord) && k < |ord|
    ensures var f := files[ord[k]];
      KeysBefore(files, ord, bucket, k + 1, jail) ==
      KeysBefore(files, ord, bucket, k, jail) + if f.jail == jail then {bucket(f.epoch)} else {}
  {
  }

  lemma KeysMonotone(files: seq<StreamFile>, ord: seq<nat>, bucket: nat -> int, k: nat, m: nat, jail: string)
    requires InRange(files, ord) && k <= m <= |ord|
    ensures |KeysBefore(files, ord, bucket, k, jail)| <= |KeysBefore(files, ord, bucket, m, jail)|
  {
    SubsetSize(KeysBefore(files, ord, bucket, k, jail), KeysBefore(files, ord, bucket, m, jail));
  }

  /** The indices kept among the first `k` positions. */
  function KeptIndices(files: seq<StreamFile>, ord: seq<nat>, r: Rule, k: nat): set<nat>
    requires InRange(files, ord) && k <= |ord|
  {
    set j | 0 <= j < k && KeptAt(files, ord, r, j) :: ord[j]
  }

  lemma KeptIndicesGrow(files: seq<StreamFile>, ord: seq<nat>, r: Rule, k: nat)
    requires InRange(files, ord) && k < |ord|
    ensures KeptIndices(files, ord, r, k + 1) ==
      KeptIndices(files, ord, r, k) + if KeptAt(files, ord, r, k) then {ord[k]} else {}
  {
  }

  /** Once `n` buckets are full, nothing older is kept. */
  lemma {:induction false} KeptIndicesStop(files: seq<StreamFile>, ord: seq<nat>, r: Rule, k: nat, jail: string)
    requires InRange(files, ord) && k <= |ord| && forall i :: 0 <= i < |files| ==> files[i].jail == jail
    requires |KeysBefore(files, ord, r.bucket, k, jail)| >= r.n
    ensures KeptIndices(files, ord, r, |ord|) == KeptIndices(files, ord, r, k)
    decreases |ord| - k
  {
    if k < |ord| {
      KeysMonotone(files, ord, r.bucket, k, k + 1, jail);
      KeptIndicesStop(files, ord, r, k + 1, jail);
      KeptIndicesGrow(files, ord, r, k);
    }
  }

  /** bucketKeep, on the files of one jail. */
  method BucketKeep(files: seq<StreamFile>, ord: seq<nat>, r: Rule, ghost jail: string) returns (kept: set<nat>)
    requires InRange(files, ord) && forall i :: 0 <= i < |files| ==> files[i].jail == jail
    ensures kept == KeptIndices(files, ord, r, |ord|)
  {
    kept := {};
    if r.n == 0 {
      KeptIndicesStop(files, ord, r, 0, jail);
      return;
    }
    var seen: set<int> := {};
    for k := 0 to |ord|
      invariant seen == KeysBefore(files, ord, r.bucket, k, jail)
      invariant |seen| < r.n
      invariant kept == KeptIndices(files, ord, r, k)
    {
      var key := r.bucket(files[ord[k]].epoch);
      KeysGrow(files, ord, r.bucket, k, jail);
      KeptIndicesGrow(files, ord, r, k);
      if key !in seen {
        seen := seen + {key};
        kept := kept + {ord[k]};
        if |seen| >= r.n {
          KeptIndicesStop(files, ord, r, k + 1, jail);
          return;
        }
      }
    }
  }

  // ---------- A newest-first order decides which fulls are kept ----------

  function EpochAt(files: seq<StreamFile>, i: nat): nat { if i < |files| then files[i].epoch else 0 }

  function NameAt(files: seq<StreamFile>, i: nat): string { if i < |files| then files[i].filename else "" }

  function AsSet(files: seq<StreamFile>): set<StreamFile> { set i | 0 <= i < |files| :: files[i] }

  ghost predicate DistinctNames(files: seq<StreamFile>) {
    forall i, j :: 0 <= i < j < |files| ==> files[i].filename != files[j].filename
  }

  /** `ord` lists the fulls of `files`, each once, newest first. */
  ghost predicate NewestFirst(files: seq<StreamFile>, ord: seq<nat>) {
    && InRange(files, ord) && NoRepeats(ord)
    && (forall k :: 0 <= k < |ord| ==> IsFull(files[ord[k]]))
    && (forall i :: 0 <= i < |files| && IsFull(files[i]) ==> i in ord)
    && (forall j, k :: 0 <= j < k < |ord| ==> files[ord[j]].epoch >= files[ord[k]].epoch)
  }

  /** No earlier position has the same jail and epoch. */
  ghost predicate FirstOfEpoch(files: seq<StreamFile>, ord: seq<nat>, k: nat)
    requires InRange(files, ord) && k < |ord|
  {
    forall j :: 0 <= j < k ==> files[ord[j]].jail != files[ord[k]].jail || files[ord[j]].epoch != files[ord[k]].epoch
  }

  lemma KeysAreNewerBuckets(files: seq<StreamFile>, ord: seq<nat>, r: Rule, k: nat)
    requires NewestFirst(files, ord) && k < |ord| && FirstOfEpoch(files, ord, k)
    ensures var f := files[ord[k]];
      KeysBefore(files, ord, r.bucket, k, f.jail) == NewerBuckets(FullEpochs(AsSet(files), f.jail), r, f.epoch)
  {
    var f := files[ord[k]];
    var epochs := FullEpochs(AsSet(files), f.jail);
    forall b | b in KeysBefore(files, ord, r.bucket, k, f.jail)
      ensures b in NewerBuckets(epochs, r, f.epoch)
    {
      KeyIsNewer(files, ord, r, k, b);
    }
    forall b | b in NewerBuckets(epochs, r, f.epoch)
      ensures b in KeysBefore(files, ord, r.bucket, k, f.jail)
    {
      NewerIsKey(files, ord, r, k, b);
    }
  }

  lemma KeyIsNewer(files: seq<StreamFile>, ord: seq<nat>, r: Rule, k: nat, b: int)
    requires NewestFirst(files, ord) && k < |ord| && FirstOfEpoch(files, ord, k)
    requires b in KeysBefore(files, ord, r.bucket, k, files[ord[k]].jail)
    ensures var f := files[ord[k]]; b in NewerBuckets(FullEpochs(AsSet(files), f.jail), r, f.epoch)
  {
    var f := files[ord[k]];
    var j :| 0 <= j < k && files[ord[j]].jail == f.jail && r.bucket(files[ord[j]].epoch) == b;
    assert files[ord[j]] in AsSet(files);
    assert files[ord[j]].epoch in FullEpochs(AsSet(files), f.jail);
  }

  lemma NewerIsKey(files: seq<StreamFile>, ord: seq<nat>, r: Rule, k: nat, b: int)
    requires NewestFirst(files, ord) && k < |ord|
    requires var f := files[ord[k]]; b in NewerBuckets(FullEpochs(AsSet(files), f.jail), r, f.epoch)
    ensures b in KeysBefore(files, ord, r.bucket, k, files[ord[k]].jail)
  {
    var f := files[ord[k]];
    var e :| e in FullEpochs(AsSet(files), f.jail) && f.epoch < e && r.bucket(e) == b;
    var g :| g in AsSet(files) && g.jail == f.jail && IsFull(g) && g.epoch == e;
    var i :| 0 <= i < |files| && files[i] == g;
    var j :| 0 <= j < |ord| && ord[j] == i;
    assert j < k;
  }

  lemma KeptAtIsChosen(files: seq<StreamFile>, ord: seq<nat>, r: Rule, k: nat)
    requires NewestFirst(files, ord) && k < |ord|
    ensures var f := files[ord[k]];
      KeptAt(files, ord, r, k) <==> FirstOfEpoch(files, ord, k) && Chosen(FullEpochs(AsSet(files), f.jail), r, f.epoch)
  {
    if FirstOfEpoch(files, ord, k) {
      KeysAreNewerBuckets(files, ord, r, k);
    } else {
      var j :| 0 <= j < k && files[ord[j]].jail == files[ord[k]].jail && files[ord[j]].epoch == files[ord[k]].epoch;
      assert r.bucket(files[ord[k]].epoch) in KeysBefore(files, ord, r.bucket, k, files[ord[k]].jail);
    }
  }

  lemma FirstPosition(files: seq<StreamFile>, ord: seq<nat>, k: nat) returns (m: nat)
    requires InRange(files, ord) && k < |ord|
    ensures m <= k && FirstOfEpoch(files, ord, m)
    ensures files[ord[m]].jail == files[ord[k]].jail && files[ord[m]].epoch == files[ord[k]].epoch
  {
    if FirstOfEpoch(files, ord, k) {
      m := k;
    } else {
      var j :| 0 <= j < k && files[ord[j]].jail == files[ord[k]].jail && files[ord[j]].epoch == files[ord[k]].epoch;
      m := FirstPosition(files, ord, j);
    }
  }

  ghost function FilesKeptAt(files: seq<StreamFile>, ord: seq<nat>, rules: seq<Rule>): set<StreamFile>
    requires InRange(files, ord)
  {
    set k | 0 <= k < |ord| && KeptBySome(files, ord, rules, k) :: files[ord[k]]
  }

  lemma KeptPositionIsChosen(files: seq<StreamFile>, ord: seq<nat>, rules: seq<Rule>, k: nat)
    requires NewestFirst(files, ord) && k < |ord|
    ensures var f := files[ord[k]];
      KeptBySome(files, ord, rules, k) <==>
      FirstOfEpoch(files, ord, k) && ChosenBySome(FullEpochs(AsSet(files), f.jail), rules, f.epoch)
  {
    forall t | 0 <= t < |rules|
      ensures var f := files[ord[k]];
        KeptAt(files, ord, rules[t], k) <==>
          FirstOfEpoch(files, ord, k) && Chosen(FullEpochs(AsSet(files), f.jail), rules[t], f.epoch)
    {
      KeptAtIsChosen(files, ord, rules[t], k);
    }
  }

  lemma KeptPosition(files: seq<StreamFile>, ord: seq<nat>, rules: seq<Rule>, f: StreamFile) returns (k: nat)
    requires NewestFirst(files, ord) && f in FilesKeptAt(files, ord, rules)
    ensures k < |ord| && files[ord[k]] == f && FirstOfEpoch(files, ord, k)
    ensures f in AsSet(files) && IsFull(f)
    ensures ChosenBySome(FullEpochs(AsSet(files), f.jail), rules, f.epoch)
  {
    k :| 0 <= k < |ord| && KeptBySome(files, ord, rules, k) && files[ord[k]] == f;
    KeptPositionIsChosen(files, ord, rules, k);
  }

  lemma ChosenIsKept(files: seq<StreamFile>, ord: seq<nat>, rules: seq<Rule>, f: StreamFile)
    requires NewestFirst(files, ord) && f in AsSet(files) && IsFull(f)
    requires ChosenBySome(FullEpochs(AsSet(files), f.jail), rules, f.epoch)
    ensures KeepsEpoch(FilesKeptAt(files, ord, rules), f)
  {
    var i :| 0 <= i < |files| && files[i] == f;
    var k :| 0 <= k < |ord| && ord[k] == i;
    var m := FirstPosition(files, ord, k);
    KeptPositionIsChosen(files, ord, rules, m);
    assert files[ord[m]] in FilesKeptAt(files, ord, rules);
  }

  lemma KeptOncePerEpoch(files: seq<StreamFile>, ord: seq<nat>, rules: seq<Rule>, f: StreamFile, g: StreamFile)
    requires NewestFirst(files, ord) && f in FilesKeptAt(files, ord, rules) && g in FilesKeptAt(files, ord, rules)
    requires f.jail == g.jail && f.epoch == g.epoch
    ensures f == g
  {
    var k := KeptPosition(files, ord, rules, f);
    var m := KeptPosition(files, ord, rules, g);
    assert k == m;
  }

  /** Walking any newest-first order, ties in any order, keeps fulls as the policy says. */
  lemma OrderKeepsFulls(files: seq<StreamFile>, ord: seq<nat>, rules: seq<Rule>)
    requires NewestFirst(files, ord)
    ensures KeptFulls(AsSet(files), rules, FilesKeptAt(files, ord, rules))
  {
    forall f | f in FilesKeptAt(files, ord, rules)
      ensures f in AsSet(files) && IsFull(f) && ChosenBySome(FullEpochs(AsSet(files), f.jail), rules, f.epoch)
    {
      var k := KeptPosition(files, ord, rules, f);
    }
    forall f, g | f in FilesKeptAt(files, ord, rules) && g in FilesKeptAt(files, ord, rules) && f.jail == g.jail
      && f.epoch == g.epoch
      ensures f == g
    {
      KeptOncePerEpoch(files, ord, rules, f, g);
    }
    forall f | f in AsSet(files) && IsFull(f) && ChosenBySome(FullEpochs(AsSet(files), f.jail), rules, f.epoch)
      ensures KeepsEpoch(FilesKeptAt(files, ord, rules), f)
    {
      ChosenIsKept(files, ord, rules, f);
    }
  }

  // ---------- The oldest-first pass over incrementals ----------

  /** keptSuffixes after the first `k` incrementals. */
  function SuffixesAfter(incs: seq<StreamFile>, start: set<string>, k: nat): set<string>
    requires k <= |incs|
  {
    if k == 0 then start
    else
      var before := SuffixesAfter(incs, start, k - 1);
      if incs[k - 1].base in before then before + {incs[k - 1].suffix} else before
  }

  predicate PassKeeps(incs: seq<StreamFile>, start: set<string>, k: nat)
    requires k < |incs|
  {
    incs[k].base in SuffixesAfter(incs, start, k)
  }

  /** One turn of the pass. */
  lemma {:induction false} PassStep(incs: seq<StreamFile>, start: set<string>, k: nat)
    requires k < |incs|
    ensures var now := SuffixesAfter(incs, start, k);
      && (PassKeeps(incs, start, k) <==> incs[k].base in now)
      && SuffixesAfter(incs, start, k + 1) == if incs[k].base in now then now + {incs[k].suffix} else now
  {
  }

  lemma {:induction false} SuffixOrigin(incs: seq<StreamFile>, start: set<string>, k: nat, x: string)
    requires k <= |incs|
    ensures x in SuffixesAfter(incs, start, k) <==>
      x in start || exists j :: 0 <= j < k && PassKeeps(incs, start, j) && incs[j].suffix == x
  {
    if k > 0 {
      SuffixOrigin(incs, start, k - 1, x);
      assert PassKeeps(incs, start, k - 1) <==> incs[k - 1].base in SuffixesAfter(incs, start, k - 1);
    }
  }

  /** `incs` are the incrementals of one jail's `all`, oldest first. */
  ghost predicate OldestFirst(all: set<StreamFile>, incs: seq<StreamFile>) {
    && (forall k :: 0 <= k < |incs| ==> incs[k] in all && IsIncremental(incs[k]))
    && (forall f :: f in all && IsIncremental(f) ==> f in incs)
    && (forall j, k :: 0 <= j < k < |incs| ==> Before(incs[j], incs[k]))
    && (forall f, g :: f in all && g in all ==> f.jail == g.jail)
  }

  ghost predicate StartsFrom(all: set<StreamFile>, kept: set<StreamFile>, start: set<string>) {
    kept <= all && start == set f | f in kept :: f.suffix
  }

  lemma {:induction false} PassHasChain(
    all: set<StreamFile>, kept: set<StreamFile>, incs: seq<StreamFile>, start: set<string>, k: nat)
    requires OldestFirst(all, incs) && StartsFrom(all, kept, start) && k < |incs| && PassKeeps(incs, start, k)
    ensures KeptIncremental(all, kept, incs[k])
  {
    var f := incs[k];
    SuffixOrigin(incs, start, k, f.base);
    if f.base in start {
      assert OnKeptFull(kept, f);
      assert Chain(all, kept, [f]) && OldestLast([f]) && [f][0] == f;
    } else {
      var j :| 0 <= j < k && PassKeeps(incs, start, j) && incs[j].suffix == f.base;
      PassHasChain(all, kept, incs, start, j);
      assert Link(f, incs[j]);
      ExtendChain(all, kept, f, incs[j]);
    }
  }

  lemma {:induction false} ChainIsPassed(
    all: set<StreamFile>, kept: set<StreamFile>, incs: seq<StreamFile>, start: set<string>,
                                         p: seq<StreamFile>, k: nat)
    requires OldestFirst(all, incs) && StartsFrom(all, kept, start)
    requires Chain(all, kept, p) && OldestLast(p) && k < |incs| && incs[k] == p[0]
    ensures PassKeeps(incs, start, k)
    decreases |p|
  {
    SuffixOrigin(incs, start, k, incs[k].base);
    if |p| > 1 {
      var q := p[1..];
      assert Link(p[0], p[1]) && Before(p[1], p[0]);
      ChainTail(all, kept, p, 1);
      var j :| 0 <= j < |incs| && incs[j] == p[1];
      NotBefore(p[1], p[0]);
      assert j < k;
      ChainIsPassed(all, kept, incs, start, q, j);
    }
  }

  lemma NotBefore(a: StreamFile, b: StreamFile)
    requires Before(a, b)
    ensures !Before(b, a) && a != b
  {
    LessTotal(a.filename, b.filename);
  }

  /** One pass keeps exactly the incrementals with a chain to a kept full that only goes back in time. */
  lemma PassKeepsIffChain(
    all: set<StreamFile>, kept: set<StreamFile>, incs: seq<StreamFile>, start: set<string>, k: nat)
    requires OldestFirst(all, incs) && StartsFrom(all, kept, start) && k < |incs|
    ensures PassKeeps(incs, start, k) <==> KeptIncremental(all, kept, incs[k])
  {
    if PassKeeps(incs, start, k) {
      PassHasChain(all, kept, incs, start, k);
    }
    if KeptIncremental(all, kept, incs[k]) {
      var p := KeptHasOrderedChain(all, kept, incs[k]);
      ChainIsPassed(all, kept, incs, start, p, k);
    }
  }
}
