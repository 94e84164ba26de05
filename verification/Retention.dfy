/**
 What backup-prune promises (lib/backup_prune_pure.h), stated on the set of stream files
 without the order in which lib/backup_prune_pure.cpp walks them.
 */
module Retention {
  import opened Text
  import opened StreamName
  import Calendar

  /** One bucket type: keep the newest full of each of the `n` newest buckets. */
  datatype Rule = Rule(n: nat, bucket: nat -> int)

  datatype Policy = Policy(hourly: nat, daily: nat, weekly: nat, monthly: nat)

  function HourBucket(e: nat): int { e / 3600 }
  function DayBucket(e: nat): int { e / 86400 }
  function WeekBucket(e: nat): int { e / (86400 * 7) }

  function MonthBucket(e: nat): int {
    var c := Calendar.Gmtime(e);
    c.year * 12 + (c.month - 1)
  }

  function Rules(p: Policy): (r: seq<Rule>) {
    [Rule(p.hourly, HourBucket), Rule(p.daily, DayBucket), Rule(p.weekly, WeekBucket), Rule(p.monthly, MonthBucket)]
  }

  datatype Decision = Decision(keep: seq<string>, remove: seq<string>, orphans: seq<string>)

  predicate IsFull(f: StreamFile) { f.epoch > 0 && f.base == "" }

  predicate IsIncremental(f: StreamFile) { f.epoch > 0 && f.base != "" }

  // ---------- Fulls ----------

  function FullEpochs(files: set<StreamFile>, jail: string): set<nat> {
    set f | f in files && f.jail == jail && IsFull(f) :: f.epoch
  }

  function NewerBuckets(epochs: set<nat>, r: Rule, e: nat): set<int> {
    set x | x in epochs && e < x :: r.bucket(x)
  }

  /** Newest in its bucket, with fewer than `n` buckets among the newer ones. */
  predicate Chosen(epochs: set<nat>, r: Rule, e: nat) {
    && r.bucket(e) !in NewerBuckets(epochs, r, e)
    && |NewerBuckets(epochs, r, e)| < r.n
  }

  predicate ChosenBySome(epochs: set<nat>, rules: seq<Rule>, e: nat) {
    exists t :: 0 <= t < |rules| && Chosen(epochs, rules[t], e)
  }

  /** `kept` has a full of the jail and epoch of `f`. */
  ghost predicate KeepsEpoch(kept: set<StreamFile>, f: StreamFile) {
    exists g :: g in kept && g.jail == f.jail && g.epoch == f.epoch
  }

  /**
   The kept fulls: of each jail, judged on that jail's fulls alone, one full for every epoch
   that some rule chooses and none for the others. Only fulls of one jail with one epoch leave
   a choice; which of them it is depends on how std::sort orders ties.
   */
  ghost predicate KeptFulls(files: set<StreamFile>, rules: seq<Rule>, kept: set<StreamFile>) {
    && (forall f :: f in kept ==> f in files && IsFull(f))
    && (forall f :: f in kept ==> ChosenBySome(FullEpochs(files, f.jail), rules, f.epoch))
    && (forall f :: f in files && IsFull(f) && ChosenBySome(FullEpochs(files, f.jail), rules, f.epoch) ==>
          KeepsEpoch(kept, f))
    && (forall f, g :: f in kept && g in kept && f.jail == g.jail && f.epoch == g.epoch ==> f == g)
  }

  ghost predicate OneFullPerEpoch(files: set<StreamFile>) {
    forall f, g :: f in files && g in files && SameMoment(f, g) ==> f == g
  }

  predicate SameMoment(f: StreamFile, g: StreamFile) {
    IsFull(f) && IsFull(g) && f.jail == g.jail && f.epoch == g.epoch
  }

  /** Where no jail has two fulls of one epoch, the kept fulls are the chosen ones. */
  lemma DistinctEpochsDecide(files: set<StreamFile>, rules: seq<Rule>, kept: set<StreamFile>)
    requires KeptFulls(files, rules, kept)
    requires OneFullPerEpoch(files)
    ensures kept == set f | f in files && IsFull(f) && ChosenBySome(FullEpochs(files, f.jail), rules, f.epoch)
  {
    forall f | f in files && IsFull(f) && ChosenBySome(FullEpochs(files, f.jail), rules, f.epoch)
      ensures f in kept
    {
      assert KeepsEpoch(kept, f);
      var g :| g in kept && g.jail == f.jail && g.epoch == f.epoch;
      assert g in files && SameMoment(f, g);
    }
  }

  /** However ties fall, two runs keep fulls of the same jails and epochs. */
  lemma TiesKeepEpochs(files: set<StreamFile>, rules: seq<Rule>, a: set<StreamFile>, b: set<StreamFile>)
    requires KeptFulls(files, rules, a) && KeptFulls(files, rules, b)
    ensures (set f | f in a :: (f.jail, f.epoch)) == (set f | f in b :: (f.jail, f.epoch))
  {
    TiesWithin(files, rules, a, b);
    TiesWithin(files, rules, b, a);
  }

  lemma TiesWithin(files: set<StreamFile>, rules: seq<Rule>, a: set<StreamFile>, b: set<StreamFile>)
    requires KeptFulls(files, rules, a) && KeptFulls(files, rules, b)
    ensures (set f | f in a :: (f.jail, f.epoch)) <= (set f | f in b :: (f.jail, f.epoch))
  {
    forall f | f in a ensures (f.jail, f.epoch) in (set g | g in b :: (g.jail, g.epoch)) {
      var g :| g in b && g.jail == f.jail && g.epoch == f.epoch;
    }
  }

  // ---------- Incrementals ----------

  /** The order in which incrementals are walked. */
  predicate Before(a: StreamFile, b: StreamFile) {
    a.epoch < b.epoch || (a.epoch == b.epoch && Less(a.filename, b.filename))
  }

  /** `f` is built on a kept full. */
  ghost predicate OnKeptFull(kept: set<StreamFile>, f: StreamFile) {
    exists g :: g in kept && g.jail == f.jail && g.suffix == f.base
  }

  ghost predicate Link(f: StreamFile, g: StreamFile) { f.jail == g.jail && f.base == g.suffix }

  /** Incrementals of one jail, each built on the next, the last on a kept full. */
  ghost predicate Chain(files: set<StreamFile>, kept: set<StreamFile>, p: seq<StreamFile>) {
    && |p| > 0
    && (forall t :: 0 <= t < |p| ==> p[t] in files && IsIncremental(p[t]))
    && (forall t :: 0 <= t < |p| - 1 ==> Link(p[t], p[t + 1]))
    && OnKeptFull(kept, p[|p| - 1])
  }

  ghost predicate OldestLast(p: seq<StreamFile>) {
    forall t :: 0 <= t < |p| - 1 ==> Before(p[t + 1], p[t])
  }

  ghost predicate KeptIncremental(files: set<StreamFile>, kept: set<StreamFile>, f: StreamFile) {
    exists p :: |p| > 0 && p[0] == f && Chain(files, kept, p) && OldestLast(p)
  }

  ghost predicate Kept(files: set<StreamFile>, kept: set<StreamFile>, f: StreamFile) {
    f in kept || KeptIncremental(files, kept, f)
  }

  /** The decision lists of one run, given which fulls it kept. */
  ghost predicate Decides(
    files: set<StreamFile>, rules: seq<Rule>, deleteOrphans: bool, kept: set<StreamFile>, d: Decision) {
    && KeptFulls(files, rules, kept)
    && forall f :: f in files ==> DecidesFile(files, deleteOrphans, kept, d, f)
  }

  ghost predicate DecidesFile(
    files: set<StreamFile>, deleteOrphans: bool, kept: set<StreamFile>, d: Decision, f: StreamFile) {
    && (f.filename in d.keep <==> Kept(files, kept, f))
    && (f.filename in d.remove <==> !Kept(files, kept, f) && (IsFull(f) || (IsIncremental(f) && deleteOrphans)))
    && (f.filename in d.orphans <==> f.epoch == 0 || (IsIncremental(f) && !Kept(files, kept, f) && !deleteOrphans))
  }

  lemma ChainTail(files: set<StreamFile>, kept: set<StreamFile>, p: seq<StreamFile>, t: nat)
    requires Chain(files, kept, p) && OldestLast(p) && t < |p|
    ensures Chain(files, kept, p[t..]) && OldestLast(p[t..])
  {
    var q := p[t..];
    assert q[|q| - 1] == p[|p| - 1];
    forall u | 0 <= u < |q| - 1 ensures Link(q[u], q[u + 1]) && Before(q[u + 1], q[u]) {
      assert q[u] == p[t + u] && q[u + 1] == p[t + u + 1];
    }
  }

  /** Every stream of a chain that a walk can follow is kept. */
  lemma ChainIsKept(files: set<StreamFile>, kept: set<StreamFile>, p: seq<StreamFile>, t: nat)
    requires Chain(files, kept, p) && OldestLast(p) && t < |p|
    ensures KeptIncremental(files, kept, p[t])
  {
    ChainTail(files, kept, p, t);
    assert p[t..][0] == p[t];
  }

  /** No ordering assumption: a kept incremental hangs on kept streams of its jail down to a kept full. */
  lemma KeptHasChain(files: set<StreamFile>, kept: set<StreamFile>, f: StreamFile) returns (p: seq<StreamFile>)
    requires KeptIncremental(files, kept, f)
    ensures Chain(files, kept, p) && p[0] == f
    ensures forall t :: 0 <= t < |p| ==> Kept(files, kept, p[t])
    ensures exists g :: g in kept && Link(p[|p| - 1], g)
  {
    p :| |p| > 0 && p[0] == f && Chain(files, kept, p) && OldestLast(p);
    forall t | 0 <= t < |p| ensures Kept(files, kept, p[t]) {
      ChainIsKept(files, kept, p, t);
    }
    var g :| g in kept && g.jail == p[|p| - 1].jail && g.suffix == p[|p| - 1].base;
    assert Link(p[|p| - 1], g);
  }

  /** The rule "kept iff its base is kept", on a set of incrementals. */
  ghost predicate Based(kept: set<StreamFile>, incs: set<StreamFile>, f: StreamFile) {
    OnKeptFull(kept, f) || exists g :: g in incs && Link(f, g)
  }

  ghost predicate Fixpoint(files: set<StreamFile>, kept: set<StreamFile>, incs: set<StreamFile>) {
    forall f :: f in incs <==> f in files && IsIncremental(f) && Based(kept, incs, f)
  }

  ghost function KeptIncrementals(files: set<StreamFile>, kept: set<StreamFile>): set<StreamFile> {
    set f | f in files && KeptIncremental(files, kept, f)
  }

  /** Some kept incremental that `f` is built on is walked before `f`. */
  ghost predicate BaseInTime(files: set<StreamFile>, kept: set<StreamFile>, f: StreamFile) {
    exists h :: KeptIncremental(files, kept, h) && Link(f, h) && Before(h, f)
  }

  /** What is built on a kept incremental is built on a kept full as well, or on one that is walked in time. */
  ghost predicate BasesInTime(files: set<StreamFile>, kept: set<StreamFile>) {
    forall f, g :: f in files && IsIncremental(f) && KeptIncremental(files, kept, g) && Link(f, g) ==>
      OnKeptFull(kept, f) || BaseInTime(files, kept, f)
  }

  /** A kept incremental is on a kept full, or on a kept incremental that is walked before it. */
  lemma KeptIsBased(files: set<StreamFile>, kept: set<StreamFile>, f: StreamFile)
    requires KeptIncremental(files, kept, f)
    ensures f in files && IsIncremental(f) && (OnKeptFull(kept, f) || BaseInTime(files, kept, f))
  {
    var p :| |p| > 0 && p[0] == f && Chain(files, kept, p) && OldestLast(p);
    if |p| > 1 {
      ChainIsKept(files, kept, p, 1);
      assert Link(p[0], p[1]) && Before(p[0 + 1], p[0]);
    }
  }

  /** And conversely. */
  lemma BasedIsKept(files: set<StreamFile>, kept: set<StreamFile>, f: StreamFile)
    requires f in files && IsIncremental(f) && (OnKeptFull(kept, f) || BaseInTime(files, kept, f))
    ensures KeptIncremental(files, kept, f)
  {
    if OnKeptFull(kept, f) {
      assert Chain(files, kept, [f]) && OldestLast([f]) && [f][0] == f;
    } else {
      var h :| KeptIncremental(files, kept, h) && Link(f, h) && Before(h, f);
      ExtendChain(files, kept, f, h);
    }
  }

  /** The exact condition for the single pass to obey "kept iff its base is kept". */
  lemma FixpointIff(files: set<StreamFile>, kept: set<StreamFile>)
    ensures Fixpoint(files, kept, KeptIncrementals(files, kept)) <==> BasesInTime(files, kept)
  {
    var incs := KeptIncrementals(files, kept);
    if Fixpoint(files, kept, incs) {
      forall f, g | f in files && IsIncremental(f) && KeptIncremental(files, kept, g) && Link(f, g)
        ensures OnKeptFull(kept, f) || BaseInTime(files, kept, f)
      {
        KeptIsBased(files, kept, g);
        assert g in incs && Based(kept, incs, f);
        KeptIsBased(files, kept, f);
      }
    }
    if BasesInTime(files, kept) {
      forall f ensures f in incs <==> f in files && IsIncremental(f) && Based(kept, incs, f) {
        PassObeys(files, kept, f);
      }
    }
  }

  lemma PassObeys(files: set<StreamFile>, kept: set<StreamFile>, f: StreamFile)
    requires BasesInTime(files, kept)
    ensures var incs := KeptIncrementals(files, kept);
      f in incs <==> f in files && IsIncremental(f) && Based(kept, incs, f)
  {
    var incs := KeptIncrementals(files, kept);
    if f in incs {
      KeptIsBased(files, kept, f);
      if !OnKeptFull(kept, f) {
        var h :| KeptIncremental(files, kept, h) && Link(f, h) && Before(h, f);
        KeptIsBased(files, kept, h);
        assert h in incs;
      }
    }
    if f in files && IsIncremental(f) && Based(kept, incs, f) {
      BasedIsKept(files, kept, f);
    }
  }

  /** No jail has two incrementals of one suffix. */
  ghost predicate OneIncrementalPerSuffix(files: set<StreamFile>) {
    forall f, g :: f in files && g in files && IsIncremental(f) && IsIncremental(g) && SameSnapshot(f, g) ==> f == g
  }

  predicate SameSnapshot(f: StreamFile, g: StreamFile) { f.jail == g.jail && f.suffix == g.suffix }

  /** Then the condition is that a kept base comes first wherever no kept full serves. */
  lemma FixpointIffBefore(files: set<StreamFile>, kept: set<StreamFile>)
    requires OneIncrementalPerSuffix(files)
    ensures Fixpoint(files, kept, KeptIncrementals(files, kept)) <==>
      forall f, g :: f in files && IsIncremental(f) && KeptIncremental(files, kept, g) && Link(f, g) ==>
        OnKeptFull(kept, f) || Before(g, f)
  {
    FixpointIff(files, kept);
    forall f, g | f in files && KeptIncremental(files, kept, g) && Link(f, g)
      ensures BaseInTime(files, kept, f) <==> Before(g, f)
    {
      if BaseInTime(files, kept, f) {
        var h :| KeptIncremental(files, kept, h) && Link(f, h) && Before(h, f);
        KeptIsBased(files, kept, g);
        KeptIsBased(files, kept, h);
        assert SameSnapshot(g, h);
      }
    }
  }

  /** Every incremental is walked after each one it could be built on. */
  ghost predicate BasesComeFirst(files: set<StreamFile>) {
    forall f, g :: f in files && g in files && IsIncremental(f) && IsIncremental(g) && Link(f, g) ==> Before(g, f)
  }

  /** So where bases come first the kept incrementals satisfy the rule ... */
  lemma KeptIsFixpoint(files: set<StreamFile>, kept: set<StreamFile>)
    requires BasesComeFirst(files)
    ensures Fixpoint(files, kept, KeptIncrementals(files, kept))
  {
    FixpointIff(files, kept);
    forall f, g | f in files && IsIncremental(f) && KeptIncremental(files, kept, g) && Link(f, g)
      ensures BaseInTime(files, kept, f)
    {
      KeptIsBased(files, kept, g);
    }
  }

  /** An incremental that is not kept although a kept stream is its base. */
  ghost predicate Stranded(files: set<StreamFile>, kept: set<StreamFile>, d: Decision, f: StreamFile) {
    f in files && IsIncremental(f) && f.filename !in d.keep && exists g :: Kept(files, kept, g) && Link(f, g)
  }

  /** In terms of a run's lists: no incremental with a kept base is orphaned or removed, under the same condition. */
  lemma NoneStrandedIff(files: set<StreamFile>, rules: seq<Rule>, del: bool, kept: set<StreamFile>, d: Decision)
    requires Decides(files, rules, del, kept, d)
    ensures (forall f :: !Stranded(files, kept, d, f)) <==> BasesInTime(files, kept)
  {
    if BasesInTime(files, kept) {
      forall f ensures !Stranded(files, kept, d, f) {
        if f in files { assert DecidesFile(files, del, kept, d, f); }
        if Stranded(files, kept, d, f) {
          var g :| Kept(files, kept, g) && Link(f, g);
          if g in kept { assert OnKeptFull(kept, f); }
          BasedIsKept(files, kept, f);
        }
      }
    } else {
      var f, g :| f in files && IsIncremental(f) && KeptIncremental(files, kept, g) && Link(f, g) &&
        !(OnKeptFull(kept, f) || BaseInTime(files, kept, f));
      assert DecidesFile(files, del, kept, d, f);
      assert f !in kept;
      if KeptIncremental(files, kept, f) { KeptIsBased(files, kept, f); }
      assert Stranded(files, kept, d, f);
    }
  }

  lemma ExtendChain(files: set<StreamFile>, kept: set<StreamFile>, f: StreamFile, g: StreamFile)
    requires f in files && IsIncremental(f) && Link(f, g) && Before(g, f) && KeptIncremental(files, kept, g)
    ensures KeptIncremental(files, kept, f)
  {
    var p :| |p| > 0 && p[0] == g && Chain(files, kept, p) && OldestLast(p);
    var q := [f] + p;
    forall t | 0 <= t < |q| - 1 ensures Link(q[t], q[t + 1]) && Before(q[t + 1], q[t]) {
      if t > 0 { assert q[t] == p[t - 1] && q[t + 1] == p[t]; }
    }
    assert q[|q| - 1] == p[|p| - 1];
    assert Chain(files, kept, q) && OldestLast(q) && q[0] == f;
  }

  /** ... and are contained in every set that does: the least fixpoint, reached in one pass. */
  lemma KeptIsLeast(files: set<StreamFile>, kept: set<StreamFile>, incs: set<StreamFile>)
    requires Fixpoint(files, kept, incs)
    ensures KeptIncrementals(files, kept) <= incs
  {
    forall f | f in KeptIncrementals(files, kept) ensures f in incs {
      var p :| |p| > 0 && p[0] == f && Chain(files, kept, p) && OldestLast(p);
      ChainWithin(files, kept, incs, p, 0);
    }
  }

  lemma {:induction false} ChainWithin(
    files: set<StreamFile>, kept: set<StreamFile>, incs: set<StreamFile>, p: seq<StreamFile>, t: nat)
    requires Fixpoint(files, kept, incs) && Chain(files, kept, p) && t < |p|
    ensures p[t] in incs
    decreases |p| - t
  {
    if t < |p| - 1 {
      ChainWithin(files, kept, incs, p, t + 1);
      assert Link(p[t], p[t + 1]);
    }
    assert Based(kept, incs, p[t]);
  }

  /** A witness: one pass misses an incremental dated before the one it is built on. */
  lemma NewerBaseIsMissed(full: StreamFile, a: StreamFile, b: StreamFile)
    requires IsFull(full) && IsIncremental(a) && IsIncremental(b) && full.jail == a.jail == b.jail
    requires a.base == full.suffix && b.base == a.suffix && b.base != full.suffix
    requires b.epoch < a.epoch && a.base != b.suffix && b.base != b.suffix && a.base != a.suffix
    ensures var files := {full, a, b};
      && Fixpoint(files, {full}, {a, b})
      && KeptIncremental(files, {full}, a) && !KeptIncremental(files, {full}, b)
  {
    var files := {full, a, b};
    assert Link(b, a);
    assert OnKeptFull({full}, a);
    assert Chain(files, {full}, [a]) && OldestLast([a]) && [a][0] == a;
    forall p | |p| > 0 && p[0] == b && Chain(files, {full}, p)
      ensures !OldestLast(p)
    {
      assert !OnKeptFull({full}, b);
      assert Link(p[0], p[1]);
      assert p[1] == a;
    }
  }

  // ---------- Each jail on its own ----------

  function Part(files: set<StreamFile>, jail: string): set<StreamFile> {
    set f | f in files && f.jail == jail
  }

  lemma PartEpochs(files: set<StreamFile>, jail: string)
    ensures FullEpochs(Part(files, jail), jail) == FullEpochs(files, jail)
  {
    forall e | e in FullEpochs(files, jail) ensures e in FullEpochs(Part(files, jail), jail) {
      var f :| f in files && f.jail == jail && IsFull(f) && f.epoch == e;
      assert f in Part(files, jail);
    }
  }

  lemma KeptInPart(files: set<StreamFile>, rules: seq<Rule>, kept: set<StreamFile>, f: StreamFile)
    requires f in kept && KeptFulls(Part(files, f.jail), rules, Part(kept, f.jail))
    ensures f in files && IsFull(f) && ChosenBySome(FullEpochs(files, f.jail), rules, f.epoch)
    ensures forall g :: g in kept && f.jail == g.jail && f.epoch == g.epoch ==> f == g
  {
    PartEpochs(files, f.jail);
    assert f in Part(kept, f.jail);
    forall g | g in kept && f.jail == g.jail && f.epoch == g.epoch ensures f == g {
      assert g in Part(kept, f.jail);
    }
  }

  lemma ChosenInPart(files: set<StreamFile>, rules: seq<Rule>, kept: set<StreamFile>, f: StreamFile)
    requires f in files && IsFull(f) && ChosenBySome(FullEpochs(files, f.jail), rules, f.epoch)
    requires KeptFulls(Part(files, f.jail), rules, Part(kept, f.jail))
    ensures KeepsEpoch(kept, f)
  {
    PartEpochs(files, f.jail);
    assert f in Part(files, f.jail);
    assert KeepsEpoch(Part(kept, f.jail), f);
  }

  /** The policy applied to the directory is the policy applied to each jail. */
  lemma FullsPerJail(files: set<StreamFile>, rules: seq<Rule>, kept: set<StreamFile>)
    requires forall f :: f in kept || f in files ==> KeptFulls(Part(files, f.jail), rules, Part(kept, f.jail))
    ensures KeptFulls(files, rules, kept)
  {
    forall f | f in kept
      ensures f in files && IsFull(f) && ChosenBySome(FullEpochs(files, f.jail), rules, f.epoch)
      ensures forall g :: g in kept && f.jail == g.jail && f.epoch == g.epoch ==> f == g
    {
      KeptInPart(files, rules, kept, f);
    }
    forall f | f in files && IsFull(f) && ChosenBySome(FullEpochs(files, f.jail), rules, f.epoch)
      ensures KeepsEpoch(kept, f)
    {
      ChosenInPart(files, rules, kept, f);
    }
  }

  lemma {:induction false} ChainStaysInJail(files: set<StreamFile>, kept: set<StreamFile>, p: seq<StreamFile>, t: nat)
    requires Chain(files, kept, p) && t < |p|
    ensures p[t].jail == p[0].jail
  {
    if t > 0 {
      ChainStaysInJail(files, kept, p, t - 1);
      assert Link(p[t - 1], p[t - 1 + 1]);
    }
  }

  lemma ChainInPart(files: set<StreamFile>, kept: set<StreamFile>, p: seq<StreamFile>)
    requires Chain(files, kept, p)
    ensures Chain(Part(files, p[0].jail), Part(kept, p[0].jail), p)
  {
    forall t | 0 <= t < |p| ensures p[t] in Part(files, p[0].jail) && IsIncremental(p[t]) {
      ChainStaysInJail(files, kept, p, t);
    }
    ChainStaysInJail(files, kept, p, |p| - 1);
    var g :| g in kept && g.jail == p[|p| - 1].jail && g.suffix == p[|p| - 1].base;
    assert g in Part(kept, p[0].jail);
  }

  /** A stream is kept because of its own jail's streams, and of no other's. */
  lemma KeptPerJail(files: set<StreamFile>, kept: set<StreamFile>, f: StreamFile)
    ensures Kept(files, kept, f) <==> Kept(Part(files, f.jail), Part(kept, f.jail), f)
  {
    var files1, kept1 := Part(files, f.jail), Part(kept, f.jail);
    if KeptIncremental(files, kept, f) {
      var p := KeptHasOrderedChain(files, kept, f);
      ChainInPart(files, kept, p);
      assert p[0] == f && Chain(files1, kept1, p) && OldestLast(p);
    }
    if KeptIncremental(files1, kept1, f) {
      var p := KeptHasOrderedChain(files1, kept1, f);
      var g :| g in kept1 && g.jail == p[|p| - 1].jail && g.suffix == p[|p| - 1].base;
      assert g in kept;
      assert p[0] == f && Chain(files, kept, p);
    }
  }

  // ---------- Running again ----------

  function Survivors(files: set<StreamFile>, d: Decision): set<StreamFile> {
    set f | f in files && (f.filename in d.keep || f.filename in d.orphans)
  }

  /** The fulls one run leaves are all kept by the next. */
  lemma FullsStay(
    files: set<StreamFile>, rules: seq<Rule>, del: bool, kept: set<StreamFile>, d: Decision, kept2: set<StreamFile>)
    requires Decides(files, rules, del, kept, d)
    requires KeptFulls(Survivors(files, d), rules, kept2)
    ensures kept2 == kept
  {
    var left := Survivors(files, d);
    assert forall f :: f in left && IsFull(f) ==> f in kept by {
      forall f | f in left && IsFull(f) ensures f in kept {
        FullSurvivorIsKept(files, rules, del, kept, d, f);
      }
    }
    forall f | f in kept ensures f in kept2 {
      assert f in left;
      var before, now := FullEpochs(files, f.jail), FullEpochs(left, f.jail);
      assert now <= before;
      var t :| 0 <= t < |rules| && Chosen(before, rules[t], f.epoch);
      ChosenFromFewer(before, now, rules[t], f.epoch);
      assert KeepsEpoch(kept2, f);
      var g :| g in kept2 && g.jail == f.jail && g.epoch == f.epoch;
      assert g in kept;
    }
  }

  lemma ChosenFromFewer(before: set<nat>, now: set<nat>, r: Rule, e: nat)
    requires now <= before && Chosen(before, r, e)
    ensures Chosen(now, r, e)
  {
    var a, b := NewerBuckets(now, r, e), NewerBuckets(before, r, e);
    assert a <= b;
    SubsetSize(a, b);
  }

  lemma {:induction false} SubsetSize<T>(a: set<T>, b: set<T>)
    requires a <= b
    ensures |a| <= |b|
  {
    assert b == a + (b - a);
    assert |b| == |a| + |b - a|;
  }

  /** Deciding again on what is left, with the same rules and flag, removes nothing, whatever the buckets and ties. */
  lemma SecondRunRemovesNothing(files: set<StreamFile>, rules: seq<Rule>, del: bool,
                                kept: set<StreamFile>, d: Decision, kept2: set<StreamFile>, d2: Decision)
    requires Decides(files, rules, del, kept, d)
    requires Decides(Survivors(files, d), rules, del, kept2, d2)
    ensures forall f :: f in Survivors(files, d) ==> f.filename !in d2.remove
  {
    var left := Survivors(files, d);
    FullsStay(files, rules, del, kept, d, kept2);
    forall f | f in left ensures f.filename !in d2.remove {
      assert DecidesFile(files, del, kept, d, f) && DecidesFile(left, del, kept2, d2, f);
      if IsIncremental(f) && del {
        assert Kept(files, kept, f) && f !in kept;
        var p := KeptHasOrderedChain(files, kept, f);
        forall t | 0 <= t < |p| ensures p[t] in left {
          ChainIsKept(files, kept, p, t);
        }
        assert Chain(left, kept, p) && OldestLast(p) && p[0] == f;
        assert Kept(left, kept2, f);
      } else if IsFull(f) {
        assert f in kept by { FullSurvivorIsKept(files, rules, del, kept, d, f); }
      }
    }
  }

  lemma KeptHasOrderedChain(files: set<StreamFile>, kept: set<StreamFile>, f: StreamFile) returns (p: seq<StreamFile>)
    requires KeptIncremental(files, kept, f)
    ensures Chain(files, kept, p) && OldestLast(p) && p[0] == f
  {
    p :| |p| > 0 && p[0] == f && Chain(files, kept, p) && OldestLast(p);
  }

  lemma FullSurvivorIsKept(
    files: set<StreamFile>, rules: seq<Rule>, del: bool, kept: set<StreamFile>, d: Decision, f: StreamFile)
    requires Decides(files, rules, del, kept, d) && f in Survivors(files, d) && IsFull(f)
    ensures f in kept
  {
    if f !in kept {
      var p := KeptHasOrderedChain(files, kept, f);
    }
  }
}
