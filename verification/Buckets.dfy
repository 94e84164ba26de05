/** What the four bucket functions of lib/backup_prune_pure.cpp mean on the calendar, and so what a policy keeps. */
module Buckets {
  import opened StreamName
  import opened Calendar
  import opened Retention

  // ---------- Calendar months ----------

  predicate IsMonth(y: int, m: int) { 1970 <= y && 1 <= m <= 12 }

  /** The first second of a month, by counting. */
  function MonthStart(y: int, m: int): int
    requires IsMonth(y, m)
  {
    CountedEpoch(Civil(y, m, 1, 0, 0, 0))
  }

  /** The first second of the month after. */
  function MonthEnd(y: int, m: int): int
    requires IsMonth(y, m)
  {
    if m == 12 then MonthStart(y + 1, 1) else MonthStart(y, m + 1)
  }

  predicate InMonth(e: int, y: int, m: int) { IsMonth(y, m) && MonthStart(y, m) <= e < MonthEnd(y, m) }

  lemma OwnMonth(e: nat)
    ensures var c := Gmtime(e); InMonth(e, c.year, c.month)
  {
    MonthOfDate(Gmtime(e));
  }

  lemma MonthOfDate(c: Civil)
    requires IsDate(c)
    ensures MonthStart(c.year, c.month) <= CountedEpoch(c) < MonthEnd(c.year, c.month)
  {
    var before := DaysBeforeYear(c.year) + DaysBeforeMonth(c.year, c.month);
    NextMonthStart(c.year, c.month);
    WithinDays(before, c.day - 1, MonthLength(c.year, c.month), c.hour * 3600 + c.minute * 60 + c.second);
  }

  lemma WithinDays(before: nat, day: nat, length: nat, seconds: nat)
    requires day < length && seconds < 86400
    ensures before * 86400 <= (before + day) * 86400 + seconds < (before + length) * 86400
  {
  }

  lemma NextMonthStart(y: int, m: int)
    requires IsMonth(y, m)
    ensures MonthEnd(y, m) == (DaysBeforeYear(y) + DaysBeforeMonth(y, m) + MonthLength(y, m)) * 86400
  {
    if m == 12 {
      MonthsFillYear(y);
      assert DaysBeforeMonth(y, 13) == DaysBeforeMonth(y, 12) + MonthLength(y, 12);
    }
  }

  lemma LaterMonth(y: int, m: int, y2: int, m2: int)
    requires IsMonth(y, m) && IsMonth(y2, m2) && (y < y2 || (y == y2 && m < m2))
    ensures MonthEnd(y, m) <= MonthStart(y2, m2)
  {
    var next := if m == 12 then Civil(y + 1, 1, 1, 0, 0, 0) else Civil(y, m + 1, 1, 0, 0, 0);
    var first := Civil(y2, m2, 1, 0, 0, 0);
    if next != first { EarlierCountsLess(next, first); }
  }

  /** A moment lies in the month its date names, and in no other. */
  lemma InMonthIff(e: nat, y: int, m: int)
    ensures InMonth(e, y, m) <==> Gmtime(e).year == y && Gmtime(e).month == m
  {
    var c := Gmtime(e);
    OwnMonth(e);
    if InMonth(e, y, m) {
      if c.year < y || (c.year == y && c.month < m) {
        LaterMonth(c.year, c.month, y, m);
      } else if y < c.year || (y == c.year && m < c.month) {
        LaterMonth(y, m, c.year, c.month);
      }
    }
  }

  ghost predicate SameMonth(a: nat, b: nat) { exists y, m :: InMonth(a, y, m) && InMonth(b, y, m) }

  /** Two moments share the month bucket exactly when some calendar month has both. */
  lemma MonthBucketIff(a: nat, b: nat)
    ensures MonthBucket(a) == MonthBucket(b) <==> SameMonth(a, b)
  {
    var c, d := Gmtime(a), Gmtime(b);
    if c.year == d.year && c.month == d.month {
      InMonthIff(a, c.year, c.month);
      InMonthIff(b, c.year, c.month);
    }
    if SameMonth(a, b) {
      var y, m :| InMonth(a, y, m) && InMonth(b, y, m);
      InMonthIff(a, y, m);
      InMonthIff(b, y, m);
    }
  }

  // ---------- Hours, days, weeks ----------

  ghost predicate SameSpan(a: nat, b: nat, length: nat) {
    exists k: nat :: InSpan(a, k, length) && InSpan(b, k, length)
  }

  predicate InSpan(e: nat, k: nat, length: nat) { length * k <= e < length * (k + 1) }

  lemma SpanIff(a: nat, b: nat, length: nat)
    requires length == 3600 || length == 86400 || length == 604800
    ensures SameSpan(a, b, length) <==> a / length == b / length
  {
    if a / length == b / length {
      InOwnSpan(a, a / length, length);
      InOwnSpan(b, a / length, length);
    }
    if SameSpan(a, b, length) {
      var k: nat :| InSpan(a, k, length) && InSpan(b, k, length);
      InOwnSpan(a, k, length);
      InOwnSpan(b, k, length);
    }
  }

  lemma InOwnSpan(e: nat, k: nat, length: nat)
    requires length == 3600 || length == 86400 || length == 604800
    ensures InSpan(e, k, length) <==> e / length == k
  {
  }

  /** Hours, days and weeks are the spans of their length counted from the epoch. */
  lemma SpanBucketsIff(a: nat, b: nat)
    ensures HourBucket(a) == HourBucket(b) <==> SameSpan(a, b, 3600)
    ensures DayBucket(a) == DayBucket(b) <==> SameSpan(a, b, 86400)
    ensures WeekBucket(a) == WeekBucket(b) <==> SameSpan(a, b, 604800)
  {
    SpanIff(a, b, 3600);
    SpanIff(a, b, 86400);
    SpanIff(a, b, 604800);
  }

  /** Each bucket is a run of time. */
  lemma BucketsGrow(a: nat, b: nat)
    requires a <= b
    ensures HourBucket(a) <= HourBucket(b) && DayBucket(a) <= DayBucket(b)
    ensures WeekBucket(a) <= WeekBucket(b) && MonthBucket(a) <= MonthBucket(b)
  {
    SpansGrow(a, b);
    MonthsGoOn(a, b);
  }

  lemma SpansGrow(a: nat, b: nat)
    requires a <= b
    ensures a / 3600 <= b / 3600 && a / 86400 <= b / 86400 && a / 604800 <= b / 604800
  {
  }

  lemma MonthsGoOn(a: nat, b: nat)
    requires a <= b
    ensures MonthBucket(a) <= MonthBucket(b)
  {
    var c, d := Gmtime(a), Gmtime(b);
    if d.year < c.year || (d.year == c.year && d.month < c.month) { EarlierCountsLess(d, c); }
  }

  // ---------- The date each period begins with ----------

  function HourOf(e: nat): Civil { Gmtime(e).(minute := 0, second := 0) }
  function DayOf(e: nat): Civil { Gmtime(e).(hour := 0, minute := 0, second := 0) }
  function MonthOf(e: nat): Civil { Gmtime(e).(day := 1, hour := 0, minute := 0, second := 0) }

  /** The last Thursday midnight: 1 January 1970 was a Thursday. */
  function WeekOf(e: nat): Civil { Gmtime(e - e % 604800) }

  function DayNumber(c: Civil): nat
    requires IsDate(c)
  {
    DaysBeforeYear(c.year) + DaysBeforeMonth(c.year, c.month) + c.day - 1
  }

  lemma DayOfNumber(a: Civil, b: Civil)
    requires IsDate(a) && IsDate(b) && DayNumber(a) == DayNumber(b)
    ensures a.year == b.year && a.month == b.month && a.day == b.day
  {
    DateIsUnique(Civil(a.year, a.month, a.day, 0, 0, 0), Civil(b.year, b.month, b.day, 0, 0, 0));
  }

  lemma PartsOfMoment(e: nat)
    ensures var c := Gmtime(e); e / 86400 == DayNumber(c) && e / 3600 == DayNumber(c) * 24 + c.hour
  {
    var c := Gmtime(e);
    var n := DayNumber(c);
    assert e == n * 86400 + c.hour * 3600 + c.minute * 60 + c.second;
  }

  /** The hour and day buckets are the hours and days of the calendar. */
  lemma HourAndDayLabels(a: nat, b: nat)
    ensures HourBucket(a) == HourBucket(b) <==> HourOf(a) == HourOf(b)
    ensures DayBucket(a) == DayBucket(b) <==> DayOf(a) == DayOf(b)
  {
    PartsOfMoment(a);
    PartsOfMoment(b);
    if DayNumber(Gmtime(a)) == DayNumber(Gmtime(b)) { DayOfNumber(Gmtime(a), Gmtime(b)); }
  }

  lemma MonthLabel(a: nat, b: nat)
    ensures MonthBucket(a) == MonthBucket(b) <==> MonthOf(a) == MonthOf(b)
  {
    var c := Gmtime(a);
    MonthBucketIff(a, b);
    InMonthIff(a, c.year, c.month);
    InMonthIff(b, c.year, c.month);
    if SameMonth(a, b) {
      var y, m :| InMonth(a, y, m) && InMonth(b, y, m);
      InMonthIff(a, y, m);
      InMonthIff(b, y, m);
    }
  }

  lemma WeekLabel(a: nat, b: nat)
    ensures WeekBucket(a) == WeekBucket(b) <==> WeekOf(a) == WeekOf(b)
  {
    var x, y := a - a % 604800, b - b % 604800;
    WeekStarts(a);
    WeekStarts(b);
    assert x == y <==> WeekBucket(a) == WeekBucket(b);
    SameDate(x, y);
  }

  lemma WeekStarts(a: nat)
    ensures a - a % 604800 == 604800 * WeekBucket(a)
  {
    assert a == 604800 * (a / 604800) + a % 604800;
  }

  lemma SameDate(x: nat, y: nat)
    ensures Gmtime(x) == Gmtime(y) <==> x == y
  {
    assert CountedEpoch(Gmtime(x)) == x && CountedEpoch(Gmtime(y)) == y;
  }

  // ---------- What a policy keeps ----------

  /** No newer full in the same period, and fewer than `n` periods with newer fulls. */
  predicate NewestPer(epochs: set<nat>, n: nat, start: nat -> Civil, e: nat) {
    && start(e) !in NewerLabels(epochs, start, e)
    && |NewerLabels(epochs, start, e)| < n
  }

  function NewerLabels(epochs: set<nat>, start: nat -> Civil, e: nat): set<Civil> {
    set x | x in epochs && e < x :: start(x)
  }

  lemma {:induction false} SameCount(xs: set<nat>, f: nat -> int, g: nat -> Civil)
    requires forall a, b :: a in xs && b in xs ==> (f(a) == f(b) <==> g(a) == g(b))
    ensures |set x | x in xs :: f(x)| == |set x | x in xs :: g(x)|
    decreases |xs|
  {
    var fs, gs := (set x | x in xs :: f(x)), (set x | x in xs :: g(x));
    if xs != {} {
      var a :| a in xs;
      var rest := xs - {a};
      SameCount(rest, f, g);
      var f1, g1 := (set x | x in rest :: f(x)), (set x | x in rest :: g(x));
      assert fs == f1 + {f(a)};
      assert gs == g1 + {g(a)};
      SameNews(rest, f, g, a);
      OneMore(f1, g1, f(a), g(a));
    } else {
      assert fs == {} && gs == {};
    }
  }

  lemma SameNews(rest: set<nat>, f: nat -> int, g: nat -> Civil, a: nat)
    requires forall b :: b in rest ==> (f(a) == f(b) <==> g(a) == g(b))
    ensures f(a) in (set x | x in rest :: f(x)) <==> g(a) in (set x | x in rest :: g(x))
  {
    if b :| b in rest && f(b) == f(a) { assert g(b) == g(a); }
    if b :| b in rest && g(b) == g(a) { assert f(b) == f(a); }
  }

  lemma OneMore<S, T>(xs: set<S>, ys: set<T>, x: S, y: T)
    requires |xs| == |ys| && (x in xs <==> y in ys)
    ensures |xs + {x}| == |ys + {y}|
  {
    if x in xs { assert xs + {x} == xs && ys + {y} == ys; }
  }

  lemma ChosenIsNewest(epochs: set<nat>, r: Rule, start: nat -> Civil, e: nat)
    requires forall a, b :: r.bucket(a) == r.bucket(b) <==> start(a) == start(b)
    ensures Chosen(epochs, r, e) <==> NewestPer(epochs, r.n, start, e)
  {
    var newer := set x | x in epochs && e < x;
    SameCount(newer, r.bucket, start);
    assert NewerBuckets(epochs, r, e) == set x | x in newer :: r.bucket(x);
    assert NewerLabels(epochs, start, e) == set x | x in newer :: start(x);
  }

  /** Newest of one of the N newest hours, days, weeks or months, each with its own N. */
  predicate Newest(epochs: set<nat>, p: Policy, e: nat) {
    || NewestPer(epochs, p.hourly, HourOf, e) || NewestPer(epochs, p.daily, DayOf, e)
    || NewestPer(epochs, p.weekly, WeekOf, e) || NewestPer(epochs, p.monthly, MonthOf, e)
  }

  lemma ChosenByPolicy(epochs: set<nat>, p: Policy, e: nat)
    ensures ChosenBySome(epochs, Rules(p), e) <==> Newest(epochs, p, e)
  {
    var rules := Rules(p);
    forall a: nat, b: nat ensures HourBucket(a) == HourBucket(b) <==> HourOf(a) == HourOf(b) { HourAndDayLabels(a, b); }
    forall a: nat, b: nat ensures DayBucket(a) == DayBucket(b) <==> DayOf(a) == DayOf(b) { HourAndDayLabels(a, b); }
    forall a: nat, b: nat ensures WeekBucket(a) == WeekBucket(b) <==> WeekOf(a) == WeekOf(b) { WeekLabel(a, b); }
    forall a: nat, b: nat ensures MonthBucket(a) == MonthBucket(b) <==> MonthOf(a) == MonthOf(b) { MonthLabel(a, b); }
    ChosenIsNewest(epochs, rules[0], HourOf, e);
    ChosenIsNewest(epochs, rules[1], DayOf, e);
    ChosenIsNewest(epochs, rules[2], WeekOf, e);
    ChosenIsNewest(epochs, rules[3], MonthOf, e);
  }

  /** The keep list names a full of the jail and moment of `f`. */
  ghost predicate KeepsMoment(files: set<StreamFile>, d: Decision, f: StreamFile) {
    exists g :: g in files && SameMoment(f, g) && g.filename in d.keep
  }

  /** A run keeps exactly the newest fulls of the periods its policy counts, jail by jail. */
  ghost predicate KeepsByCalendar(files: set<StreamFile>, p: Policy, d: Decision) {
    forall f :: f in files && IsFull(f) ==>
      (KeepsMoment(files, d, f) <==> Newest(FullEpochs(files, f.jail), p, f.epoch))
  }

  lemma PolicyKeeps(files: set<StreamFile>, p: Policy, del: bool, kept: set<StreamFile>, d: Decision)
    requires Decides(files, Rules(p), del, kept, d)
    ensures KeepsByCalendar(files, p, d)
  {
    forall f | f in files && IsFull(f)
      ensures KeepsMoment(files, d, f) <==> Newest(FullEpochs(files, f.jail), p, f.epoch)
    {
      ChosenByPolicy(FullEpochs(files, f.jail), p, f.epoch);
      if KeepsMoment(files, d, f) {
        var g :| g in files && SameMoment(f, g) && g.filename in d.keep;
        assert DecidesFile(files, del, kept, d, g);
        FullIsKeptAsFull(files, kept, g);
      }
      if ChosenBySome(FullEpochs(files, f.jail), Rules(p), f.epoch) {
        assert KeepsEpoch(kept, f);
        var g :| g in kept && g.jail == f.jail && g.epoch == f.epoch;
        assert DecidesFile(files, del, kept, d, g);
        assert SameMoment(f, g);
      }
    }
  }

  lemma FullIsKeptAsFull(files: set<StreamFile>, kept: set<StreamFile>, g: StreamFile)
    requires IsFull(g) && Kept(files, kept, g)
    ensures g in kept
  {
    if g !in kept { KeptIsBased(files, kept, g); }
  }
}
