/**
 Snapshot timestamps: the closed-form date conversion and the suffix parser of
 lib/backup_prune_pure.cpp, the suffix printer of lib/backup_pure.cpp, and the Gregorian
 calendar of POSIX.1-2017 XBD section 4.16 they have to agree with.
 */
module Calendar {
  import opened Text
  import opened Arithmetic

  /** A broken-down UTC time, the fields of `struct tm` that are used. */
  datatype Civil = Civil(year: int, month: int, day: int, hour: int, minute: int, second: int)

  // ---------- The calendar, counted year by year and month by month ----------

  predicate IsLeap(y: int) { y % 4 == 0 && (y % 100 != 0 || y % 400 == 0) }

  function YearLength(y: int): nat { if IsLeap(y) then 366 else 365 }

  function MonthLength(y: int, m: int): nat
    requires 1 <= m <= 12
  {
    if m == 2 then (if IsLeap(y) then 29 else 28)
    else if m in {4, 6, 9, 11} then 30
    else 31
  }

  function DaysBeforeYear(y: int): nat
    requires 1970 <= y
  {
    if y == 1970 then 0 else DaysBeforeYear(y - 1) + YearLength(y - 1)
  }

  function DaysBeforeMonth(y: int, m: int): nat
    requires 1 <= m <= 13
  {
    if m == 1 then 0 else DaysBeforeMonth(y, m - 1) + MonthLength(y, m - 1)
  }

  /** Seconds since 1970-01-01T00:00:00Z, by counting. */
  function CountedEpoch(c: Civil): int
    requires 1970 <= c.year && 1 <= c.month <= 12
  {
    (DaysBeforeYear(c.year) + DaysBeforeMonth(c.year, c.month) + c.day - 1) * 86400
      + c.hour * 3600 + c.minute * 60 + c.second
  }

  /** A date and time that exists: POSIX time has no leap seconds. */
  predicate IsDate(c: Civil) {
    && 1970 <= c.year && 1 <= c.month <= 12 && 1 <= c.day <= MonthLength(c.year, c.month)
    && 0 <= c.hour < 24 && 0 <= c.minute < 60 && 0 <= c.second < 60
  }

  // gmtime_r: walk the years, then the months.

  function FindYear(day: nat, y: int): (r: (int, nat))
    requires 1970 <= y
    ensures y <= r.0 && r.1 < YearLength(r.0)
    ensures DaysBeforeYear(r.0) + r.1 == DaysBeforeYear(y) + day
  {
    if day < YearLength(y) then (y, day) else FindYear(day - YearLength(y), y + 1)
  }

  function FindMonth(day: nat, y: int, m: int): (r: (int, nat))
    requires 1 <= m <= 12 && DaysBeforeMonth(y, m) + day < DaysBeforeMonth(y, 13)
    ensures m <= r.0 <= 12 && r.1 < MonthLength(y, r.0)
    ensures DaysBeforeMonth(y, r.0) + r.1 == DaysBeforeMonth(y, m) + day
    decreases 12 - m
  {
    if day < MonthLength(y, m) || m == 12 then (m, day) else FindMonth(day - MonthLength(y, m), y, m + 1)
  }

  lemma MonthsFillYear(y: int)
    ensures DaysBeforeMonth(y, 3) == 59 + (if IsLeap(y) then 1 else 0)
    ensures DaysBeforeMonth(y, 13) == YearLength(y)
  {
    var l := if IsLeap(y) then 1 else 0;
    assert DaysBeforeMonth(y, 1) == 0;
    assert DaysBeforeMonth(y, 3) == 59 + l;
    assert DaysBeforeMonth(y, 5) == 120 + l;
    assert DaysBeforeMonth(y, 7) == 181 + l;
    assert DaysBeforeMonth(y, 9) == 243 + l;
    assert DaysBeforeMonth(y, 11) == 304 + l;
  }

  /** gmtime_r: the date of a moment; it counts back to that moment. */
  function Gmtime(e: nat): (c: Civil)
    ensures IsDate(c) && CountedEpoch(c) == e
  {
    var (y, yday) := FindYear(e / 86400, 1970);
    MonthsFillYear(y);
    var (m, mday) := FindMonth(yday, y, 1);
    ClockParts(e);
    Civil(y, m, mday + 1, e % 86400 / 3600, e % 3600 / 60, e % 60)
  }

  // ---------- The closed form ----------

  /** C integer division. */
  function TruncDiv(a: int, b: int): int
    requires 0 < b
  {
    if a >= 0 then a / b else -((-a) / b)
  }

  /** The day count in civilToEpoch. */
  function CivilDays(c: Civil): int {
    var y := c.year - (if c.month <= 2 then 1 else 0);
    var era := TruncDiv(if y >= 0 then y else y - 399, 400);
    var yoe := y - era * 400;
    var doy := TruncDiv(153 * (c.month + (if c.month > 2 then -3 else 9)) + 2, 5) + c.day - 1;
    var doe := yoe * 365 + TruncDiv(yoe, 4) - TruncDiv(yoe, 100) + doy;
    era * 146097 + doe - 719468
  }

  /** civilToEpoch. */
  function CivilToEpoch(c: Civil): int { CivilDays(c) * 86400 + c.hour * 3600 + c.minute * 60 + c.second }

  /** Days of the proleptic calendar up to the end of year `y`. */
  function YearSum(y: nat): int { 365 * y + y / 4 - y / 100 + y / 400 }

  lemma YearSumStep(y: nat)
    requires 1 <= y
    ensures YearSum(y) == YearSum(y - 1) + YearLength(y)
  {
    CenturyYears(y);
    CenturyIsFourth(y);
  }

  lemma {:induction false} YearSumCounts(y: nat)
    requires 1970 <= y
    ensures DaysBeforeYear(y) == YearSum(y - 1) - 719162
  {
    if y > 1970 {
      YearSumCounts(y - 1);
      YearSumStep(y - 1);
    }
  }

  lemma EraSplit(y: nat)
    ensures var era, yoe := y / 400, y % 400;
      era * 146097 + yoe * 365 + yoe / 4 - yoe / 100 == YearSum(y)
  {
    EraQuotients(y);
  }

  /** Day of the year counted from 1 March, in closed form. */
  lemma MarchDays(y: int, m: int)
    requires 1 <= m <= 12
    ensures m > 2 ==> (153 * (m - 3) + 2) / 5 == DaysBeforeMonth(y, m) - DaysBeforeMonth(y, 3)
    ensures m <= 2 ==> (153 * (m + 9) + 2) / 5 == 306 + DaysBeforeMonth(y, m)
  {
    MonthsFillYear(y);
    assert DaysBeforeMonth(y, 5) == DaysBeforeMonth(y, 3) + 61;
    assert DaysBeforeMonth(y, 7) == DaysBeforeMonth(y, 5) + 61;
    assert DaysBeforeMonth(y, 9) == DaysBeforeMonth(y, 7) + 62;
    assert DaysBeforeMonth(y, 11) == DaysBeforeMonth(y, 9) + 61;
  }

  lemma ClosedFormDays(c: Civil)
    requires 1970 <= c.year && 1 <= c.month <= 12
    ensures CivilDays(c) == DaysBeforeYear(c.year) + DaysBeforeMonth(c.year, c.month) + c.day - 1
  {
    var y := c.year - (if c.month <= 2 then 1 else 0);
    var m := c.month + (if c.month > 2 then -3 else 9);
    assert CivilDays(c) == YearSum(y) + (153 * m + 2) / 5 + c.day - 1 - 719468 by { EraSplit(y); }
    YearSumCounts(c.year);
    YearSumStep(c.year);
    MarchDays(c.year, c.month);
    MonthsFillYear(c.year);
  }

  /**
   The closed form counts days: for every month of every year from 1970 on and whatever day
   and time fields (the parser below also feeds it days and seconds that do not exist).
   */
  lemma ClosedFormCounts(c: Civil)
    requires 1970 <= c.year && 1 <= c.month <= 12
    ensures CivilToEpoch(c) == CountedEpoch(c)
  {
    ClosedFormDays(c);
  }

  // ---------- Suffixes ----------

  const PREFIX := "backup-"

  predicate NonNegative(c: Civil) {
    0 <= c.year && 0 <= c.month && 0 <= c.day && 0 <= c.hour && 0 <= c.minute && 0 <= c.second
  }

  // "%m-%dT%H:%M:%SZ", from the right.

  function FromSecond(c: Civil): string requires NonNegative(c) { Pad(c.second, 2) + "Z" }
  function FromMinute(c: Civil): string requires NonNegative(c) { Pad(c.minute, 2) + ":" + FromSecond(c) }
  function FromHour(c: Civil): string requires NonNegative(c) { Pad(c.hour, 2) + ":" + FromMinute(c) }
  function FromDay(c: Civil): string requires NonNegative(c) { Pad(c.day, 2) + "T" + FromHour(c) }
  function FromMonth(c: Civil): string requires NonNegative(c) { Pad(c.month, 2) + "-" + FromDay(c) }

  /** strftime with "%Y-%m-%dT%H:%M:%SZ". */
  function FormatTime(c: Civil): string
    requires IsDate(c)
  {
    Dec(c.year) + "-" + FromMonth(c)
  }

  /** snapshotSuffix. */
  function SnapshotSuffix(e: nat): string { PREFIX + FormatTime(Gmtime(e)) }

  const MAX_EPOCH := 253402300799 // 9999-12-31T23:59:59Z

  /** The punctuation and digit positions parseSuffixEpoch insists on. */
  predicate HasSuffixShape(s: string) {
    && |s| == 27 && s[..7] == PREFIX
    && s[11] == '-' && s[14] == '-' && s[17] == 'T' && s[20] == ':' && s[23] == ':' && s[26] == 'Z'
    && AllDigits(s[7..11]) && AllDigits(s[12..14]) && AllDigits(s[15..17])
    && AllDigits(s[18..20]) && AllDigits(s[21..23]) && AllDigits(s[24..26])
  }

  function SuffixFields(s: string): Civil
    requires HasSuffixShape(s)
  {
    Civil(Value(s[7..11]), Value(s[12..14]), Value(s[15..17]),
          Value(s[18..20]), Value(s[21..23]), Value(s[24..26]))
  }

  /** The bounds parseSuffixEpoch checks: looser than IsDate. */
  predicate FieldsInBounds(c: Civil) {
    && 1970 <= c.year <= 9999 && 1 <= c.month <= 12 && 1 <= c.day <= 31
    && c.hour <= 23 && c.minute <= 59 && c.second <= 60
  }

  /** parseSuffixEpoch: 0 stands for failure. */
  function ParseSuffixEpoch(s: string): (e: nat)
    ensures e > 0 ==> HasSuffixShape(s) && FieldsInBounds(SuffixFields(s))
  {
    if !HasSuffixShape(s) then 0
    else
      var c := SuffixFields(s);
      if !FieldsInBounds(c) then 0
      else
        var e := CivilToEpoch(c);
        if e <= 0 then 0 else e
  }

  /** The 27 characters a date within four-digit years prints to. */
  function Rendered(c: Civil): (s: string)
    requires NonNegative(c)
    ensures |s| == 27
  {
    PREFIX + (Pad(c.year, 4) + "-" + FromMonth(c))
  }

  lemma RenderedShape(c: Civil)
    requires NonNegative(c)
    ensures HasSuffixShape(Rendered(c))
    ensures var s := Rendered(c);
      && s[7..11] == Pad(c.year, 4) && s[12..14] == Pad(c.month, 2) && s[15..17] == Pad(c.day, 2)
      && s[18..20] == Pad(c.hour, 2) && s[21..23] == Pad(c.minute, 2) && s[24..26] == Pad(c.second, 2)
  {
    var s := Rendered(c);
    assert s[..7] == PREFIX;
    assert s[7..] == Pad(c.year, 4) + "-" + FromMonth(c);
    SplitField(s, 7, Pad(c.year, 4), '-', FromMonth(c));
    SplitField(s, 12, Pad(c.month, 2), '-', FromDay(c));
    SplitField(s, 15, Pad(c.day, 2), 'T', FromHour(c));
    SplitField(s, 18, Pad(c.hour, 2), ':', FromMinute(c));
    SplitField(s, 21, Pad(c.minute, 2), ':', FromSecond(c));
    SplitField(s, 24, Pad(c.second, 2), 'Z', "");
  }

  lemma SplitField(s: string, k: nat, field: string, sep: char, rest: string)
    requires k <= |s| && s[k..] == field + [sep] + rest
    ensures k + |field| < |s| && s[k..k + |field|] == field && s[k + |field|] == sep
    ensures s[k + |field| + 1..] == rest
  {
    var t := s[k..];
    assert t[..|field|] == field && t[|field|] == sep && t[|field| + 1..] == rest;
    assert s[k..k + |field|] == t[..|field|] && s[k + |field| + 1..] == t[|field| + 1..];
  }

  lemma Pow10Small()
    ensures Pow10(2) == 100 && Pow10(3) == 1000 && Pow10(4) == 10000
  {
    assert Pow10(1) == 10;
  }

  predicate Printable(c: Civil) {
    && 0 <= c.year < 10000 && 0 <= c.month < 100 && 0 <= c.day < 100
    && 0 <= c.hour < 100 && 0 <= c.minute < 100 && 0 <= c.second < 100
  }

  lemma RenderedFields(c: Civil)
    requires Printable(c)
    ensures HasSuffixShape(Rendered(c)) && SuffixFields(Rendered(c)) == c
  {
    RenderedShape(c);
    Pow10Small();
    PadValue(c.year, 4);
    PadValue(c.month, 2);
    PadValue(c.day, 2);
    PadValue(c.hour, 2);
    PadValue(c.minute, 2);
    PadValue(c.second, 2);
  }

  /** A string of the right shape is the rendering of its fields. */
  lemma ShapeIsRendered(s: string)
    requires HasSuffixShape(s)
    ensures Printable(SuffixFields(s)) && Rendered(SuffixFields(s)) == s
  {
    Pow10Small();
    PadOfValue(s[7..11]);
    PadOfValue(s[12..14]);
    PadOfValue(s[15..17]);
    PadOfValue(s[18..20]);
    PadOfValue(s[21..23]);
    PadOfValue(s[24..26]);
    var c := SuffixFields(s);
    CutAt(s, 24, 26);
    assert s[27..] == "";
    assert s[24..] == FromSecond(c);
    CutAt(s, 21, 23);
    assert s[21..] == FromMinute(c);
    CutAt(s, 18, 20);
    assert s[18..] == FromHour(c);
    CutAt(s, 15, 17);
    assert s[15..] == FromDay(c);
    CutAt(s, 12, 14);
    assert s[12..] == FromMonth(c);
    CutAt(s, 7, 11);
    assert s == s[..7] + s[7..];
  }

  lemma CutAt(s: string, i: nat, j: nat)
    requires i <= j < |s|
    ensures s[i..] == s[i..j] + [s[j]] + s[j + 1..]
  {
  }

  // ---------- Order of dates ----------

  predicate Earlier(a: Civil, b: Civil) {
    a.year < b.year || (a.year == b.year &&
    (a.month < b.month || (a.month == b.month &&
    (a.day < b.day || (a.day == b.day &&
    (a.hour < b.hour || (a.hour == b.hour &&
    (a.minute < b.minute || (a.minute == b.minute && a.second < b.second)))))))))
  }

  lemma {:induction false} YearsGrow(y: int, z: int)
    requires 1970 <= y < z
    ensures DaysBeforeYear(y) + YearLength(y) <= DaysBeforeYear(z)
    decreases z
  {
    if y + 1 < z { YearsGrow(y, z - 1); }
  }

  lemma {:induction false} MonthsGrow(y: int, m: int, n: int)
    requires 1 <= m < n <= 13
    ensures DaysBeforeMonth(y, m) + MonthLength(y, m) <= DaysBeforeMonth(y, n)
    decreases n
  {
    if m + 1 < n { MonthsGrow(y, m, n - 1); }
  }

  lemma EarlierCountsLess(a: Civil, b: Civil)
    requires IsDate(a) && IsDate(b) && Earlier(a, b)
    ensures CountedEpoch(a) < CountedEpoch(b)
  {
    if a.year < b.year {
      YearsGrow(a.year, b.year);
      MonthsGrow(a.year, a.month, 13);
      MonthsFillYear(a.year);
    } else if a.month < b.month {
      MonthsGrow(a.year, a.month, b.month);
    }
  }

  /** A moment has one date. */
  lemma DateIsUnique(a: Civil, b: Civil)
    requires IsDate(a) && IsDate(b) && CountedEpoch(a) == CountedEpoch(b)
    ensures a == b
  {
    if Earlier(a, b) {
      EarlierCountsLess(a, b);
    } else if Earlier(b, a) {
      EarlierCountsLess(b, a);
    }
  }

  lemma LastMoment(last: Civil)
    requires last == Civil(9999, 12, 31, 23, 59, 59)
    ensures CountedEpoch(last) == MAX_EPOCH
  {
    ClosedFormCounts(last);
    assert CivilToEpoch(last) == MAX_EPOCH;
  }

  lemma YearWithinFourDigits(e: nat)
    ensures e <= MAX_EPOCH <==> Gmtime(e).year <= 9999
  {
    var last := Civil(9999, 12, 31, 23, 59, 59);
    LastMoment(last);
    var c := Gmtime(e);
    if Earlier(last, c) {
      EarlierCountsLess(last, c);
    } else if Earlier(c, last) {
      EarlierCountsLess(c, last);
    }
  }

  lemma SuffixIsRendered(e: nat)
    requires e <= MAX_EPOCH
    ensures SnapshotSuffix(e) == Rendered(Gmtime(e)) && Printable(Gmtime(e))
  {
    YearWithinFourDigits(e);
    Pow10Small();
    DecIsPad(Gmtime(e).year, 4);
    var c := Gmtime(e);
    assert SnapshotSuffix(e) == Rendered(c);
  }

  // ---------- Main results ----------

  /** Every moment up to the end of 9999 survives printing and parsing, except the excluded 0. */
  lemma SuffixRoundTrip(e: nat)
    requires 1 <= e <= MAX_EPOCH
    ensures ParseSuffixEpoch(SnapshotSuffix(e)) == e
  {
    var c := Gmtime(e);
    SuffixIsRendered(e);
    RenderedFields(c);
    ClosedFormCounts(c);
    YearWithinFourDigits(e);
  }

  lemma RenderedOrder(a: Civil, b: Civil)
    requires Printable(a) && Printable(b) && Earlier(a, b)
    ensures Less(Rendered(a), Rendered(b))
  {
    Pow10Small();
    LessConcat(PREFIX, PREFIX, Pad(a.year, 4) + "-" + FromMonth(a), Pad(b.year, 4) + "-" + FromMonth(b));
    FieldOrder(a.year, b.year, 4, '-', FromMonth(a), FromMonth(b));
    if a.year == b.year {
      FieldOrder(a.month, b.month, 2, '-', FromDay(a), FromDay(b));
      if a.month == b.month {
        FieldOrder(a.day, b.day, 2, 'T', FromHour(a), FromHour(b));
        if a.day == b.day {
          FieldOrder(a.hour, b.hour, 2, ':', FromMinute(a), FromMinute(b));
          if a.hour == b.hour {
            FieldOrder(a.minute, b.minute, 2, ':', FromSecond(a), FromSecond(b));
            if a.minute == b.minute {
              PadOrder(a.second, b.second, 2);
              LessConcat(Pad(a.second, 2), Pad(b.second, 2), "Z", "Z");
            }
          }
        }
      }
    }
  }

  lemma FieldOrder(n: nat, m: nat, w: nat, sep: char, x: string, y: string)
    requires n < Pow10(w) && m < Pow10(w)
    ensures n < m ==> Less(Pad(n, w) + [sep] + x, Pad(m, w) + [sep] + y)
    ensures n == m && Less(x, y) ==> Less(Pad(n, w) + [sep] + x, Pad(m, w) + [sep] + y)
  {
    var p, q := Pad(n, w) + [sep], Pad(m, w) + [sep];
    LessConcat(Pad(n, w), Pad(m, w), [sep], [sep]);
    LessConcat(p, q, x, y);
    if n < m { PadOrder(n, m, w); }
  }

  /** Up to the end of 9999, sorting suffixes as text sorts them by time. */
  lemma SuffixOrderIsTimeOrder(e: nat, f: nat)
    requires e <= MAX_EPOCH && f <= MAX_EPOCH
    ensures Less(SnapshotSuffix(e), SnapshotSuffix(f)) <==> e < f
  {
    SuffixIsRendered(e);
    SuffixIsRendered(f);
    LessTotal(SnapshotSuffix(e), SnapshotSuffix(f));
    var a, b := Gmtime(e), Gmtime(f);
    if Earlier(a, b) {
      EarlierCountsLess(a, b);
      RenderedOrder(a, b);
    } else if Earlier(b, a) {
      EarlierCountsLess(b, a);
      RenderedOrder(b, a);
    }
  }

  /**
   A parsed suffix is the printed form of its own epoch exactly when its fields are a date:
   the parser's bounds let 31 days into every month and a 60th second into every minute.
   */
  lemma ParsedSuffixIsPrinted(s: string)
    requires ParseSuffixEpoch(s) > 0
    ensures SnapshotSuffix(ParseSuffixEpoch(s)) == s <==> IsDate(SuffixFields(s))
  {
    var e, c := ParseSuffixEpoch(s), SuffixFields(s);
    ClosedFormCounts(c);
    ShapeIsRendered(s);
    if IsDate(c) {
      DateIsUnique(Gmtime(e), c);
      YearWithinFourDigits(e);
      SuffixIsRendered(e);
    } else if SnapshotSuffix(e) == s {
      if e <= MAX_EPOCH {
        SuffixIsRendered(e);
        RenderedFields(Gmtime(e));
      } else {
        YearWithinFourDigits(e);
        LongYears(Gmtime(e).year, 10000);
      }
    }
  }

  /** Years past 9999 print with more than four digits. */
  lemma LongYears(y: nat, p: nat)
    requires 10000 == p <= y
    ensures |Dec(y)| >= 5
  {
    assert |Dec(y / 10)| >= 4 by {
      assert |Dec(y / 100)| >= 3 by { assert |Dec(y / 1000)| >= 2; }
    }
  }

  /** So two suffixes can name one moment: 29 February of a common year is its 1 March. */
  lemma SuffixAliases(y: int)
    requires 1970 <= y <= 9999 && !IsLeap(y)
    ensures var feb, mar := Rendered(Civil(y, 2, 29, 0, 0, 0)), Rendered(Civil(y, 3, 1, 0, 0, 0));
      feb != mar && ParseSuffixEpoch(feb) == ParseSuffixEpoch(mar) > 0
  {
    var f, m := Civil(y, 2, 29, 0, 0, 0), Civil(y, 3, 1, 0, 0, 0);
    RenderedFields(f);
    RenderedFields(m);
    ClosedFormCounts(f);
    ClosedFormCounts(m);
    MonthsFillYear(y);
    assert DaysBeforeMonth(y, 2) == 31;
  }

  // ---------- Exactly which suffixes are accepted ----------

  /** `s` spells these fields, within the bounds and not the first moment of 1970. */
  predicate Spells(s: string, c: Civil) {
    && 1970 <= c.year <= 9999 && 1 <= c.month <= 12 && 1 <= c.day <= 31
    && 0 <= c.hour <= 23 && 0 <= c.minute <= 59 && 0 <= c.second <= 60
    && c != Civil(1970, 1, 1, 0, 0, 0)
    && s == "backup-" + (Pad(c.year, 4) + "-" + (Pad(c.month, 2) + "-" + (Pad(c.day, 2) + "T"
            + (Pad(c.hour, 2) + ":" + (Pad(c.minute, 2) + ":" + (Pad(c.second, 2) + "Z"))))))
  }

  /**
   A suffix is accepted exactly when it spells such fields, and then stands for their plain count:
   months are checked, but not how many days they have, and a second of 60 passes.
   */
  lemma SuffixAcceptedIff(s: string)
    ensures ParseSuffixEpoch(s) > 0 <==> exists c :: Spells(s, c)
    ensures forall c :: Spells(s, c) ==> ParseSuffixEpoch(s) == CountedEpoch(c)
  {
    forall c | Spells(s, c) ensures ParseSuffixEpoch(s) == CountedEpoch(c) > 0 {
      SpelledIsCounted(s, c);
    }
    if ParseSuffixEpoch(s) > 0 {
      AcceptedSpells(s);
    }
  }

  lemma SpelledIsCounted(s: string, c: Civil)
    requires Spells(s, c)
    ensures ParseSuffixEpoch(s) == CountedEpoch(c) > 0
  {
    assert s == Rendered(c);
    RenderedFields(c);
    ClosedFormCounts(c);
    CountsFromFirst(c);
  }

  lemma AcceptedSpells(s: string)
    requires ParseSuffixEpoch(s) > 0
    ensures Spells(s, SuffixFields(s))
  {
    var c := SuffixFields(s);
    ShapeIsRendered(s);
    ClosedFormCounts(c);
    CountsFromFirst(c);
  }

  lemma CountsFromFirst(c: Civil)
    requires 1970 <= c.year && 1 <= c.month <= 12 && 1 <= c.day && 0 <= c.hour && 0 <= c.minute && 0 <= c.second
    ensures CountedEpoch(c) >= 0 && (CountedEpoch(c) == 0 <==> c == Civil(1970, 1, 1, 0, 0, 0))
  {
  }
}
