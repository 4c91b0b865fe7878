/** The names of the log files of src/config/FileLogWriter.ts: how they are made from the clock,
    how they are read back, and why sorting them as strings sorts them by time. */
module LogNames {
  import opened Text

  const DAY_MS := 24 * 60 * 60 * 1000
  /** The number of days in the years 0 to 1969 of the proleptic Gregorian calendar. */
  const EPOCH_DAY := 719528
  /** The first millisecond of the year 10000, where ISO dates stop having four-digit years. */
  const CLOCK_END := 253402300800000

  // ---------- The calendar (section 21.4.1 of ECMA-262) ----------

  datatype Date = Date(year: nat, month: nat, day: nat)

  predicate IsLeap(y: nat) { y % 4 == 0 && (y % 100 != 0 || y % 400 == 0) }

  function DaysInYear(y: nat): nat { if IsLeap(y) then 366 else 365 }

  function DaysBeforeYear(y: nat): nat { 365 * y + (y + 3) / 4 - (y + 99) / 100 + (y + 399) / 400 }

  /** Days of the year before month m; month 13 gives the length of the year. */
  function DaysBeforeMonth(m: nat, leap: bool): nat
    requires 1 <= m <= 13
  {
    var common := [0, 31, 59, 90, 120, 151, 181, 212, 243, 273, 304, 334, 365];
    common[m - 1] + if leap && m > 2 then 1 else 0
  }

  function DaysInMonth(m: nat, leap: bool): nat
    requires 1 <= m <= 12
  {
    if m == 2 then if leap then 29 else 28
    else if m == 4 || m == 6 || m == 9 || m == 11 then 30 else 31
  }

  ghost predicate ValidDate(d: Date) {
    && d.year < 10000
    && 1 <= d.month <= 12
    && 1 <= d.day <= DaysInMonth(d.month, IsLeap(d.year))
  }

  /** Days since the first of January of the year 0. */
  function DayNumber(d: Date): nat
    requires 1 <= d.month <= 12 && 1 <= d.day
  {
    DaysBeforeYear(d.year) + DaysBeforeMonth(d.month, IsLeap(d.year)) + d.day - 1
  }

  function YearFrom(y: nat, n: nat): (r: nat)
    requires DaysBeforeYear(y) <= n
    ensures DaysBeforeYear(r) <= n < DaysBeforeYear(r) + DaysInYear(r)
    decreases n - DaysBeforeYear(y)
  {
    YearStep(y);
    if n < DaysBeforeYear(y + 1) then y else YearFrom(y + 1, n)
  }

  function MonthFrom(m: nat, leap: bool, offset: nat): (r: nat)
    requires 1 <= m <= 12
    requires DaysBeforeMonth(m, leap) <= offset < DaysBeforeMonth(13, leap)
    ensures 1 <= r <= 12
    ensures DaysBeforeMonth(r, leap) <= offset < DaysBeforeMonth(r + 1, leap)
    decreases 13 - m
  {
    if offset < DaysBeforeMonth(m + 1, leap) then m else MonthFrom(m + 1, leap, offset)
  }

  /** The calendar date of a day number. */
  function DateOf(n: nat): (d: Date)
    ensures 1 <= d.month <= 12
    ensures 1 <= d.day <= DaysInMonth(d.month, IsLeap(d.year))
    ensures DayNumber(d) == n
  {
    var y := YearFrom(0, n);
    var offset := n - DaysBeforeYear(y);
    var m := MonthFrom(1, IsLeap(y), offset);
    MonthStep(m, IsLeap(y));
    Date(y, m, offset - DaysBeforeMonth(m, IsLeap(y)) + 1)
  }

  lemma YearStep(y: nat)
    ensures DaysBeforeYear(y + 1) == DaysBeforeYear(y) + DaysInYear(y)
  {
    DivStep(y, 4);
    DivStep(y, 100);
    DivStep(y, 400);
    LeapRule(y);
  }

  /** Counting the centuries out and every fourth century in again counts the leap years. */
  lemma LeapRule(y: nat)
    ensures (if y % 4 == 0 then 1 else 0) - (if y % 100 == 0 then 1 else 0) + (if y % 400 == 0 then 1 else 0)
            == if IsLeap(y) then 1 else 0
  {
    if y % 400 == 0 { MultipleOf(y, 400, 100, 4); }
    if y % 100 == 0 { MultipleOf(y, 100, 4, 25); }
  }

  lemma MultipleOf(y: nat, k: nat, a: nat, b: nat)
    requires (k == 100 && a == 4 && b == 25) || (k == 400 && a == 100 && b == 4)
    requires y % k == 0
    ensures y % a == 0
  {
    var q := y / k;
    assert y == a * (b * q);
  }

  /** Rounding y / k up grows by one exactly at the multiples of k. */
  lemma DivStep(y: nat, k: nat)
    requires k == 4 || k == 100 || k == 400
    ensures (y + 1 + k - 1) / k == (y + k - 1) / k + if y % k == 0 then 1 else 0
  {
  }

  lemma MonthStep(m: nat, leap: bool)
    requires 1 <= m <= 12
    ensures DaysBeforeMonth(m + 1, leap) == DaysBeforeMonth(m, leap) + DaysInMonth(m, leap)
  {
  }

  lemma {:induction false} YearsAreOrdered(y: nat, z: nat)
    requires y < z
    ensures DaysBeforeYear(y) + DaysInYear(y) <= DaysBeforeYear(z)
  {
    YearStep(z - 1);
    if y < z - 1 { YearsAreOrdered(y, z - 1); }
  }

  ghost predicate EarlierDate(a: Date, b: Date) {
    || a.year < b.year
    || (a.year == b.year && a.month < b.month)
    || (a.year == b.year && a.month == b.month && a.day < b.day)
  }

  lemma OffsetInYear(d: Date)
    requires ValidDate(d)
    ensures DaysBeforeYear(d.year) <= DayNumber(d) < DaysBeforeYear(d.year) + DaysInYear(d.year)
  {
    MonthStep(d.month, IsLeap(d.year));
  }

  lemma EarlierDateHasSmallerDay(a: Date, b: Date)
    requires ValidDate(a) && ValidDate(b) && EarlierDate(a, b)
    ensures DayNumber(a) < DayNumber(b)
  {
    OffsetInYear(a);
    OffsetInYear(b);
    if a.year < b.year {
      YearsAreOrdered(a.year, b.year);
    } else if a.month < b.month {
      MonthStep(a.month, IsLeap(a.year));
    }
  }

  /** Dates in lexicographic order are days in chronological order, and nothing else is. */
  lemma DatesFollowDays(a: Date, b: Date)
    requires ValidDate(a) && ValidDate(b)
    ensures EarlierDate(a, b) <==> DayNumber(a) < DayNumber(b)
    ensures a == b <==> DayNumber(a) == DayNumber(b)
  {
    if EarlierDate(a, b) {
      EarlierDateHasSmallerDay(a, b);
    } else if EarlierDate(b, a) {
      EarlierDateHasSmallerDay(b, a);
    }
  }

  // ---------- Names ----------

  function DayOf(now: nat): nat { EPOCH_DAY + now / DAY_MS }

  /** The clock reading of 00:00 UTC on a day. */
  function Midnight(day: nat): int { (day - EPOCH_DAY) * DAY_MS }

  /** The first ten characters of `toISOString`. */
  function DateText(d: Date): (s: string)
    ensures |s| == 10
  {
    Padded(d.year, 4) + "-" + Padded(d.month, 2) + "-" + Padded(d.day, 2)
  }

  /** The files the writer makes: the live file of a day, and the pieces rotated out of it. */
  datatype LogName = Live(day: nat) | Rotated(day: nat, stamp: nat)

  function BaseName(day: nat): (s: string)
    ensures |s| == 14
  {
    "app-" + DateText(DateOf(day))
  }

  function LiveName(day: nat): string { BaseName(day) + ".log" }

  /** `.log` is cut off when the name ends with it, then the clock reading and `.log` are added. */
  function RotatedName(logFile: string, stamp: nat): string {
    var base := if EndsWith(logFile, ".log") then logFile[..|logFile| - 4] else logFile;
    base + "-" + Decimal(stamp) + ".log"
  }

  function NameOf(n: LogName): string {
    match n
    case Live(day) => LiveName(day)
    case Rotated(day, stamp) => RotatedName(LiveName(day), stamp)
  }

  predicate IsAppLogFile(name: string) {
    StartsWith(name, "app-") && EndsWith(name, ".log")
  }

  /** What follows the date in a log name: nothing, or a hyphen and digits; then `.log`. */
  predicate IsNameTail(tail: string) {
    || tail == ".log"
    || (&& |tail| >= 6 && tail[0] == '-' && EndsWith(tail, ".log")
        && AreDigits(tail[1..|tail| - 4]))
  }

  predicate IsDateText(text: string) {
    && |text| == 10 && text[4] == '-' && text[7] == '-'
    && AreDigits(text[..4]) && AreDigits(text[5..7]) && AreDigits(text[8..])
  }

  /** `Date.parse` of `YYYY-MM-DDT00:00:00.000Z`; None stands for NaN. */
  function ParseDate(text: string): Option<int>
    requires IsDateText(text)
  {
    var d := Date(ValueOf(text[..4]), ValueOf(text[5..7]), ValueOf(text[8..]));
    if 1 <= d.month <= 12 && 1 <= d.day <= 31 then Some(Midnight(DayNumber(d))) else None
  }

  function ParseDateFromLogFilename(name: string): Option<int> {
    if |name| >= 18 && StartsWith(name, "app-") && IsDateText(name[4..14]) && IsNameTail(name[14..])
    then ParseDate(name[4..14]) else None
  }

  // ---------- Name order is time order ----------

  /** The order the retention policies rely on: by day, then rotated pieces by stamp, live file last. */
  ghost predicate Older(a: LogName, b: LogName) {
    || a.day < b.day
    || (a.day == b.day && a.Rotated? && (b.Live? || a.stamp < b.stamp))
  }

  /** A day with a four-digit year; a rotation stamp of thirteen digits (2001-09-09 to 2286-11-20). */
  ghost predicate WriterName(n: LogName) {
    && n.day < EPOCH_DAY + CLOCK_END / DAY_MS
    && (n.Rotated? ==> 1000000000000 <= n.stamp < 10000000000000)
  }

  lemma LastDay()
    ensures DaysBeforeYear(10000) == EPOCH_DAY + CLOCK_END / DAY_MS
  {
  }

  lemma WriterDateIsValid(day: nat)
    requires day < EPOCH_DAY + CLOCK_END / DAY_MS
    ensures ValidDate(DateOf(day))
  {
    LastDay();
    var d := DateOf(day);
    if d.year >= 10000 {
      if d.year > 10000 { YearsAreOrdered(10000, d.year); }
    }
  }

  lemma DateTextOrder(a: Date, b: Date)
    requires ValidDate(a) && ValidDate(b)
    ensures Before(DateText(a), DateText(b)) <==> EarlierDate(a, b)
    ensures DateText(a) == DateText(b) <==> a == b
  {
    var ya, yb := Padded(a.year, 4), Padded(b.year, 4);
    var ma, mb := Padded(a.month, 2), Padded(b.month, 2);
    var da, db := Padded(a.day, 2), Padded(b.day, 2);
    PaddedOrder(a.year, b.year, 4);
    PaddedOrder(a.month, b.month, 2);
    PaddedOrder(a.day, b.day, 2);
    hide Padded, Before;
    assert DateText(a) == ya + ("-" + (ma + ("-" + da)));
    assert DateText(b) == yb + ("-" + (mb + ("-" + db)));
    BeforeOfPrefixed("-", da, "-", db);
    BeforeOfPrefixed(ma, "-" + da, mb, "-" + db);
    BeforeOfPrefixed("-", ma + ("-" + da), "-", mb + ("-" + db));
    BeforeOfPrefixed(ya, "-" + (ma + ("-" + da)), yb, "-" + (mb + ("-" + db)));
    if DateText(a) == DateText(b) { SameDateText(a, b); }
  }

  lemma SameDateText(a: Date, b: Date)
    requires ValidDate(a) && ValidDate(b) && DateText(a) == DateText(b)
    ensures a == b
  {
    var s, t := DateText(a), DateText(b);
    PaddedOrder(a.year, b.year, 4);
    PaddedOrder(a.month, b.month, 2);
    PaddedOrder(a.day, b.day, 2);
    hide Padded;
    assert Padded(a.year, 4) == s[..4] && Padded(a.month, 2) == s[5..7] && Padded(a.day, 2) == s[8..];
    assert Padded(b.year, 4) == t[..4] && Padded(b.month, 2) == t[5..7] && Padded(b.day, 2) == t[8..];
  }

  lemma PaddedOrder(m: nat, n: nat, w: nat)
    requires w == 2 || w == 4
    requires m < if w == 2 then 100 else 10000
    requires n < if w == 2 then 100 else 10000
    ensures Before(Padded(m, w), Padded(n, w)) <==> m < n
    ensures Padded(m, w) == Padded(n, w) <==> m == n
  {
    assert Pow10(2) == 100 && Pow10(4) == 10000;
    ReadPadded(m, w);
    ReadPadded(n, w);
    NumeralOrder(Padded(m, w), Padded(n, w));
  }

  lemma BaseNameOrder(d: nat, e: nat)
    requires d < EPOCH_DAY + CLOCK_END / DAY_MS && e < EPOCH_DAY + CLOCK_END / DAY_MS
    ensures Before(BaseName(d), BaseName(e)) <==> d < e
    ensures BaseName(d) == BaseName(e) <==> d == e
  {
    WriterDateIsValid(d);
    WriterDateIsValid(e);
    DateTextOrder(DateOf(d), DateOf(e));
    DatesFollowDays(DateOf(d), DateOf(e));
    BeforeOfPrefixed("app-", DateText(DateOf(d)), "app-", DateText(DateOf(e)));
    assert BaseName(d)[4..] == DateText(DateOf(d)) && BaseName(e)[4..] == DateText(DateOf(e));
  }

  function Tail(n: LogName): string {
    match n
    case Live(_) => ".log"
    case Rotated(_, stamp) => "-" + (Decimal(stamp) + ".log")
  }

  lemma NameSplits(n: LogName)
    ensures NameOf(n) == BaseName(n.day) + Tail(n)
    ensures n.Rotated? ==> NameOf(n) == BaseName(n.day) + "-" + Decimal(n.stamp) + ".log"
  {
    var live := LiveName(n.day);
    assert live[|live| - 4..] == ".log";
    assert live[..|live| - 4] == BaseName(n.day);
  }

  lemma StampOrder(s: nat, t: nat)
    requires 1000000000000 <= s < 10000000000000 && 1000000000000 <= t < 10000000000000
    ensures Before("-" + (Decimal(s) + ".log"), "-" + (Decimal(t) + ".log")) <==> s < t
  {
    DecimalWidth13(s);
    DecimalWidth13(t);
    ReadDecimal(s);
    ReadDecimal(t);
    NumeralOrder(Decimal(s), Decimal(t));
    BeforeOfPrefixed(Decimal(s), ".log", Decimal(t), ".log");
    BeforeIsIrreflexive(".log");
    BeforeOfPrefixed("-", Decimal(s) + ".log", "-", Decimal(t) + ".log");
  }

  lemma DecimalWidth13(n: nat)
    requires 1000000000000 <= n < 10000000000000
    ensures |Decimal(n)| == 13
  {
    assert Pow10(4) == 10000;
    assert Pow10(8) == 100000000;
    assert Pow10(12) == 1000000000000;
    assert Pow10(13) == 10000000000000;
    DecimalWidth(n, 13);
  }

  /** The string order of the names is the age order of the files. */
  lemma NameOrderIsTimeOrder(a: LogName, b: LogName)
    requires WriterName(a) && WriterName(b)
    ensures Before(NameOf(a), NameOf(b)) <==> Older(a, b)
    ensures NameOf(a) == NameOf(b) <==> a == b
  {
    NameSplits(a);
    NameSplits(b);
    BaseNameOrder(a.day, b.day);
    BeforeOfPrefixed(BaseName(a.day), Tail(a), BaseName(b.day), Tail(b));
    if a.day == b.day {
      TailOrder(a, b);
    } else {
      assert NameOf(a)[..14] == BaseName(a.day) && NameOf(b)[..14] == BaseName(b.day);
    }
  }

  lemma TailOrder(a: LogName, b: LogName)
    requires WriterName(a) && WriterName(b) && a.day == b.day
    ensures Before(Tail(a), Tail(b)) <==> Older(a, b)
    ensures NameOf(a) == NameOf(b) <==> a == b
  {
    match (a, b) {
      case (Live(_), Live(_)) => BeforeIsIrreflexive(".log");
      case (Live(_), Rotated(_, s)) => assert Tail(a)[0] == '.' && Tail(b)[0] == '-';
      case (Rotated(_, s), Live(_)) => assert Tail(a)[0] == '-' && Tail(b)[0] == '.';
      case (Rotated(_, s), Rotated(_, t)) => StampOrder(s, t);
    }
    NamesAreDistinct(a, b);
  }

  /** Distinct files have distinct names, whatever the width of the stamps. */
  lemma NamesAreDistinct(a: LogName, b: LogName)
    requires a.day < EPOCH_DAY + CLOCK_END / DAY_MS && b.day < EPOCH_DAY + CLOCK_END / DAY_MS
    ensures NameOf(a) == NameOf(b) <==> a == b
  {
    NameSplits(a);
    NameSplits(b);
    BaseNameOrder(a.day, b.day);
    if NameOf(a) == NameOf(b) {
      PrefixedInjective(BaseName(a.day), Tail(a), BaseName(b.day), Tail(b));
      TailsAreDistinct(a, b);
    }
  }

  lemma PrefixedInjective(p: string, x: string, q: string, y: string)
    requires |p| == |q| && p + x == q + y
    ensures p == q && x == y
  {
    assert p == (p + x)[..|p|] && q == (q + y)[..|q|];
    assert x == (p + x)[|p|..] && y == (q + y)[|q|..];
  }

  lemma TailsAreDistinct(a: LogName, b: LogName)
    requires Tail(a) == Tail(b)
    ensures a.Live? == b.Live?
    ensures a.Rotated? && b.Rotated? ==> a.stamp == b.stamp
  {
    assert Tail(a)[0] == if a.Live? then '.' else '-';
    assert Tail(b)[0] == if b.Live? then '.' else '-';
    if a.Rotated? && b.Rotated? {
      var x, y := Decimal(a.stamp), Decimal(b.stamp);
      PrefixedInjective("-", x + ".log", "-", y + ".log");
      assert |x| == |y|;
      PrefixedInjective(x, ".log", y, ".log");
      ReadDecimal(a.stamp);
      ReadDecimal(b.stamp);
    }
  }

  lemma DateTextParses(d: Date)
    requires ValidDate(d)
    ensures IsDateText(DateText(d))
    ensures ParseDate(DateText(d)) == Some(Midnight(DayNumber(d)))
  {
    var text := DateText(d);
    assert text[..4] == Padded(d.year, 4) && text[5..7] == Padded(d.month, 2) && text[8..] == Padded(d.day, 2);
    assert Pow10(2) == 100 && Pow10(4) == 10000;
    ReadPadded(d.year, 4);
    ReadPadded(d.month, 2);
    ReadPadded(d.day, 2);
  }

  lemma TailParses(n: LogName)
    ensures IsNameTail(Tail(n)) && EndsWith(Tail(n), ".log")
  {
    var tail := Tail(n);
    assert tail[|tail| - 4..] == ".log";
    if n.Rotated? {
      assert tail[1..|tail| - 4] == Decimal(n.stamp);
    }
  }

  lemma SplitName(text: string, tail: string, name: string)
    requires |text| == 10 && |tail| >= 4 && name == "app-" + text + tail
    ensures |name| == 14 + |tail|
    ensures name[..4] == "app-" && name[4..14] == text && name[14..] == tail
    ensures name[|name| - 4..] == tail[|tail| - 4..]
  {
  }

  lemma SplitNameParses(text: string, tail: string)
    requires IsDateText(text) && IsNameTail(tail) && EndsWith(tail, ".log")
    ensures IsAppLogFile("app-" + text + tail)
    ensures ParseDateFromLogFilename("app-" + text + tail) == ParseDate(text)
  {
    SplitName(text, tail, "app-" + text + tail);
  }

  /** Reading a name gives back the midnight of its day, for live files and rotated pieces alike. */
  lemma NameParsesToItsDay(n: LogName)
    requires n.day < EPOCH_DAY + CLOCK_END / DAY_MS
    ensures IsAppLogFile(NameOf(n))
    ensures ParseDateFromLogFilename(NameOf(n)) == Some(Midnight(n.day))
  {
    NameSplits(n);
    WriterDateIsValid(n.day);
    var d := DateOf(n.day);
    DateTextParses(d);
    TailParses(n);
    SplitNameParses(DateText(d), Tail(n));
  }
}
