/**
  The calendar conversions of src/Utils.cpp: seconds since 1970 to broken-down time and back.
  The reference is a calendar that only knows how to go to the next day.
 */
module Calendar {
  import opened Words

  const SECS_PER_DAY: nat := 86400

  const DAYS_BEFORE_MONTH: seq<nat> := [0, 31, 59, 90, 120, 151, 181, 212, 243, 273, 304, 334]

  /** The macro `isleap`, on a full year. */
  predicate IsLeap(y: int) {
    (y % 4 == 0 && y % 100 != 0) || y % 400 == 0
  }

  /** The macro `_ISLEAP`, on a year counted from 1900. */
  predicate IsLeapFrom1900(y: int) {
    y % 4 == 0 && (y % 100 != 0 || (y + 1900) % 400 == 0)
  }

  lemma Modulo4(y: int)
    ensures (1900 + y) % 4 == y % 4
  {
  }

  lemma Modulo100(y: int)
    ensures (1900 + y) % 100 == y % 100
  {
  }

  lemma FourHundred(z: int)
    ensures z % 400 == 0 ==> z % 4 == 0 && z % 100 == 0
  {
  }

  /** The two leap-year macros agree. */
  lemma LeapYearsAgree(y: int)
    ensures IsLeap(1900 + y) <==> IsLeapFrom1900(y)
  {
    Modulo4(y);
    Modulo100(y);
    FourHundred(1900 + y);
  }

  function YearLength(y: int): (n: nat)
    ensures n == 365 || n == 366
  {
    if IsLeap(y) then 366 else 365
  }

  /** `mon_lengths`; months count from 0. */
  function MonthLength(leap: bool, mon: nat): (n: nat)
    requires mon < 12
    ensures 28 <= n <= 31
  {
    var lengths := if leap then [31, 29, 31, 30, 31, 30, 31, 31, 30, 31, 30, 31]
                           else [31, 28, 31, 30, 31, 30, 31, 31, 30, 31, 30, 31];
    lengths[mon]
  }

  // ---------- The calendar ----------

  datatype Day = Day(year: int, mon: int, mday: int, wday: int, yday: int)

  const EPOCH := Day(1970, 0, 1, 4, 0)

  predicate RealDate(year: int, mon: int, mday: int) {
    0 <= mon < 12 && 1 <= mday <= MonthLength(IsLeap(year), mon)
  }

  function NextDay(d: Day): Day
    requires 0 <= d.mon < 12
  {
    var wday := if d.wday == 6 then 0 else d.wday + 1;
    if d.mday < MonthLength(IsLeap(d.year), d.mon) then Day(d.year, d.mon, d.mday + 1, wday, d.yday + 1)
    else if d.mon < 11 then Day(d.year, d.mon + 1, 1, wday, d.yday + 1)
    else Day(d.year + 1, 0, 1, wday, 0)
  }

  /** The day `n` days after 1 January 1970. */
  function DayAfter(n: nat): (d: Day)
    ensures RealDate(d.year, d.mon, d.mday)
  {
    if n == 0 then EPOCH else NextDay(DayAfter(n - 1))
  }

  // ---------- Counting days ----------

  function DaysBeforeYear(y: int): nat
    decreases y
  {
    if y <= 1970 then 0 else DaysBeforeYear(y - 1) + YearLength(y - 1)
  }

  function DaysBeforeMonth(leap: bool, mon: nat): nat
    requires mon <= 12
  {
    if mon == 0 then 0 else DaysBeforeMonth(leap, mon - 1) + MonthLength(leap, mon - 1)
  }

  /** The month table, with the leap day the code adds from March on, is the running sum of the month lengths. */
  lemma {:induction false} MonthTable(leap: bool, mon: nat)
    requires mon < 12
    ensures DaysBeforeMonth(leap, mon) == DAYS_BEFORE_MONTH[mon] + (if mon > 1 && leap then 1 else 0)
  {
    if mon > 0 {
      MonthTable(leap, mon - 1);
    }
  }

  lemma {:induction false} WholeYear(y: int)
    ensures DaysBeforeMonth(IsLeap(y), 12) == YearLength(y)
  {
    MonthTable(IsLeap(y), 11);
  }

  function DayOfYear(y: int, mon: int, mday: int): nat
    requires RealDate(y, mon, mday)
  {
    DaysBeforeMonth(IsLeap(y), mon) + mday - 1
  }

  lemma {:induction false} MonthsGrow(leap: bool, mon: nat, mon': nat)
    requires mon <= mon' <= 12
    ensures DaysBeforeMonth(leap, mon) <= DaysBeforeMonth(leap, mon')
  {
    if mon < mon' {
      MonthsGrow(leap, mon, mon' - 1);
    }
  }

  lemma {:induction false} YearsGrow(y: int, y': int)
    requires y <= y'
    ensures DaysBeforeYear(y) <= DaysBeforeYear(y')
    decreases y' - y
  {
    if y < y' {
      YearsGrow(y, y' - 1);
    }
  }

  lemma {:induction false} DayOfYearFits(y: int, mon: int, mday: int)
    requires RealDate(y, mon, mday)
    ensures DayOfYear(y, mon, mday) < YearLength(y)
  {
    MonthsGrow(IsLeap(y), mon + 1, 12);
    WholeYear(y);
  }

  lemma {:induction false} YearsDiffer(y: int, a: nat, y': int, b: nat)
    requires 1970 <= y && 1970 <= y' && a < YearLength(y) && b < YearLength(y')
    requires DaysBeforeYear(y) + a == DaysBeforeYear(y') + b
    ensures y == y'
  {
    if y < y' {
      YearsGrow(y + 1, y');
    } else if y' < y {
      YearsGrow(y' + 1, y);
    }
  }

  lemma {:induction false} MonthsDiffer(leap: bool, mon: nat, a: nat, mon': nat, b: nat)
    requires mon < 12 && mon' < 12 && a < MonthLength(leap, mon) && b < MonthLength(leap, mon')
    requires DaysBeforeMonth(leap, mon) + a == DaysBeforeMonth(leap, mon') + b
    ensures mon == mon'
  {
    hide MonthLength;
    if mon < mon' {
      MonthsGrow(leap, mon + 1, mon');
    } else if mon' < mon {
      MonthsGrow(leap, mon' + 1, mon);
    }
  }

  lemma {:induction false} NextDayNumber(d: Day)
    requires d.year >= 1970 && RealDate(d.year, d.mon, d.mday) && d.yday == DayOfYear(d.year, d.mon, d.mday)
    ensures
      var e := NextDay(d);
      && RealDate(e.year, e.mon, e.mday) && e.yday == DayOfYear(e.year, e.mon, e.mday)
      && DaysBeforeYear(e.year) + e.yday == DaysBeforeYear(d.year) + d.yday + 1
      && e.year >= 1970 && e.wday == if d.wday == 6 then 0 else d.wday + 1
  {
    hide MonthLength, IsLeap;
    WholeYear(d.year);
    var leap := IsLeap(d.year);
    assert DaysBeforeMonth(leap, d.mon + 1) == DaysBeforeMonth(leap, d.mon) + MonthLength(leap, d.mon);
  }

  lemma NextWeekday(n: nat)
    requires n > 0
    ensures (4 + n) % 7 == if (3 + n) % 7 == 6 then 0 else (3 + n) % 7 + 1
  {
  }

  /** Stepping day by day arrives at the date whose number is the number of steps. */
  lemma {:induction false} DayAfterNumber(n: nat)
    ensures
      var d := DayAfter(n);
      && d.year >= 1970 && d.yday == DayOfYear(d.year, d.mon, d.mday)
      && n == DaysBeforeYear(d.year) + d.yday && d.wday == (4 + n) % 7
  {
    if n == 0 {
      assert DayOfYear(1970, 0, 1) == 0 && DaysBeforeYear(1970) == 0;
    } else {
      hide MonthLength, IsLeap, DaysBeforeMonth, DaysBeforeYear, DayOfYear, NextDay, RealDate;
      DayAfterNumber(n - 1);
      NextDayNumber(DayAfter(n - 1));
      NextWeekday(n);
    }
  }

  /** A date has one number. */
  lemma {:induction false} DateOfNumber(n: nat, y: int, mon: int, mday: int)
    requires 1970 <= y && RealDate(y, mon, mday)
    requires n == DaysBeforeYear(y) + DayOfYear(y, mon, mday)
    ensures
      var d := DayAfter(n);
      && d.year == y && d.mon == mon && d.mday == mday
  {
    hide MonthLength, YearLength, DayAfter;
    DayAfterNumber(n);
    var d := DayAfter(n);
    DayOfYearFits(y, mon, mday);
    DayOfYearFits(d.year, d.mon, d.mday);
    YearsDiffer(y, DayOfYear(y, mon, mday), d.year, d.yday);
    MonthsDiffer(IsLeap(y), mon, mday - 1, d.mon, d.mday - 1);
  }

  // ---------- The same by rule ----------

  /** The months from March on have 31 and 30 days in a pattern of five months with 153. */
  lemma {:induction false} MonthRule(leap: bool, mon: nat)
    requires mon <= 12
    ensures DaysBeforeMonth(leap, mon) ==
      if mon == 0 then 0
      else if mon == 1 then 31
      else (if leap then 60 else 59) + (153 * (mon - 2) + 2) / 5
  {
    if mon > 0 {
      MonthRule(leap, mon - 1);
    }
  }

  /** The leap days before the year `y` of the Gregorian calendar. */
  function LeapDays(y: nat): int
    requires y >= 1
  {
    (y - 1) / 4 - (y - 1) / 100 + (y - 1) / 400
  }

  lemma {:induction false} YearRule(y: nat)
    requires y >= 1970
    ensures DaysBeforeYear(y) == 365 * (y - 1970) + LeapDays(y) - LeapDays(1970)
    decreases y
  {
    if y == 1970 {
      assert DaysBeforeYear(1970) == 0;
    } else {
      hide LeapDays;
      YearRule(y - 1);
      LeapNext(y - 1);
    }
  }

  lemma LeapBefore()
    ensures LeapDays(1970) == 477
  {
  }

  /** What a year adds. */
  lemma LeapNext(y: nat)
    requires y >= 1970
    ensures LeapDays(y + 1) == LeapDays(y) + YearLength(y) - 365
  {
    Multiples(y);
    FourHundred(y);
    Hundred(y);
  }

  lemma Multiples(y: nat)
    requires y > 0
    ensures y / 4 == (y - 1) / 4 + (if y % 4 == 0 then 1 else 0)
    ensures y / 100 == (y - 1) / 100 + (if y % 100 == 0 then 1 else 0)
    ensures y / 400 == (y - 1) / 400 + (if y % 400 == 0 then 1 else 0)
  {
  }

  lemma Hundred(z: int)
    ensures z % 100 == 0 ==> z % 4 == 0
  {
  }

  /** The days from 1 January 1970 to a date, by the rule of the Gregorian calendar alone; `mon` counts from 0. */
  function Gregorian(year: nat, mon: nat, mday: nat): int
    requires year >= 1970 && mday >= 1
  {
    var leap := if year % 400 == 0 || (year % 4 == 0 && year % 100 != 0) then 1 else 0;
    365 * (year - 1970) + LeapDays(year) - 477
    + (if mon < 2 then 31 * mon else 59 + leap + (153 * (mon - 2) + 2) / 5) + mday - 1
  }

  /** The day number of a date is the one the rule gives. */
  lemma GregorianNumber(year: nat, mon: nat, mday: nat)
    requires year >= 1970 && RealDate(year, mon, mday)
    ensures DaysBeforeYear(year) + DayOfYear(year, mon, mday) == Gregorian(year, mon, mday)
  {
    hide DaysBeforeYear, DaysBeforeMonth, MonthLength, LeapDays;
    YearRule(year);
    LeapBefore();
    MonthRule(IsLeap(year), mon);
  }

  /** The day reached after `n` days has that number by the rule. */
  lemma GregorianDay(n: nat)
    ensures
      var d := DayAfter(n);
      d.year >= 1970 && 0 <= d.mon < 12 && d.mday >= 1 && Gregorian(d.year, d.mon, d.mday) == n
  {
    hide DayAfter, Gregorian, DaysBeforeYear;
    DayAfterNumber(n);
    GregorianNumber(DayAfter(n).year, DayAfter(n).mon, DayAfter(n).mday);
  }

  /** A date whose number by the rule is `n` is the one reached after `n` days. */
  lemma DateReached(n: nat, year: nat, mon: nat, mday: nat)
    requires year >= 1970 && RealDate(year, mon, mday) && Gregorian(year, mon, mday) == n
    ensures
      var d := DayAfter(n);
      d.year == year && d.mon == mon && d.mday == mday && d.wday == (4 + n) % 7
  {
    hide Gregorian, DayAfter, RealDate;
    GregorianNumber(year, mon, mday);
    DateOfNumber(n, year, mon, mday);
    DayAfterNumber(n);
  }

  /** Some dates: the ends of months and leap days, with their weekdays counted from Sunday. */
  lemma KnownDates()
    ensures DayAfter(0) == Day(1970, 0, 1, 4, 0)
    ensures DayAfter(89) == Day(1970, 2, 31, 2, 89) && DayAfter(90) == Day(1970, 3, 1, 3, 90)
    ensures DayAfter(11016) == Day(2000, 1, 29, 2, 59) && DayAfter(11017) == Day(2000, 2, 1, 3, 60)
    ensures DayAfter(47540) == Day(2100, 1, 28, 0, 58) && DayAfter(47541) == Day(2100, 2, 1, 1, 59)
  {
    hide DayAfter, DaysBeforeYear, DaysBeforeMonth;
    KnownDate(0, 1970, 0, 1);
    KnownDate(89, 1970, 2, 31);
    KnownDate(90, 1970, 3, 1);
    KnownDate(11016, 2000, 1, 29);
    KnownDate(11017, 2000, 2, 1);
    KnownDate(47540, 2100, 1, 28);
    KnownDate(47541, 2100, 2, 1);
  }

  lemma KnownDate(n: nat, year: nat, mon: nat, mday: nat)
    requires year >= 1970 && RealDate(year, mon, mday) && Gregorian(year, mon, mday) == n
    ensures DayAfter(n) == Day(year, mon, mday, (4 + n) % 7, n - Gregorian(year, 0, 1))
  {
    hide Gregorian, DayAfter, RealDate;
    DateReached(n, year, mon, mday);
    DayAfterNumber(n);
    FirstOfYear(year);
    GregorianNumber(year, mon, mday);
  }

  lemma FirstOfYear(year: nat)
    requires year >= 1970
    ensures RealDate(year, 0, 1) && DayOfYear(year, 0, 1) == 0 && DaysBeforeYear(year) == Gregorian(year, 0, 1)
  {
    hide Gregorian, DaysBeforeYear;
    assert RealDate(year, 0, 1) && DayOfYear(year, 0, 1) == 0;
    GregorianNumber(year, 0, 1);
  }

  // ---------- Broken-down time ----------

  /** The fields of a `tm_new`; the year counts from 1900. */
  datatype Fields = Fields(sec: int, min: int, hour: int, day: Day, isdst: int)

  class TmNew {
    var sec: int
    var min: int
    var hour: int
    var mday: int
    var mon: int
    var year: int
    var wday: int
    var yday: int
    var isdst: int

    ghost function Value(): Fields
      reads this
    {
      Fields(sec, min, hour, Day(1900 + year, mon, mday, wday, yday), isdst)
    }
  }

  /** What the broken-down time of a second is: the day the calendar is at, and the time within it. */
  function BrokenDown(timestamp: nat): Fields {
    var rem := timestamp % SECS_PER_DAY;
    Fields(rem % 60, rem / 60 % 60, rem / 3600, DayAfter(timestamp / SECS_PER_DAY), -1)
  }

  method GmtimeNew(res: TmNew, timestamp: U32)
    modifies res
    ensures res.Value() == BrokenDown(timestamp)
  {
    hide DayAfter, NextDay, MonthLength;
    var days := timestamp / SECS_PER_DAY;
    var rem := timestamp % SECS_PER_DAY;
    ghost var number := days;
    res.hour := rem / 3600;
    rem := rem % 3600;
    res.min := rem / 60;
    res.sec := rem % 60;
    TimeOfDay(timestamp % SECS_PER_DAY);
    res.wday := (4 + days) % 7;
    var y := 1970;
    while days >= YearLength(y)
      invariant 1970 <= y && 0 <= days && number == DaysBeforeYear(y) + days
      invariant unchanged(res`yday) && unchanged(res`mon) && unchanged(res`mday) && unchanged(res`isdst)
    {
      days := days - YearLength(y);
      y := y + 1;
    }
    res.year := y - 1900;
    res.yday := days;
    ghost var yday := days;
    WholeYear(y);
    res.mon := 0;
    while days >= MonthLength(IsLeap(y), res.mon)
      invariant 0 <= res.mon < 12 && 0 <= days && yday == DaysBeforeMonth(IsLeap(y), res.mon) + days
      invariant unchanged(res`mday) && unchanged(res`isdst)
      invariant res.year == y - 1900 && res.yday == yday && res.wday == (4 + number) % 7
      invariant res.hour == timestamp % SECS_PER_DAY / 3600 && res.min == timestamp % SECS_PER_DAY / 60 % 60
      invariant res.sec == timestamp % SECS_PER_DAY % 60
      decreases days
    {
      MonthsGrow(IsLeap(y), res.mon + 1, 12);
      days := days - MonthLength(IsLeap(y), res.mon);
      assert DaysBeforeMonth(IsLeap(y), res.mon + 1) == DaysBeforeMonth(IsLeap(y), res.mon) + MonthLength(IsLeap(y), res.mon);
      res.mon := res.mon + 1;
    }
    res.mday := days + 1;
    res.isdst := -1;
    DayAfterNumber(number);
    DateOfNumber(number, y, res.mon, res.mday);
  }

  lemma TimeOfDay(rem: nat)
    ensures rem % 3600 / 60 == rem / 60 % 60 && rem % 3600 % 60 == rem % 60
  {
  }

  /** The sum `mktime_new` forms, before it is cut to 32 bits; years before 1970 add nothing. */
  function Seconds(f: Fields): int
    requires 0 <= f.day.mon < 12
  {
    f.sec + 60 * f.min + 3600 * f.hour
    + SECS_PER_DAY * (DaysBeforeYear(f.day.year) + DaysBeforeMonth(IsLeap(f.day.year), f.day.mon) + f.day.mday - 1)
  }

  /** The seconds of a real date, by the rule of the Gregorian calendar. */
  lemma SecondsRule(f: Fields)
    requires f.day.year >= 1970 && RealDate(f.day.year, f.day.mon, f.day.mday)
    ensures 0 <= f.day.mon && 1 <= f.day.mday
    ensures Seconds(f) == f.sec + 60 * f.min + 3600 * f.hour + 86400 * Gregorian(f.day.year, f.day.mon, f.day.mday)
  {
    assert f.day.mon >= 0 && f.day.mday >= 1;
    hide Gregorian, DaysBeforeYear, DaysBeforeMonth, RealDate;
    GregorianNumber(f.day.year, f.day.mon, f.day.mday);
  }

  /** The end of March 1970, and the beginning of April. */
  lemma KnownTimes()
    ensures BrokenDown(7689600) == Fields(0, 0, 0, Day(1970, 2, 31, 2, 89), -1)
    ensures BrokenDown(7776000) == Fields(0, 0, 0, Day(1970, 3, 1, 3, 90), -1)
    ensures BrokenDown(951827696) == Fields(56, 34, 12, Day(2000, 1, 29, 2, 59), -1)
    ensures Seconds(Fields(0, 0, 0, Day(1970, 3, 1, 3, 90), -1)) == 7776000
    ensures Seconds(Fields(56, 34, 12, Day(2000, 1, 29, 2, 59), -1)) == 951827696
  {
    hide DayAfter, DaysBeforeYear, DaysBeforeMonth, Seconds;
    KnownDates();
    SecondsRule(Fields(0, 0, 0, Day(1970, 3, 1, 3, 90), -1));
    SecondsRule(Fields(56, 34, 12, Day(2000, 1, 29, 2, 59), -1));
  }

  method MktimeNew(tm: TmNew) returns (time: U32)
    requires 0 <= tm.mon < 12
    ensures time == Seconds(tm.Value()) % WORD
  {
    hide DaysBeforeMonth, IsLeap, IsLeapFrom1900;
    var tim := tm.sec + tm.min * 60 + tm.hour * 3600;
    var days := tm.mday - 1 + DAYS_BEFORE_MONTH[tm.mon];
    LeapYearsAgree(tm.year);
    MonthTable(IsLeap(1900 + tm.year), tm.mon);
    if tm.mon > 1 && IsLeapFrom1900(tm.year) {
      days := days + 1;
    }
    ghost var inYear := days;
    var year := 70;
    while year < tm.year
      invariant 70 <= year && (year <= tm.year || year == 70)
      invariant days == inYear + DaysBeforeYear(1900 + year)
    {
      LeapYearsAgree(year);
      days := days + (if IsLeapFrom1900(year) then 366 else 365);
      year := year + 1;
    }
    assert DaysBeforeYear(1900 + year) == DaysBeforeYear(1900 + tm.year);
    tim := tim + days * 86400;
    time := tim % WORD;
  }

  // ---------- The two conversions are inverse ----------

  predicate TimeInRange(f: Fields) {
    0 <= f.sec < 60 && 0 <= f.min < 60 && 0 <= f.hour < 24
  }

  /** `mktime_new` takes every second back from its broken-down time, whose fields are all in range. */
  lemma {:induction false} MktimeUndoesGmtime(t: U32)
    ensures
      var f := BrokenDown(t);
      && TimeInRange(f) && f.day.year >= 1970 && RealDate(f.day.year, f.day.mon, f.day.mday)
      && 0 <= f.day.wday < 7 && f.day.yday == DayOfYear(f.day.year, f.day.mon, f.day.mday) < YearLength(f.day.year)
      && Seconds(f) % WORD == t
  {
    hide DayAfter, DaysBeforeYear, DaysBeforeMonth, MonthLength;
    DayAfterNumber(t / SECS_PER_DAY);
    var f := BrokenDown(t);
    DayOfYearFits(f.day.year, f.day.mon, f.day.mday);
    SplitTime(t % SECS_PER_DAY);
    assert t == t % SECS_PER_DAY + SECS_PER_DAY * (t / SECS_PER_DAY);
  }

  lemma SplitTime(rem: nat)
    requires rem < SECS_PER_DAY
    ensures rem == rem % 60 + 60 * (rem / 60 % 60) + 3600 * (rem / 3600) && rem / 3600 < 24
  {
    assert rem / 60 / 60 == rem / 3600;
  }

  lemma JoinTime(sec: nat, min: nat, hour: nat)
    requires sec < 60 && min < 60 && hour < 24
    ensures
      var rem := sec + 60 * min + 3600 * hour;
      rem < SECS_PER_DAY && rem % 60 == sec && rem / 60 % 60 == min && rem / 3600 == hour
  {
    var rem := sec + 60 * min + 3600 * hour;
    assert rem / 60 == min + 60 * hour;
  }

  /** `gmtime_new` takes every real date from 1970 on back from its seconds, if they fit 32 bits. */
  lemma {:induction false} GmtimeUndoesMktime(f: Fields)
    requires TimeInRange(f) && f.day.year >= 1970 && RealDate(f.day.year, f.day.mon, f.day.mday)
    requires Seconds(f) < WORD
    ensures
      var g := BrokenDown(Seconds(f) % WORD);
      && g.sec == f.sec && g.min == f.min && g.hour == f.hour
      && g.day.year == f.day.year && g.day.mon == f.day.mon && g.day.mday == f.day.mday
  {
    hide DayAfter, DaysBeforeYear, DaysBeforeMonth, MonthLength;
    var n := DaysBeforeYear(f.day.year) + DayOfYear(f.day.year, f.day.mon, f.day.mday);
    var rem := f.sec + 60 * f.min + 3600 * f.hour;
    JoinTime(f.sec, f.min, f.hour);
    assert Seconds(f) == rem + SECS_PER_DAY * n;
    assert Seconds(f) % SECS_PER_DAY == rem && Seconds(f) / SECS_PER_DAY == n;
    DateOfNumber(n, f.day.year, f.day.mon, f.day.mday);
  }
}
