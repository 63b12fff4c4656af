/** A proleptic-Gregorian UTC calendar standing in for the C library's
    `mktime` and `gmtime` with the host zone taken to be UTC. Instants are
    whole seconds since 1970-01-01 00:00:00 UTC (`time_t`), unbounded. */
module Calendar {

  import Word

  /** Broken-down time as in `struct tm`, except that `year` is the full
      year (`tm_year + 1900`). `mon` is 0..11, `wday` 0 = Sunday. */
  datatype Civil = Civil(year: int, mon: int, mday: int, hour: int, min: int, sec: int, wday: int)

  predicate IsLeap(y: int) {
    y % 4 == 0 && (y % 100 != 0 || y % 400 == 0)
  }

  function YearLength(y: int): int {
    if IsLeap(y) then 366 else 365
  }

  /** Days in month `m` (0 = January) of year `y`. */
  function MonthLength(y: int, m: int): int
    requires 0 <= m < 12
  {
    if m == 1 then (if IsLeap(y) then 29 else 28)
    else if m == 3 || m == 5 || m == 8 || m == 10 then 30
    else 31
  }

  /** Days of year `y` that lie before the first of month `m`; `m == 12`
      gives the whole year. */
  function DaysBeforeMonth(y: int, m: int): int
    requires 0 <= m <= 12
  {
    var common :=
      if m < 6 then
        (if m == 0 then 0 else if m == 1 then 31 else if m == 2 then 59
         else if m == 3 then 90 else if m == 4 then 120 else 151)
      else
        (if m == 6 then 181 else if m == 7 then 212 else if m == 8 then 243
         else if m == 9 then 273 else if m == 10 then 304 else if m == 11 then 334 else 365);
    common + (if IsLeap(y) && m >= 2 then 1 else 0)
  }

  /** Number of multiples of 4, less those of 100, plus those of 400, in 1..x
      (and its negative mirror below zero). */
  function LeapCount(x: int): int {
    x / 4 - x / 100 + x / 400
  }

  /** Days from 1970-01-01 to January 1 of year `y` (negative before 1970). */
  function DaysBeforeYear(y: int): int {
    365 * (y - 1970) + LeapCount(y - 1) - LeapCount(1969)
  }

  /** Days from 1970-01-01 to day `d` (1-based) of month `m` of year `y`. */
  function DayNumber(y: int, m: int, d: int): int
    requires 0 <= m < 12
  {
    DaysBeforeYear(y) + DaysBeforeMonth(y, m) + d - 1
  }

  /** Weekday (0 = Sunday) of the day `n` days after 1970-01-01, a Thursday. */
  function Weekday(n: int): (r: int)
    ensures 0 <= r < 7
  {
    (n + 4) % 7
  }

  function Seconds(c: Civil): int
    requires 0 <= c.mon < 12
  {
    DayNumber(c.year, c.mon, c.mday) * 86400
      + c.hour * 3600 + c.min * 60 + c.sec
  }

  /** A real date and time of day, with the weekday that date has. */
  predicate ValidCivil(c: Civil) {
    && 0 <= c.mon < 12
    && 1 <= c.mday <= MonthLength(c.year, c.mon)
    && 0 <= c.hour < 24 && 0 <= c.min < 60 && 0 <= c.sec < 60
    && c.wday == Weekday(DayNumber(c.year, c.mon, c.mday))
  }

  // ---------------------------------------------------------------------
  // Month and year steps

  /** The cumulative month table agrees with the month lengths. */
  lemma DaysBeforeMonthStep(y: int, m: int)
    requires 0 <= m < 12
    ensures DaysBeforeMonth(y, m + 1) == DaysBeforeMonth(y, m) + MonthLength(y, m)
    ensures DaysBeforeMonth(y, 12) == YearLength(y)
  {
  }

  lemma DivStep4(x: int)
    ensures x / 4 - (x - 1) / 4 == if x % 4 == 0 then 1 else 0
  {
  }

  lemma DivStep100(x: int)
    ensures x / 100 - (x - 1) / 100 == if x % 100 == 0 then 1 else 0
  {
  }

  lemma DivStep400(x: int)
    ensures x / 400 - (x - 1) / 400 == if x % 400 == 0 then 1 else 0
  {
  }

  /** Consecutive New Years are one year length apart. */
  lemma DaysBeforeYearStep(y: int)
    ensures DaysBeforeYear(y + 1) == DaysBeforeYear(y) + YearLength(y)
  {
    var d := LeapCount(y) - LeapCount(y - 1);
    assert DaysBeforeYear(y + 1) - DaysBeforeYear(y) == 365 + d;
    DivStep4(y);
    DivStep100(y);
    DivStep400(y);
    assert d == (if y % 4 == 0 then 1 else 0) - (if y % 100 == 0 then 1 else 0)
              + (if y % 400 == 0 then 1 else 0);
    if y % 400 == 0 {
      Word.DivModUnique(y, 100, 4 * (y / 400), 0);
      Word.DivModUnique(y, 4, 100 * (y / 400), 0);
    } else if y % 100 == 0 {
      Word.DivModUnique(y, 4, 25 * (y / 100), 0);
    }
  }

  lemma {:induction false} DaysBeforeYearMonotone(a: int, b: int)
    requires a <= b
    ensures DaysBeforeYear(a) <= DaysBeforeYear(b)
    decreases b - a
  {
    if a < b {
      DaysBeforeYearMonotone(a, b - 1);
      DaysBeforeYearStep(b - 1);
    }
  }

  /** The first of the month after month `m` (December rolling into January
      of the next year) lies `MonthLength(y, m)` days after the first of `m`. */
  lemma NextMonthFirst(y: int, m: int)
    requires 0 <= m < 12
    ensures DayNumber(y + (m + 1) / 12, (m + 1) % 12, 1) == DayNumber(y, m, 1) + MonthLength(y, m)
  {
    DaysBeforeMonthStep(y, m);
    if m == 11 {
      assert y + (m + 1) / 12 == y + 1 && (m + 1) % 12 == 0;
      DaysBeforeYearStep(y);
    } else {
      assert y + (m + 1) / 12 == y && (m + 1) % 12 == m + 1;
    }
  }

  // ---------------------------------------------------------------------
  // gmtime: day number to civil date

  function YearUp(n: int, y: int): (r: int)
    requires DaysBeforeYear(y) <= n
    ensures DaysBeforeYear(r) <= n < DaysBeforeYear(r + 1)
    decreases n - DaysBeforeYear(y)
  {
    DaysBeforeYearStep(y);
    if n < DaysBeforeYear(y + 1) then y else YearUp(n, y + 1)
  }

  function YearDown(n: int, y: int): (r: int)
    requires n < DaysBeforeYear(y + 1)
    ensures DaysBeforeYear(r) <= n < DaysBeforeYear(r + 1)
    decreases DaysBeforeYear(y + 1) - n
  {
    DaysBeforeYearStep(y);
    if DaysBeforeYear(y) <= n then y else YearDown(n, y - 1)
  }

  /** The year containing day `n`: an estimate from the mean Gregorian year
      of 146097/400 days, corrected one year at a time. */
  function YearOf(n: int): (r: int)
    ensures DaysBeforeYear(r) <= n < DaysBeforeYear(r + 1)
  {
    var guess := 1970 + n * 400 / 146097;
    if DaysBeforeYear(guess) <= n then YearUp(n, guess) else YearDown(n, guess - 1)
  }

  lemma YearOfUnique(n: int, y: int)
    requires DaysBeforeYear(y) <= n < DaysBeforeYear(y + 1)
    ensures YearOf(n) == y
  {
    YearsDisjoint(YearOf(n), y, n);
  }

  /** No day lies in two different years. */
  lemma YearsDisjoint(y1: int, y2: int, n: int)
    requires DaysBeforeYear(y1) <= n < DaysBeforeYear(y1 + 1)
    requires DaysBeforeYear(y2) <= n < DaysBeforeYear(y2 + 1)
    ensures y1 == y2
  {
    if y1 < y2 {
      DaysBeforeYearMonotone(y1 + 1, y2);
    } else if y1 > y2 {
      DaysBeforeYearMonotone(y2 + 1, y1);
    }
  }

  function MonthFrom(y: int, doy: int, m: int): (r: int)
    requires 0 <= m < 12
    requires 0 <= doy < DaysBeforeMonth(y, m + 1)
    ensures 0 <= r <= m
    ensures DaysBeforeMonth(y, r) <= doy < DaysBeforeMonth(y, r + 1)
    decreases m
  {
    if DaysBeforeMonth(y, m) <= doy then m else MonthFrom(y, doy, m - 1)
  }

  /** The month containing day-of-year `doy` (0-based) of year `y`. */
  function MonthOf(y: int, doy: int): (r: int)
    requires 0 <= doy < YearLength(y)
    ensures 0 <= r < 12
    ensures DaysBeforeMonth(y, r) <= doy < DaysBeforeMonth(y, r + 1)
  {
    MonthFrom(y, doy, 11)
  }

  lemma MonthOfUnique(y: int, doy: int, m: int)
    requires 0 <= m < 12
    requires DaysBeforeMonth(y, m) <= doy < DaysBeforeMonth(y, m + 1)
    ensures MonthOf(y, doy) == m
  {
    DaysBeforeMonthLimit(y, m + 1);
    var r := MonthOf(y, doy);
    if r < m {
      DaysBeforeMonthMonotone(y, r + 1, m);
    } else if r > m {
      DaysBeforeMonthMonotone(y, m + 1, r);
    }
  }

  /** Splitting a second of the day into hours, minutes and seconds. */
  lemma SplitTimeOfDay(secs: int)
    requires 0 <= secs < 86400
    ensures 0 <= secs / 3600 < 24
    ensures 0 <= secs % 3600 / 60 < 60
    ensures secs / 3600 * 3600
      + secs % 3600 / 60 * 60 + secs % 60 == secs
  {
    var h, rest := secs / 3600, secs % 3600;
    assert secs == h * 3600 + rest;
    assert rest == rest / 60 * 60 + rest % 60;
    assert secs % 60 == rest % 60 by {
      assert secs == (h * 60 + rest / 60) * 60 + rest % 60;
      Word.DivModUnique(secs, 60, h * 60 + rest / 60, rest % 60);
    }
  }

  /** A day number and the day-of-year it falls on locate a valid date. */
  lemma DateOfDay(n: int, y: int, m: int)
    requires DaysBeforeYear(y) <= n < DaysBeforeYear(y + 1)
    requires 0 <= m < 12
    requires DaysBeforeMonth(y, m) <= n - DaysBeforeYear(y) < DaysBeforeMonth(y, m + 1)
    ensures 1 <= n - DaysBeforeYear(y) - DaysBeforeMonth(y, m) + 1 <= MonthLength(y, m)
    ensures DayNumber(y, m, n - DaysBeforeYear(y) - DaysBeforeMonth(y, m) + 1) == n
  {
    DaysBeforeMonthStep(y, m);
  }

  /** The date of day `n` (days since 1970-01-01) at midnight. */
  function DateOfDays(n: int): (c: Civil)
    ensures ValidCivil(c) && c.hour == 0 && c.min == 0 && c.sec == 0
    ensures DayNumber(c.year, c.mon, c.mday) == n
  {
    var y := YearOf(n);
    DaysBeforeYearStep(y);
    var doy := n - DaysBeforeYear(y);
    var m := MonthOf(y, doy);
    DateOfDay(n, y, m);
    Civil(y, m, doy - DaysBeforeMonth(y, m) + 1, 0, 0, 0, Weekday(n))
  }

  /** Breaks instant `t` down into its civil UTC date and time of day. */
  function BreakDown(t: int): (c: Civil)
    ensures ValidCivil(c)
    ensures Seconds(c) == t
  {
    var secs := t % 86400;
    SplitTimeOfDay(secs);
    DateOfDays(t / 86400).(hour := secs / 3600, min := secs % 3600 / 60, sec := secs % 60)
  }

  /** `gmtime`: the civil UTC time of instant `t`, the one valid civil time
      that names `t` (see `GmtimeNames`). */
  function Gmtime(t: int): Civil {
    CivilTimeUnique(t);
    var c :| ValidCivil(c) && Seconds(c) == t;
    c
  }

  /** `gmtime` yields a real civil time, and one that names `t`. */
  lemma GmtimeNames(t: int)
    ensures ValidCivil(Gmtime(t)) && Seconds(Gmtime(t)) == t
  {
    CivilTimeUnique(t);
  }

  /** Exactly one valid civil time names each instant. */
  lemma CivilTimeUnique(t: int)
    ensures ValidCivil(BreakDown(t)) && Seconds(BreakDown(t)) == t
    ensures forall c | ValidCivil(c) && Seconds(c) == t :: c == BreakDown(t)
  {
    forall c | ValidCivil(c) && Seconds(c) == t
      ensures c == BreakDown(t)
    {
      BreakDownOfSeconds(c);
    }
  }

  /** A valid date's day number lies inside its own year and month. */
  lemma DayInYear(c: Civil)
    requires ValidCivil(c)
    ensures var n := DayNumber(c.year, c.mon, c.mday);
      && DaysBeforeYear(c.year) <= n < DaysBeforeYear(c.year + 1)
      && DaysBeforeMonth(c.year, c.mon) <= n - DaysBeforeYear(c.year) < DaysBeforeMonth(c.year, c.mon + 1)
  {
    DaysBeforeMonthStep(c.year, c.mon);
    DaysBeforeMonthLimit(c.year, c.mon + 1);
    DaysBeforeYearStep(c.year);
  }

  /** A time of day splits back into the hour, minute and second it was
      built from. */
  lemma TimeOfDayParts(hour: int, min: int, sec: int)
    requires 0 <= hour < 24 && 0 <= min < 60 && 0 <= sec < 60
    ensures var tod := hour * 3600 + min * 60 + sec;
      tod / 3600 == hour && tod % 3600 / 60 == min && tod % 60 == sec
  {
    var tod := hour * 3600 + min * 60 + sec;
    Word.DivModUnique(tod, 3600, hour, min * 60 + sec);
    Word.DivModUnique(min * 60 + sec, 60, min, sec);
    Word.DivModUnique(tod, 60, hour * 60 + min, sec);
  }

  /** The day number of a valid date leads back to that date. */
  lemma DateOfDayNumber(c: Civil)
    requires ValidCivil(c)
    ensures DateOfDays(DayNumber(c.year, c.mon, c.mday)) == c.(hour := 0, min := 0, sec := 0)
  {
    var n := DayNumber(c.year, c.mon, c.mday);
    DayInYear(c);
    YearOfUnique(n, c.year);
    MonthOfUnique(c.year, n - DaysBeforeYear(c.year), c.mon);
    var d := DateOfDays(n);
    assert d.year == c.year && d.mon == c.mon;
  }

  lemma BreakDownOfSeconds(c: Civil)
    requires ValidCivil(c)
    ensures BreakDown(Seconds(c)) == c
  {
    var t := Seconds(c);
    var n := DayNumber(c.year, c.mon, c.mday);
    var tod := c.hour * 3600 + c.min * 60 + c.sec;
    assert t == n * 86400 + tod && 0 <= tod < 86400;
    Word.DivModUnique(t, 86400, n, tod);
    DateOfDayNumber(c);
    TimeOfDayParts(c.hour, c.min, c.sec);
  }

  /** `gmtime` inverts `Seconds` on every valid civil time. */
  lemma GmtimeOfSeconds(c: Civil)
    requires ValidCivil(c)
    ensures Gmtime(Seconds(c)) == c
  {
    CivilTimeUnique(Seconds(c));
  }

  lemma DaysBeforeMonthLimit(y: int, m: int)
    requires 0 <= m <= 12
    ensures DaysBeforeMonth(y, m) <= YearLength(y)
  {
  }

  lemma DaysBeforeMonthMonotone(y: int, a: int, b: int)
    requires 0 <= a <= b <= 12
    ensures DaysBeforeMonth(y, a) <= DaysBeforeMonth(y, b)
  {
  }

  /** Within one year, a date in an earlier month is an earlier day. */
  lemma EarlierMonthEarlierDay(c1: Civil, c2: Civil)
    requires ValidCivil(c1) && ValidCivil(c2)
    requires c1.year == c2.year && c1.mon < c2.mon
    ensures DayNumber(c1.year, c1.mon, c1.mday) < DayNumber(c2.year, c2.mon, c2.mday)
    ensures Seconds(c1) < Seconds(c2)
  {
    DaysBeforeMonthStep(c1.year, c1.mon);
    DaysBeforeMonthMonotone(c1.year, c1.mon + 1, c2.mon);
  }

  // ---------------------------------------------------------------------
  // mktime

  /** `mktime` with the host zone UTC: the instant of the given broken-down
      time, after normalising an out-of-range month into the neighbouring
      year (month index 12 is January of `year + 1`) and letting excess days,
      hours, minutes and seconds carry over. */
  function MkTime(year: int, mon: int, mday: int, hour: int, min: int, sec: int): (t: int)
    ensures 1 <= mday <= 28 && 0 <= hour < 24 && 0 <= min < 60 && 0 <= sec < 60 ==>
      var c := Gmtime(t);
      c.year == year + mon / 12 && c.mon == mon % 12 && c.mday == mday
        && c.hour == hour && c.min == min && c.sec == sec
  {
    var y, m := year + mon / 12, mon % 12;
    var t := DayNumber(y, m, mday) * 86400 + hour * 3600 + min * 60 + sec;
    if 1 <= mday <= 28 && 0 <= hour < 24 && 0 <= min < 60 && 0 <= sec < 60 then
      var c := Civil(y, m, mday, hour, min, sec, Weekday(DayNumber(y, m, mday)));
      assert MonthLength(y, m) >= 28;
      assert ValidCivil(c);
      assert Seconds(c) == t;
      GmtimeOfSeconds(c);
      t
    else
      t
  }

  /** The `tm_wday` that `mktime` writes back: the weekday of the date `t`
      falls on. */
  function WeekdayOf(t: int): (r: int)
    ensures r == Gmtime(t).wday
  {
    Weekday(t / 86400)
  }
}
