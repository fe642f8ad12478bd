/** Adding months and years. A second count is given here by its month k, its day of the month d
    (from zero) and its second of the day r. */
module CalendarSteps {
  import opened Numbers
  import opened Calendar
  import opened PlotTime

  function Sec(k: int, d: int, r: int): int {
    SECONDS_PER_DAY * (MonthStart(k) + d) + r
  }

  /** Second r of day d (from zero) of month k, a day that month has. */
  predicate InMonth(k: int, d: int, r: int) {
    0 <= d < MonthLength(k) && 0 <= r < SECONDS_PER_DAY
  }

  /** k, d and r can be read from the fields. */
  lemma SecFields(k: int, d: int, r: int, s: int)
    requires InMonth(k, d, r) && s == Sec(k, d, r)
    ensures GmTime(s) == BreakDown(k, MonthStart(k) + d, r)
  {
    hide MonthStart, GmTime, GetDaysInMonth;
    GmTimeOn(s, k, MonthStart(k) + d, r);
  }

  /** One month forward or back moves to the same day of the neighbouring month, counted from the
      first of that month, whether or not that month has such a day. */
  lemma StepMonthMoves(k: int, d: int, r: int, forward: bool)
    requires InMonth(k, d, r)
    ensures StepMonth(Sec(k, d, r), forward) == Sec(if forward then k + 1 else k - 1, d, r)
  {
    hide GmTime;
    SecFields(k, d, r, Sec(k, d, r));
    MonthStartNext(k);
    MonthStartNext(k - 1);
    assert (k - 1) / 12 == k / 12 - (if k % 12 == 0 then 1 else 0);
    assert (k - 1) % 12 == if k % 12 == 0 then 11 else k % 12 - 1;
  }

  /** Years differ only in February, so only from March on. */
  lemma {:induction false} YearsDifferInFebruary(y: int, z: int, m: int)
    requires 0 <= m <= 12
    ensures DaysBeforeMonth(y, m) - DaysBeforeMonth(z, m) == if m <= 1 then 0 else YearLength(y) - YearLength(z)
  {
    if m > 0 {
      YearsDifferInFebruary(y, z, m - 1);
    }
  }

  /** The fields of `to` name the same day of month and time of day as `from`, `months` months later. */
  predicate SameDayAndTime(from: Tm, to: Tm, months: int) {
    && MonthNumber(to) == MonthNumber(from) + months
    && to.mday == from.mday && to.hour == from.hour && to.min == from.min && to.sec == from.sec
  }

  /** Every instant is read off by its fields. */
  lemma SecOfFields(s: int, tm: Tm)
    requires tm == GmTime(s)
    ensures InMonth(MonthNumber(tm), tm.mday - 1, SecondOfDay(tm))
    ensures s == Sec(MonthNumber(tm), tm.mday - 1, SecondOfDay(tm))
    ensures MonthNumber(tm) / 12 == tm.year + 1900 && MonthNumber(tm) % 12 == tm.mon
  {
    TimeGmOfGmTime(s);
    MonthNumberParts(tm);
  }

  /** A result is the same day and time `months` later exactly when that day exists and is the result. */
  lemma LandsIff(s: int, tm: Tm, to: int, months: int)
    requires tm == GmTime(s)
    ensures var k, d, r := MonthNumber(tm) + months, tm.mday - 1, SecondOfDay(tm);
            SameDayAndTime(tm, GmTime(to), months) <==> d < MonthLength(k) && to == Sec(k, d, r)
  {
    hide GmTime, MonthStart;
    var k, d, r := MonthNumber(tm) + months, tm.mday - 1, SecondOfDay(tm);
    SecOfFields(s, tm);
    SecOfFields(to, GmTime(to));
    if d < MonthLength(k) && to == Sec(k, d, r) {
      SecFields(k, d, r, to);
      SecFields(k - months, d, r, s);
    }
  }

  // ---------- Adding months ----------

  /** j months or years on from k, or back. */
  function Away(k: int, j: int, forward: bool): int {
    if forward then k + j else k - j
  }

  /** Each of the n months after k in the given direction has day d (from zero). */
  predicate AllHave(k: int, d: int, n: nat, forward: bool) {
    forall j :: 1 <= j <= n ==> d < MonthLength(Away(k, j, forward))
  }

  /** Day d of a month that ends before it is an early day of the month after. */
  lemma DayOverflows(k: int, d: int, r: int)
    requires MonthLength(k) <= d <= 30
    ensures Sec(k, d, r) == Sec(k + 1, d - MonthLength(k), r) && 0 <= d - MonthLength(k) <= 2
  {
    MonthStartNext(k);
  }

  /** n steps reach the same day if all months on the way have it. Once one has not, the steps go on
      from one of the first three days of the month after it, and stay one month late. */
  lemma {:induction false} StepMonthsMoves(k: int, d: int, r: int, n: nat, forward: bool) returns (late: int)
    requires InMonth(k, d, r)
    ensures var to := StepMonths(Sec(k, d, r), n, forward);
            if AllHave(k, d, n, forward) then to == Sec(Away(k, n, forward), d, r)
            else 0 <= late <= 2 && to == Sec(Away(k, n, forward) + 1, late, r)
  {
    hide StepMonth, Sec, GetDaysInMonth;
    late := 0;
    if n > 0 {
      late := StepMonthsMoves(k, d, r, n - 1, forward);
      var j, m := Away(k, n - 1, forward), Away(k, n, forward);
      if AllHave(k, d, n - 1, forward) {
        StepMonthMoves(j, d, r, forward);
        if d >= MonthLength(m) {
          DayOverflows(m, d, r);
          late := d - MonthLength(m);
        }
      } else {
        StepMonthMoves(j + 1, late, r, forward);
      }
    }
  }

  /** A month starts after every day of the month before. */
  lemma LaterMonth(k: int, d: int, late: int, r: int)
    requires d < MonthLength(k) && 0 <= late
    ensures Sec(k, d, r) < Sec(k + 1, late, r)
  {
    MonthStartNext(k);
  }

  /** Exactly when adding any number of months, forward or back, keeps the day of the month: every month
      on the way, and not only the last one, has that day. Otherwise the result lies in the first
      three days of the month after the intended one. */
  lemma AddMonthsExact(t: Time, count: int)
    requires t.Normal()
    ensures var tm, to := GmTime(t.S), GmTime(Added(t, Mo, count).S);
            && (SameDayAndTime(tm, to, count) <==> AllHave(MonthNumber(tm), tm.mday - 1, Abs(count), count > 0))
            && (!SameDayAndTime(tm, to, count) ==> 1 <= to.mday <= 3 && MonthNumber(to) == MonthNumber(tm) + count + 1)
    ensures Added(t, Mo, count).Us == t.Us
  {
    hide GmTime, StepMonths, Sec, MonthLength;
    var tm, to := GmTime(t.S), Added(t, Mo, count).S;
    var k, d, r := MonthNumber(tm), tm.mday - 1, SecondOfDay(tm);
    SecOfFields(t.S, tm);
    var late := StepMonthsMoves(k, d, r, Abs(count), count > 0);
    LandsIff(t.S, tm, to, count);
    assert Away(k, Abs(count), count > 0) == k + count;
    if AllHave(k, d, Abs(count), count > 0) {
      if count != 0 {
        assert d < MonthLength(Away(k, Abs(count), count > 0));
      }
    } else {
      if d < MonthLength(k + count) {
        LaterMonth(k + count, d, late, r);
      }
      LateFields(k + count + 1, late, r, to);
    }
  }

  lemma LateFields(k: int, late: int, r: int, to: int)
    requires 0 <= late <= 2 && 0 <= r < SECONDS_PER_DAY && to == Sec(k, late, r)
    ensures GmTime(to).mday == late + 1 && MonthNumber(GmTime(to)) == k
  {
    hide GmTime;
    SecFields(k, late, r, to);
  }

  /** Up to the 28th, adding any number of months, forward or back, keeps the day and the time. */
  lemma AddMonthsKeepsDay(t: Time, count: int)
    requires t.Normal() && GmTime(t.S).mday <= 28
    ensures var out := Added(t, Mo, count);
            out.Us == t.Us && SameDayAndTime(GmTime(t.S), GmTime(out.S), count)
  {
    hide GmTime;
    AddMonthsExact(t, count);
  }

  /** ... so taking the months away again gives back the original time. */
  lemma AddMonthsRoundTrip(t: Time, count: int)
    requires t.Normal() && GmTime(t.S).mday <= 28
    ensures Added(Added(t, Mo, count), Mo, -count) == t
  {
    hide GmTime;
    var out := Added(t, Mo, count);
    AddMonthsKeepsDay(t, count);
    AddMonthsKeepsDay(out, -count);
    LandsIff(out.S, GmTime(out.S), Added(out, Mo, -count).S, -count);
    SecOfFields(t.S, GmTime(t.S));
  }

  /** For a single month the exact condition is that the neighbouring month has the day at all. */
  lemma AddMonthExact(t: Time, forward: bool)
    requires t.Normal()
    ensures var count, tm := if forward then 1 else -1, GmTime(t.S);
            SameDayAndTime(tm, GmTime(Added(t, Mo, count).S), count) <==> tm.mday <= MonthLength(MonthNumber(tm) + count)
  {
    hide GmTime, Added, MonthLength;
    var count, tm := if forward then 1 else -1, GmTime(t.S);
    AddMonthsExact(t, count);
    assert Away(MonthNumber(tm), 1, forward) == MonthNumber(tm) + count;
  }

  // ---------- Adding years ----------

  /** Second r of day q (from zero) of year y. */
  function YearSec(y: int, q: int, r: int): int {
    SECONDS_PER_DAY * (DaysBeforeYear(y) + q) + r
  }

  /** Years tile the days, as months do. */
  lemma YearOfDay(y: int, day: int)
    requires DaysBeforeYear(y) <= day < DaysBeforeYear(y) + YearLength(y)
    ensures MonthContaining(day) / 12 == y
  {
    hide MonthStart, MonthContaining, DaysBeforeYear, YearLength;
    var k := MonthContaining(day);
    YearStart(y);
    YearStart(y + 1);
    YearStartNext(y);
    if k < 12 * y {
      MonthStartIncreases(k + 1, 12 * y);
    } else if k >= 12 * (y + 1) {
      MonthStartIncreases(12 * (y + 1), k);
    }
  }

  /** One year forward or back moves to the same day of the year, counted from 1 January. */
  lemma StepYearMoves(y: int, q: int, r: int, forward: bool)
    requires 0 <= q < YearLength(y) && 0 <= r < SECONDS_PER_DAY
    ensures StepYear(YearSec(y, q, r), forward) == YearSec(Away(y, 1, forward), q, r)
  {
    hide MonthContaining, MonthStart, YearLength;
    var day := DaysBeforeYear(y) + q;
    YearOfDay(y, day);
    SplitDays(YearSec(y, q, r), day, r);
    YearStartNext(y);
    YearStartNext(y - 1);
  }

  /** Up to day 365 of the year the steps keep the day of the year. Day 366 becomes the first day of
      the year after, and from then on stays the first. */
  lemma {:induction false} StepYearsMoves(y: int, q: int, r: int, n: nat, forward: bool)
    requires 0 <= q < YearLength(y) && 0 <= r < SECONDS_PER_DAY
    ensures StepYears(YearSec(y, q, r), n, forward)
         == if q < 365 || n == 0 then YearSec(Away(y, n, forward), q, r) else YearSec(Away(y, n, forward) + 1, 0, r)
  {
    hide StepYear, DaysBeforeYear;
    if n > 0 {
      StepYearsMoves(y, q, r, n - 1, forward);
      var z := Away(y, n - 1, forward);
      if q < 365 || n == 1 {
        StepYearMoves(z, q, r, forward);
        YearStartNext(Away(y, 1, forward));
      } else {
        StepYearMoves(z + 1, 0, r, forward);
      }
    }
  }

  /** The condition for `count` years: the date exists in the other year, from March on that year is as
      long as the first, and the date is not day 366. */
  predicate YearsLand(tm: Tm, count: int)
    requires 0 <= tm.mon < 12
  {
    var year := tm.year + 1900;
    count == 0
    || (tm.mday <= GetDaysInMonth(year + count, tm.mon)
        && (tm.mon <= 1 || IsLeapYear(year) == IsLeapYear(year + count))
        && tm.yday < 365)
  }

  /** The second count of a date in month m of year y. */
  lemma SecOfYear(y: int, m: int, d: int, r: int)
    requires 0 <= m < 12
    ensures Sec(12 * y + m, d, r) == YearSec(y, DaysBeforeMonth(y, m) + d, r)
    ensures MonthLength(12 * y + m) == GetDaysInMonth(y, m)
  {
    hide MonthStart, DaysBeforeYear, DaysBeforeMonth, GetDaysInMonth;
    YearStart(y);
    MonthInYear(y, m);
    DivModIs(12 * y + m, 12, y, m);
  }

  lemma {:induction false} MonthEndsInYear(y: int, m: int)
    requires 0 <= m < 12
    ensures DaysBeforeMonth(y, m) + GetDaysInMonth(y, m) <= YearLength(y)
    decreases 12 - m
  {
    if m == 11 {
      MonthsFillYear(y);
    } else {
      MonthEndsInYear(y, m + 1);
    }
  }

  /** Exactly when adding any number of years, forward or back, keeps the date. */
  lemma AddYearsExact(t: Time, count: int)
    requires t.Normal()
    ensures var tm, to := GmTime(t.S), GmTime(Added(t, Yr, count).S);
            SameDayAndTime(tm, to, 12 * count) <==> YearsLand(tm, count)
    ensures Added(t, Yr, count).Us == t.Us
  {
    hide GmTime, MonthStart, GetDaysInMonth, IsLeapYear, DaysBeforeYear, DaysBeforeMonth, StepYears;
    var tm, to := GmTime(t.S), Added(t, Yr, count).S;
    var y, m, d, r := tm.year + 1900, tm.mon, tm.mday - 1, SecondOfDay(tm);
    var q := DaysBeforeMonth(y, m) + d;
    SecOfFields(t.S, tm);
    TimeGmOfGmTime(t.S);
    SecOfYear(y, m, d, r);
    SecOfYear(y + count, m, d, r);
    MonthEndsInYear(y, m);
    MonthEndsInYear(y + count, m);
    StepYearsMoves(y, q, r, Abs(count), count > 0);
    assert Away(y, Abs(count), count > 0) == y + count;
    YearsDifferInFebruary(y + count, y, m);
    LandsIff(t.S, tm, to, 12 * count);
    YearStartNext(y + count);
  }

  /** 1 January to 28 February, the dates before any leap day. */
  predicate BeforeLeapDay(tm: Tm) {
    tm.mon == 0 || (tm.mon == 1 && tm.mday <= 28)
  }

  /** From 1 January to 28 February, adding any number of years keeps the date and the time. */
  lemma AddYearsKeepsDate(t: Time, count: int)
    requires t.Normal() && BeforeLeapDay(GmTime(t.S))
    ensures var out := Added(t, Yr, count);
            out.Us == t.Us && SameDayAndTime(GmTime(t.S), GmTime(out.S), 12 * count)
  {
    hide GmTime, Added;
    AddYearsExact(t, count);
    TimeGmOfGmTime(t.S);
  }

  lemma AddYearsRoundTrip(t: Time, count: int)
    requires t.Normal() && BeforeLeapDay(GmTime(t.S))
    ensures Added(Added(t, Yr, count), Yr, -count) == t
  {
    hide GmTime;
    var out := Added(t, Yr, count);
    AddYearsKeepsDate(t, count);
    SecOfFields(t.S, GmTime(t.S));
    SecOfFields(out.S, GmTime(out.S));
    AddYearsKeepsDate(out, -count);
    LandsIff(out.S, GmTime(out.S), Added(out, Yr, -count).S, 12 * -count);
  }

  // ---------- Where the steps fail ----------

  lemma MonthsFrom1970()
    ensures MonthStart(EPOCH_MONTH) == 0 && MonthStart(EPOCH_MONTH + 1) == 31 && MonthStart(EPOCH_MONTH + 2) == 59
    ensures MonthLength(EPOCH_MONTH) == 31 && MonthLength(EPOCH_MONTH + 1) == 28 && MonthLength(EPOCH_MONTH + 2) == 31
  {
    MonthStartNext(EPOCH_MONTH);
    MonthStartNext(EPOCH_MONTH + 1);
  }

  /** A month after 31 January 1970 is 3 March. */
  lemma MonthEndFails(t: Time)
    requires t == Time(30 * SECONDS_PER_DAY, 0)
    ensures var from := GmTime(t.S); from.year == 70 && from.mon == 0 && from.mday == 31
    ensures var to := GmTime(Added(t, Mo, 1).S); to.year == 70 && to.mon == 2 && to.mday == 3
  {
    hide GmTime, MonthStart, MonthLength, StepMonths;
    MonthsFrom1970();
    StepMonthMoves(EPOCH_MONTH, 30, 0, true);
    OneStep(t.S);
    SecFields(EPOCH_MONTH, 30, 0, t.S);
    SecFields(EPOCH_MONTH + 2, 2, 0, Added(t, Mo, 1).S);
  }

  lemma OneStep(s: int)
    ensures StepMonths(s, 1, true) == StepMonth(s, true)
  {
    assert StepMonths(s, 0, true) == s;
  }

  lemma YearsFrom1972()
    ensures DaysBeforeYear(1972) == 730 && DaysBeforeYear(1973) == 1096 && DaysBeforeYear(1974) == 1461
  {
    YearStartNext(1970);
    YearStartNext(1971);
    YearStartNext(1972);
    YearStartNext(1973);
  }

  /** The fields of a date, given the day of the year. */
  lemma FieldsOfDate(y: int, m: int, d: int, s: int)
    requires 0 <= m < 12 && 0 <= d < GetDaysInMonth(y, m) && s == YearSec(y, DaysBeforeMonth(y, m) + d, 0)
    ensures var tm := GmTime(s); tm.year + 1900 == y && tm.mon == m && tm.mday == d + 1
  {
    hide GmTime, GetDaysInMonth, DaysBeforeMonth, DaysBeforeYear;
    SecOfYear(y, m, d, 0);
    SecFields(12 * y + m, d, 0, s);
    DivModIs(12 * y + m, 12, y, m);
  }

  /** A year after 1 March 1972 is 2 March 1973. */
  lemma LeapYearFails(t: Time)
    requires t == Time(790 * SECONDS_PER_DAY, 0)
    ensures var from := GmTime(t.S); from.year == 72 && from.mon == 2 && from.mday == 1
    ensures var to := GmTime(Added(t, Yr, 1).S); to.year == 73 && to.mon == 2 && to.mday == 2
  {
    hide GmTime, DaysBeforeYear, StepYears;
    YearsFrom1972();
    StepYearsMoves(1972, 60, 0, 1, true);
    FieldsOfDate(1972, 2, 0, t.S);
    FieldsOfDate(1973, 2, 1, Added(t, Yr, 1).S);
  }

  /** A year after 31 December 1972 is 1 January 1974. */
  lemma LastOfLeapYearFails(t: Time)
    requires t == Time(1095 * SECONDS_PER_DAY, 0)
    ensures var from := GmTime(t.S); from.year == 72 && from.mon == 11 && from.mday == 31
    ensures var to := GmTime(Added(t, Yr, 1).S); to.year == 74 && to.mon == 0 && to.mday == 1
  {
    hide GmTime, DaysBeforeYear, StepYears;
    YearsFrom1972();
    assert DaysBeforeMonth(1972, 11) == 335 && GetDaysInMonth(1972, 11) == 31 by {
      MonthsFillYear(1972);
    }
    hide GetDaysInMonth, YearLength;
    StepYearsMoves(1972, 365, 0, 1, true);
    FieldsOfDate(1972, 11, 30, t.S);
    FieldsOfDate(1974, 0, 0, Added(t, Yr, 1).S);
  }
}
