/** The proleptic Gregorian calendar behind ImPlot's time axis. `GmTime` and `TimeGm` stand for the
    C library's gmtime_r and timegm; `PosixSeconds` is the formula of section 4.16 (Seconds Since
    the Epoch) of the POSIX.1-2017 Base Definitions, which fixes both from 1970 on. */
module Calendar {
  import opened Numbers

  const SECONDS_PER_DAY := 86400

  /** The C++ operator % agrees with Dafny's when only compared with zero. */
  predicate IsLeapYear(year: int) {
    year % 4 == 0 && (year % 100 != 0 || year % 400 == 0)
  }

  const MONTH_DAYS: seq<int> := [31, 28, 31, 30, 31, 30, 31, 31, 30, 31, 30, 31]

  /** Months are counted from zero. */
  function GetDaysInMonth(year: int, month: int): (days: int)
    requires 0 <= month < 12
    ensures 28 <= days <= 31
  {
    MONTH_DAYS[month] + if month == 1 && IsLeapYear(year) then 1 else 0
  }

  function YearLength(year: int): int {
    365 + if IsLeapYear(year) then 1 else 0
  }

  /** Days from 1 January 1970 to 1 January of `year`, counted year by year. */
  function DaysBeforeYear(year: int): int
    decreases if year < 1970 then 1970 - year else year - 1970
  {
    if year == 1970 then 0
    else if year > 1970 then DaysBeforeYear(year - 1) + YearLength(year - 1)
    else DaysBeforeYear(year + 1) - YearLength(year)
  }

  function DaysBeforeMonth(year: int, month: int): (days: int)
    requires 0 <= month <= 12
    ensures 28 * month <= days <= 31 * month
    decreases month
  {
    if month == 0 then 0 else DaysBeforeMonth(year, month - 1) + GetDaysInMonth(year, month - 1)
  }

  /** Months are numbered from January of year 0. */
  function MonthLength(k: int): (days: int)
    ensures 28 <= days <= 31
  {
    GetDaysInMonth(k / 12, k % 12)
  }

  const EPOCH_MONTH := 1970 * 12

  /** First day of month number k, counted month by month from the epoch. */
  function MonthStart(k: int): int
    decreases if k < EPOCH_MONTH then EPOCH_MONTH - k else k - EPOCH_MONTH
  {
    if k == EPOCH_MONTH then 0
    else if k > EPOCH_MONTH then MonthStart(k - 1) + MonthLength(k - 1)
    else MonthStart(k + 1) - MonthLength(k)
  }

  lemma YearStartNext(year: int)
    ensures DaysBeforeYear(year + 1) == DaysBeforeYear(year) + YearLength(year)
  {
  }

  /** The code's own month table sums to its own year length. */
  lemma MonthsFillYear(year: int)
    ensures DaysBeforeMonth(year, 12) == YearLength(year)
  {
    hide IsLeapYear;
    assert DaysBeforeMonth(year, 3) == 59 + YearLength(year) - 365 + 31;
    assert DaysBeforeMonth(year, 6) == DaysBeforeMonth(year, 3) + 91;
    assert DaysBeforeMonth(year, 9) == DaysBeforeMonth(year, 6) + 92;
  }

  /** The month lengths of the Gregorian calendar without a table: from March on, and from January on, long
      and short months alternate, and July and August are both long. */
  lemma MonthLengthsAlternate(year: int, month: int)
    requires 0 <= month < 12
    ensures month != 1 ==> GetDaysInMonth(year, month) == 30 + (month + 1 + (month + 1) / 8) % 2
    ensures month == 1 ==> GetDaysInMonth(year, month) == if year % 400 == 0 || (year % 4 == 0 && year % 100 != 0) then 29 else 28
  {
    hide *;
    LengthIsTable(year, month);
    TableAlternates(month);
    LeapIff(year);
  }

  lemma LengthIsTable(year: int, month: int)
    requires 0 <= month < 12
    ensures GetDaysInMonth(year, month) == MONTH_DAYS[month] + if month == 1 && IsLeapYear(year) then 1 else 0
  {
    hide IsLeapYear, MONTH_DAYS;
  }

  lemma LeapIff(year: int)
    ensures IsLeapYear(year) <==> year % 400 == 0 || (year % 4 == 0 && year % 100 != 0)
  {
    if year % 400 == 0 {
      DivModIs(year, 4, 100 * (year / 400), 0);
    }
  }

  lemma TableAlternates(month: int)
    requires 0 <= month < 12
    ensures MONTH_DAYS[month] == if month == 1 then 28 else 30 + (month + 1 + (month + 1) / 8) % 2
  {
    assert month in [0, 1, 2, 3, 4, 5, 6, 7, 8, 9, 10, 11];
  }

  /** The days before a month, without a table: five months from March on have 153 days. */
  lemma DaysBeforeMonthIs(year: int, month: int)
    requires 0 <= month <= 12
    ensures DaysBeforeMonth(year, month) ==
            if month <= 1 then 31 * month
            else YearLength(year) - 306 + (153 * (month - 2) + 2) / 5
    decreases month
  {
    hide IsLeapYear;
    if month > 0 {
      DaysBeforeMonthIs(year, month - 1);
      if month > 2 {
        MonthLengthsByFives(year, month - 1);
      }
    }
  }

  lemma MonthLengthsByFives(year: int, month: int)
    requires 2 <= month < 12
    ensures GetDaysInMonth(year, month) == (153 * (month - 1) + 2) / 5 - (153 * (month - 2) + 2) / 5
  {
    assert month in [2, 3, 4, 5, 6, 7, 8, 9, 10, 11];
  }

  lemma MonthStartNext(k: int)
    ensures MonthStart(k + 1) == MonthStart(k) + MonthLength(k)
  {
  }

  lemma {:induction false} YearStart(year: int)
    ensures MonthStart(12 * year) == DaysBeforeYear(year)
    decreases if year < 1970 then 1970 - year else year - 1970
  {
    hide GetDaysInMonth, YearLength;
    if year > 1970 {
      YearStart(year - 1);
      MonthInYear(year - 1, 12);
      MonthsFillYear(year - 1);
    } else if year < 1970 {
      YearStart(year + 1);
      MonthInYear(year, 12);
      MonthsFillYear(year);
    }
  }

  /** Counting by months and counting by years and months agree. */
  lemma {:induction false} MonthInYear(year: int, month: int)
    requires 0 <= month <= 12
    ensures MonthStart(12 * year + month) == MonthStart(12 * year) + DaysBeforeMonth(year, month)
    decreases month
  {
    hide GetDaysInMonth;
    if month > 0 {
      var k := 12 * year + month - 1;
      MonthInYear(year, month - 1);
      MonthStartNext(k);
      DivModIs(k, 12, year, month - 1);
    }
  }

  lemma {:induction false} MonthStartIncreases(j: int, k: int)
    requires j <= k
    ensures MonthStart(j) + 28 * (k - j) <= MonthStart(k)
    decreases k - j
  {
    if j < k {
      MonthStartIncreases(j, k - 1);
      MonthStartNext(k - 1);
    }
  }

  /** The month a day lies in, searched upwards or downwards from k. */
  function MonthUpFrom(k: int, day: int): (m: int)
    requires MonthStart(k) <= day
    ensures MonthStart(m) <= day < MonthStart(m + 1)
    decreases day - MonthStart(k)
  {
    MonthStartNext(k);
    if day < MonthStart(k + 1) then k else MonthUpFrom(k + 1, day)
  }

  function MonthDownFrom(k: int, day: int): (m: int)
    requires day < MonthStart(k + 1)
    ensures MonthStart(m) <= day < MonthStart(m + 1)
    decreases MonthStart(k + 1) - day
  {
    MonthStartNext(k);
    if MonthStart(k) <= day then k else MonthDownFrom(k - 1, day)
  }

  function MonthContaining(day: int): (k: int)
    ensures MonthStart(k) <= day < MonthStart(k + 1)
  {
    if MonthStart(EPOCH_MONTH) <= day then MonthUpFrom(EPOCH_MONTH, day) else MonthDownFrom(EPOCH_MONTH - 1, day)
  }

  /** Months tile the days: no two months hold the same day. */
  lemma MonthUnique(k: int, day: int)
    requires MonthStart(k) <= day < MonthStart(k) + MonthLength(k)
    ensures MonthContaining(day) == k
  {
    var m := MonthContaining(day);
    MonthStartNext(k);
    if m < k {
      MonthStartIncreases(m + 1, k);
    } else if k < m {
      MonthStartIncreases(k + 1, m);
    }
  }

  /** The fields of struct tm; months from 0, years from 1900, weekdays from Sunday = 0. */
  datatype Tm = Tm(sec: int, min: int, hour: int, mday: int, mon: int, year: int, wday: int, yday: int)

  function MonthNumber(tm: Tm): int {
    12 * (tm.year + 1900) + tm.mon
  }

  /** Second r of the given day, which lies in month k. */
  function BreakDown(k: int, day: int, r: int): Tm {
    Tm(r % 60, r / 60 % 60, r / 3600, day - MonthStart(k) + 1, k % 12, k / 12 - 1900, (day + 4) % 7, day - DaysBeforeYear(k / 12))
  }

  /** gmtime_r. */
  function GmTime(s: int): (tm: Tm)
    ensures 0 <= tm.mon < 12
  {
    BreakDown(MonthContaining(s / SECONDS_PER_DAY), s / SECONDS_PER_DAY, s % SECONDS_PER_DAY)
  }

  /** timegm, which reads the date from year, month and day of month and ignores wday and yday. */
  function TimeGm(tm: Tm): int {
    SECONDS_PER_DAY * DayOf(tm) + SecondOfDay(tm)
  }

  /** A broken-down time whose fields are all in range and agree with each other. */
  predicate ValidTm(tm: Tm) {
    && 0 <= tm.sec < 60 && 0 <= tm.min < 60 && 0 <= tm.hour < 24
    && 0 <= tm.mon < 12 && 1 <= tm.mday <= GetDaysInMonth(tm.year + 1900, tm.mon)
    && tm.yday == DaysBeforeMonth(tm.year + 1900, tm.mon) + tm.mday - 1
    && tm.wday == (DaysBeforeYear(tm.year + 1900) + tm.yday + 4) % 7
  }

  /** Section 4.16 of the POSIX.1-2017 Base Definitions. */
  function PosixSeconds(tm: Tm): int {
    tm.sec + tm.min * 60 + tm.hour * 3600 + tm.yday * 86400
    + (tm.year - 70) * 31536000 + ((tm.year - 69) / 4) * 86400
    - ((tm.year - 1) / 100) * 86400 + ((tm.year + 299) / 400) * 86400
  }

  /** Breaking a timestamp down and putting it together again is the identity. */
  lemma TimeGmOfGmTime(s: int)
    ensures ValidTm(GmTime(s)) && TimeGm(GmTime(s)) == s
  {
    hide MonthStart, DaysBeforeYear, DaysBeforeMonth, GetDaysInMonth, MonthContaining, BreakDown;
    var day, r := s / SECONDS_PER_DAY, s % SECONDS_PER_DAY;
    var k := MonthContaining(day);
    MonthStartNext(k);
    BreakDownValid(k, day, r);
  }

  lemma BreakDownValid(k: int, day: int, r: int)
    requires MonthStart(k) <= day < MonthStart(k) + MonthLength(k) && 0 <= r < SECONDS_PER_DAY
    ensures ValidTm(BreakDown(k, day, r)) && TimeGm(BreakDown(k, day, r)) == SECONDS_PER_DAY * day + r
  {
    hide MonthStart, DaysBeforeYear, DaysBeforeMonth, GetDaysInMonth;
    YearStart(k / 12);
    MonthInYear(k / 12, k % 12);
    SplitSeconds(r);
  }

  /** Hour, minute and second of a time of day. */
  lemma SplitSeconds(r: int)
    requires 0 <= r < SECONDS_PER_DAY
    ensures 0 <= r / 3600 < 24 && 3600 * (r / 3600) + 60 * (r / 60 % 60) + r % 60 == r
  {
  }

  lemma JoinSeconds(r: int, hour: int, min: int, sec: int)
    requires 0 <= min < 60 && 0 <= sec < 60 && r == 3600 * hour + 60 * min + sec
    ensures r / 3600 == hour && r / 60 % 60 == min && r % 60 == sec
  {
    assert r / 60 == 60 * hour + min;
  }

  lemma SplitDays(s: int, day: int, r: int)
    requires 0 <= r < SECONDS_PER_DAY && s == SECONDS_PER_DAY * day + r
    ensures s / SECONDS_PER_DAY == day && s % SECONDS_PER_DAY == r
  {
  }

  /** Which month a second falls in, and so its date, is decided by its day alone. */
  lemma GmTimeOn(s: int, k: int, day: int, r: int)
    requires MonthStart(k) <= day < MonthStart(k) + MonthLength(k)
    requires 0 <= r < SECONDS_PER_DAY && s == SECONDS_PER_DAY * day + r
    ensures GmTime(s) == BreakDown(k, day, r)
  {
    SplitDays(s, day, r);
    MonthUnique(k, day);
  }

  function SecondOfDay(tm: Tm): int {
    3600 * tm.hour + 60 * tm.min + tm.sec
  }

  function DayOf(tm: Tm): int {
    MonthStart(MonthNumber(tm)) + tm.mday - 1
  }

  lemma MonthNumberParts(tm: Tm)
    requires 0 <= tm.mon < 12
    ensures MonthNumber(tm) / 12 == tm.year + 1900 && MonthNumber(tm) % 12 == tm.mon
    ensures MonthStart(MonthNumber(tm)) == DaysBeforeYear(tm.year + 1900) + DaysBeforeMonth(tm.year + 1900, tm.mon)
  {
    YearStart(tm.year + 1900);
    MonthInYear(tm.year + 1900, tm.mon);
  }

  lemma ValidTmIsBreakDown(tm: Tm, k: int, r: int)
    requires ValidTm(tm) && k == MonthNumber(tm) && k / 12 == tm.year + 1900 && k % 12 == tm.mon
    requires MonthStart(k) == DaysBeforeYear(k / 12) + DaysBeforeMonth(k / 12, k % 12)
    requires r / 3600 == tm.hour && r / 60 % 60 == tm.min && r % 60 == tm.sec
    ensures 1 <= tm.mday <= MonthLength(k)
    ensures BreakDown(k, DayOf(tm), r) == tm
  {
    hide MonthStart, DaysBeforeYear, DaysBeforeMonth, GetDaysInMonth;
  }

  lemma GmTimeOfTimeGm(tm: Tm)
    requires ValidTm(tm)
    ensures GmTime(TimeGm(tm)) == tm
  {
    hide GmTime, MonthStart, DaysBeforeYear, DaysBeforeMonth, GetDaysInMonth, BreakDown;
    var k, r, day := MonthNumber(tm), SecondOfDay(tm), DayOf(tm);
    assert BreakDown(k, day, r) == tm && MonthStart(k) <= day < MonthStart(k) + MonthLength(k) by {
      JoinSeconds(r, tm.hour, tm.min, tm.sec);
      MonthNumberParts(tm);
      ValidTmIsBreakDown(tm, k, r);
    }
    GmTimeOn(TimeGm(tm), k, day, r);
  }

  /** The year terms of the POSIX formula, in days, for a full year number. */
  function PosixYearDays(year: int): int {
    365 * (year - 1970) + (year - 1969) / 4 - (year - 1901) / 100 + (year - 1601) / 400
  }

  lemma NextQuotient(x: int, d: int)
    requires d > 0
    ensures (x + 1) / d - x / d == if (x + 1) % d == 0 then 1 else 0
  {
    if x % d == d - 1 {
      DivModIs(x + 1, d, x / d + 1, 0);
    } else {
      DivModIs(x + 1, d, x / d, x % d + 1);
    }
  }

  lemma PosixYearStep(year: int)
    ensures PosixYearDays(year + 1) == PosixYearDays(year) + YearLength(year)
  {
    NextQuotient(year - 1969, 4);
    NextQuotient(year - 1901, 100);
    NextQuotient(year - 1601, 400);
    assert (year - 1968) % 4 == year % 4;
    assert (year - 1900) % 100 == year % 100;
    assert (year - 1600) % 400 == year % 400;
    assert year % 400 == 0 ==> year % 100 == 0;
    assert year % 100 == 0 ==> year % 4 == 0;
  }

  /** The POSIX year terms count exactly the days IsLeapYear gives, for every year. */
  lemma {:induction false} YearsArePosix(year: int)
    ensures DaysBeforeYear(year) == PosixYearDays(year)
    decreases if year < 1970 then 1970 - year else year - 1970
  {
    if year > 1970 {
      YearsArePosix(year - 1);
      PosixYearStep(year - 1);
    } else if year < 1970 {
      YearsArePosix(year + 1);
      PosixYearStep(year);
    }
  }

  lemma PosixByDays(tm: Tm)
    ensures PosixSeconds(tm)
         == SECONDS_PER_DAY * (PosixYearDays(tm.year + 1900) + tm.yday) + 3600 * tm.hour + 60 * tm.min + tm.sec
  {
  }

  /** timegm is the POSIX formula, so gmtime is the one inverse POSIX allows. */
  lemma TimeGmIsPosix(tm: Tm)
    requires ValidTm(tm)
    ensures TimeGm(tm) == PosixSeconds(tm)
  {
    hide PosixSeconds, PosixYearDays, DaysBeforeYear, DaysBeforeMonth, MonthStart, GetDaysInMonth, IsLeapYear;
    PosixByDays(tm);
    YearsArePosix(tm.year + 1900);
    YearStart(tm.year + 1900);
    MonthInYear(tm.year + 1900, tm.mon);
  }

  lemma GmTimeIsPosixInverse(s: int, tm: Tm)
    requires ValidTm(tm)
    ensures PosixSeconds(tm) == s <==> tm == GmTime(s)
  {
    TimeGmIsPosix(tm);
    GmTimeOfTimeGm(tm);
    TimeGmOfGmTime(s);
  }
}
