/** The six-week day grid of ShowDatePicker. */
module DatePicker {
  import opened Numbers
  import opened Calendar
  import opened PlotTime
  import opened CalendarSteps
  import opened TimeBoundaries
  import opened TimeRounding

  /** One cell: the date on its button, and whether it is shown greyed as a day of another month. */
  datatype Cell = Cell(year: int, month: int, day: int, offMonth: bool) {
    predicate Valid() {
      0 <= month < 12 && 1 <= day <= GetDaysInMonth(year, month)
    }

    /** Days since the epoch. */
    function Number(): int {
      MonthStart(12 * year + month) + day - 1
    }
  }

  /** The weekday of a day number; the epoch was a Thursday. */
  function Weekday(day: int): int {
    (day + 4) % 7
  }

  /** 1 January was a Thursday in 1970 and a Saturday in 2000, for the picker and for the broken-down time. */
  lemma KnownWeekdays(s: int, t: int)
    requires s == 0 && t == 10957 * SECONDS_PER_DAY
    ensures Weekday(DaysBeforeYear(1970)) == 4 && GmTime(s).wday == 4
    ensures Weekday(DaysBeforeYear(2000)) == 6 && GmTime(t).wday == 6
  {
    hide MonthContaining, DaysBeforeYear, MonthStart;
    YearsArePosix(1970);
    YearsArePosix(2000);
  }

  /** The n-th cell when month k is shown: the n-th day counted from the Sunday on or before its first. */
  predicate IsCell(k: int, n: int, c: Cell) {
    var first := MonthStart(k) - Weekday(MonthStart(k));
    c.Valid() && c.Number() == first + n && c.offMonth == !(MonthStart(k) <= c.Number() < MonthStart(k + 1))
  }

  lemma MonthBefore(k: int)
    ensures (k - 1) / 12 == k / 12 - (if k % 12 == 0 then 1 else 0) && (k - 1) % 12 == if k % 12 == 0 then 11 else k % 12 - 1
    ensures (k + 1) / 12 == k / 12 + (if k % 12 == 11 then 1 else 0) && (k + 1) % 12 == if k % 12 == 11 then 0 else k % 12 + 1
  {
  }

  /** The month the picker shows for t; before the epoch it shows the epoch. */
  function ShownMonth(t: Time): int {
    MonthContaining(Max(t.S, 0) / SECONDS_PER_DAY)
  }

  /** The grid of the month that t lies in. */
  method DayGrid(ctx: TimeContext, t: Time) returns (cells: seq<Cell>)
    requires t.Normal()
    modifies ctx
    ensures IsGrid(ShownMonth(t), cells)
  {
    hide GmTime, Floored, IsCell, MonthLength, Weekday, ShownMonth;
    var midnight := ctx.FloorTime(t, Day);
    ctx.GetTime(midnight);
    var thisYear, thisMon := ctx.Tm.year + 1900, ctx.Tm.mon;
    var lastMon := if thisMon == 0 then 11 else thisMon - 1;
    var nextMon := if thisMon == 11 then 0 else thisMon + 1;
    var daysThisMo := GetDaysInMonth(thisYear, thisMon);
    var daysLastMo := GetDaysInMonth(if thisMon == 0 then thisYear - 1 else thisYear, lastMon);
    var firstOfMonth := ctx.FloorTime(midnight, Mo);
    ctx.GetTime(firstOfMonth);
    var firstWd := ctx.Tm.wday;
    ghost var k := ShownMonth(t);
    ShownFields(t, k);
    MonthBefore(k);
    LengthsOfShown(k);
    assert thisYear == k / 12 && thisMon == k % 12 && firstWd == Weekday(MonthStart(k));
    cells := FillGrid(thisYear, thisMon, lastMon, nextMon, daysThisMo, daysLastMo, firstWd, k);
  }

  lemma LengthsOfShown(k: int)
    ensures MonthLength(k) == GetDaysInMonth(k / 12, k % 12) && MonthLength(k - 1) == GetDaysInMonth((k - 1) / 12, (k - 1) % 12)
  {
  }

  /** What the picker reads from the context: the month of t and the weekday of its first. */
  lemma ShownFields(t: Time, k: int)
    requires t.Normal() && k == ShownMonth(t)
    ensures var midnight := Floored(t, Day);
            && GmTime(midnight.S).year + 1900 == k / 12 && GmTime(midnight.S).mon == k % 12
            && GmTime(Floored(midnight, Mo).S).wday == Weekday(MonthStart(k))
  {
    hide Floored, GmTime, MonthContaining, MonthStart;
    var midnight, day := Floored(t, Day), Max(t.S, 0) / SECONDS_PER_DAY;
    assert midnight == Time(SECONDS_PER_DAY * day, 0) by {
      FloorIsLastIff(t, Day);
      if t.S >= 0 {
        FlooredIsAt(t, Day);
      }
    }
    assert midnight.S / SECONDS_PER_DAY == day;
    FlooredIsAt(midnight, Mo);
    MonthStartNext(k);
    GmTimeOn(midnight.S, k, day, 0);
    GmTimeOn(SECONDS_PER_DAY * MonthStart(k), k, MonthStart(k), 0);
  }

  /** The nested loops over weeks and weekdays. mo is 0, 1 or 2 for the last, this and the next month. */
  method FillGrid(thisYear: int, thisMon: int, lastMon: int, nextMon: int, daysThisMo: int, daysLastMo: int, firstWd: int, ghost k: int)
    returns (cells: seq<Cell>)
    requires thisYear == k / 12 && thisMon == k % 12 && daysThisMo == MonthLength(k) && daysLastMo == MonthLength(k - 1)
    requires lastMon == (k - 1) % 12 && nextMon == (k + 1) % 12 && firstWd == Weekday(MonthStart(k))
    ensures |cells| == 42
    ensures forall n :: 0 <= n < 42 ==> IsCell(k, n, cells[n])
  {
    hide MonthStart, MonthLength, GetDaysInMonth;
    MonthBefore(k);
    MonthStartNext(k - 1);
    MonthStartNext(k);
    cells := [];
    var mo := if firstWd > 0 then 0 else 1;
    var day := if mo == 1 then 1 else daysLastMo - firstWd + 1;
    for i := 0 to 6
      invariant |cells| == 7 * i && GridState(mo, day, 7 * i, firstWd, daysThisMo, daysLastMo)
      invariant forall n :: 0 <= n < 7 * i ==> IsCell(k, n, cells[n])
    {
      for j := 0 to 7
        invariant |cells| == 7 * i + j && GridState(mo, day, 7 * i + j, firstWd, daysThisMo, daysLastMo)
        invariant forall n :: 0 <= n < 7 * i + j ==> IsCell(k, n, cells[n])
      {
        if mo == 0 && day > daysLastMo {
          mo, day := 1, 1;
        } else if mo == 1 && day > daysThisMo {
          mo, day := 2, 1;
        }
        var nowYr := if mo == 0 && thisMon == 0 then thisYear - 1 else if mo == 2 && thisMon == 11 then thisYear + 1 else thisYear;
        var nowMo := if mo == 0 then lastMon else if mo == 1 then thisMon else nextMon;
        CellInMonth(k, mo, day, nowYr, nowMo, 7 * i + j);
        cells := cells + [Cell(nowYr, nowMo, day, mo == 0 || mo == 2)];
        day := day + 1;
      }
    }
  }

  /** Where the loop stands before cell n. */
  predicate GridState(mo: int, day: int, n: int, firstWd: int, daysThisMo: int, daysLastMo: int) {
    || (mo == 0 && n <= firstWd && day == daysLastMo - firstWd + 1 + n)
    || (mo == 1 && firstWd <= n <= firstWd + daysThisMo && day == n - firstWd + 1)
    || (mo == 2 && firstWd + daysThisMo < n && day == n - firstWd - daysThisMo + 1)
  }

  lemma CellInMonth(k: int, mo: int, day: int, nowYr: int, nowMo: int, n: int)
    requires 0 <= mo <= 2 && 1 <= day <= MonthLength(k + mo - 1)
    requires nowYr == (k + mo - 1) / 12 && nowMo == (k + mo - 1) % 12
    requires MonthStart(k + mo - 1) + day - 1 == MonthStart(k) - Weekday(MonthStart(k)) + n
    ensures IsCell(k, n, Cell(nowYr, nowMo, day, mo == 0 || mo == 2))
  {
    hide MonthStart, GetDaysInMonth;
    MonthStartNext(k - 1);
    MonthStartNext(k);
    MonthStartNext(k + 1);
  }

  // ---------- What the grid shows ----------

  ghost predicate IsGrid(k: int, cells: seq<Cell>) {
    |cells| == 42 && forall n :: 0 <= n < 42 ==> IsCell(k, n, cells[n])
  }

  /** The date after a date, by the calendar's own rule. */
  predicate IsDayAfter(c: Cell, next: Cell)
    requires c.Valid()
  {
    if c.day < GetDaysInMonth(c.year, c.month) then
      next.year == c.year && next.month == c.month && next.day == c.day + 1
    else if c.month < 11 then
      next.year == c.year && next.month == c.month + 1 && next.day == 1
    else
      next.year == c.year + 1 && next.month == 0 && next.day == 1
  }

  lemma CellMonth(c: Cell)
    requires c.Valid()
    ensures MonthContaining(c.Number()) == 12 * c.year + c.month
    ensures (12 * c.year + c.month) / 12 == c.year && (12 * c.year + c.month) % 12 == c.month
    ensures MonthLength(12 * c.year + c.month) == GetDaysInMonth(c.year, c.month)
  {
    hide MonthContaining, MonthStart, GetDaysInMonth;
    DivModIs(12 * c.year + c.month, 12, c.year, c.month);
    MonthUnique(12 * c.year + c.month, c.Number());
  }

  /** Consecutive day numbers are consecutive dates, over the ends of months and years too. */
  lemma NumbersAreDates(c: Cell, next: Cell)
    requires c.Valid() && next.Valid()
    ensures next.Number() == c.Number() + 1 <==> IsDayAfter(c, next)
  {
    hide MonthContaining, MonthStart, MonthLength, GetDaysInMonth;
    var k := 12 * c.year + c.month;
    CellMonth(c);
    CellMonth(next);
    MonthStartNext(k);
    if next.Number() == c.Number() + 1 {
      MonthUnique(if c.day < MonthLength(k) then k else k + 1, next.Number());
    }
  }

  lemma GridIsConsecutive(k: int, cells: seq<Cell>, n: int)
    requires IsGrid(k, cells) && 0 <= n < 41
    ensures cells[n].Valid() && IsDayAfter(cells[n], cells[n + 1])
  {
    hide Cell.Valid;
    assert IsCell(k, n, cells[n]) && IsCell(k, n + 1, cells[n + 1]);
    NumbersAreDates(cells[n], cells[n + 1]);
  }

  /** Column j always holds weekday j. */
  lemma ColumnsAreWeekdays(k: int, cells: seq<Cell>, i: int, j: int)
    requires IsGrid(k, cells) && 0 <= i < 6 && 0 <= j < 7
    ensures Weekday(cells[7 * i + j].Number()) == j
  {
    assert IsCell(k, 7 * i + j, cells[7 * i + j]);
  }

  predicate SameDate(a: Cell, b: Cell) {
    a.year == b.year && a.month == b.month && a.day == b.day
  }

  /** Every day of the shown month has a cell, no date has two, and the greyed cells are exactly those
      of other months. */
  lemma MonthShownOnce(k: int, cells: seq<Cell>, day: int)
    requires IsGrid(k, cells) && 1 <= day <= MonthLength(k)
    ensures exists n :: 0 <= n < 42 && cells[n] == Cell(k / 12, k % 12, day, false)
    ensures forall m, n :: 0 <= m < n < 42 ==> !SameDate(cells[m], cells[n])
    ensures forall n :: 0 <= n < 42 ==> (cells[n].offMonth <==> !(cells[n].year == k / 12 && cells[n].month == k % 12))
  {
    hide MonthContaining, MonthLength, Cell.Valid;
    var n := Weekday(MonthStart(k)) + day - 1;
    var c := cells[n];
    assert IsCell(k, n, c);
    MonthStartNext(k);
    MonthUnique(k, c.Number());
    CellMonth(c);
    assert c == Cell(k / 12, k % 12, day, false);
    forall a, b | 0 <= a < b < 42 ensures !SameDate(cells[a], cells[b]) {
      assert IsCell(k, a, cells[a]) && IsCell(k, b, cells[b]);
    }
    forall n | 0 <= n < 42 ensures cells[n].offMonth <==> !(cells[n].year == k / 12 && cells[n].month == k % 12) {
      GreyedIff(k, n, cells[n]);
    }
  }

  lemma GreyedIff(k: int, n: int, c: Cell)
    requires IsCell(k, n, c)
    ensures c.offMonth <==> !(c.year == k / 12 && c.month == k % 12)
  {
    hide MonthContaining, MonthLength, MonthStart;
    CellMonth(c);
    MonthStartNext(k);
    if MonthStart(k) <= c.Number() < MonthStart(k + 1) {
      MonthUnique(k, c.Number());
    }
  }

  // ---------- The arrow buttons ----------

  /** What the arrow buttons make of the selected time, which the picker has floored to its day. */
  function Arrow(t: Time, down: bool): Time {
    Added(Floored(t, Day), Mo, if down then 1 else -1)
  }

  /** The selected day, which lies in the shown month. */
  lemma SelectedDay(t: Time)
    requires t.Normal()
    ensures Floored(t, Day).Normal() && MonthNumber(GmTime(Floored(t, Day).S)) == ShownMonth(t)
    ensures ShownMonth(t) >= EPOCH_MONTH
  {
    hide GmTime, Floored, MonthContaining, MonthStart;
    EpochStart();
    if ShownMonth(t) < EPOCH_MONTH {
      MonthStartIncreases(ShownMonth(t) + 1, EPOCH_MONTH);
    }
    FloorIsLastIff(t, Day);
    ShownFields(t, ShownMonth(t));
  }

  /** A time in a month from the epoch on shows that month. */
  lemma ShownFromEpoch(t: Time)
    requires t.Normal() && MonthNumber(GmTime(t.S)) >= EPOCH_MONTH
    ensures ShownMonth(t) == MonthNumber(GmTime(t.S))
  {
    hide MonthStart;
    var k := MonthNumber(GmTime(t.S));
    EpochStart();
    MonthStartIncreases(EPOCH_MONTH, k);
    assert MonthNumber(GmTime(t.S)) == MonthContaining(t.S / SECONDS_PER_DAY);
  }

  /** The arrows show the next or the last month exactly when it has the selected day. If it has not,
      "down" skips it and "up" stays in the shown month. The "up" button is disabled at the epoch. */
  lemma ArrowMoves(t: Time, down: bool)
    requires t.Normal() && (down || ShownMonth(t) > EPOCH_MONTH)
    ensures var k, day := ShownMonth(t), GmTime(Floored(t, Day).S).mday;
            var m := Away(k, 1, down);
            && (ShownMonth(Arrow(t, down)) == m <==> day <= MonthLength(m))
            && (day > MonthLength(m) ==> ShownMonth(Arrow(t, down)) == m + 1)
  {
    hide GmTime, Floored, Added, ShownMonth, MonthLength;
    var count := if down then 1 else -1;
    SelectedDay(t);
    AddMonthExact(Floored(t, Day), down);
    AddMonthsExact(Floored(t, Day), count);
    ShownFromEpoch(Arrow(t, down));
  }

  /** ... and then the selected day is kept, at midnight; otherwise it becomes one of the first three. */
  lemma ArrowKeepsDay(t: Time, down: bool)
    requires t.Normal()
    ensures var from, to := GmTime(Floored(t, Day).S), GmTime(Arrow(t, down).S);
            var m := Away(ShownMonth(t), 1, down);
            && (from.mday <= MonthLength(m) ==> to.mday == from.mday && MonthNumber(to) == m)
            && (from.mday > MonthLength(m) ==> 1 <= to.mday <= 3 && MonthNumber(to) == m + 1)
            && (from.mday <= MonthLength(m) ==> to.hour == 0 && to.min == 0 && to.sec == 0)
  {
    hide GmTime, Floored, Added, ShownMonth, MonthLength;
    SelectedDay(t);
    AddMonthExact(Floored(t, Day), down);
    AddMonthsExact(Floored(t, Day), if down then 1 else -1);
    DayStartsAtMidnight(t);
  }

  lemma DayStartsAtMidnight(t: Time)
    requires t.Normal()
    ensures var tm := GmTime(Floored(t, Day).S); tm.hour == 0 && tm.min == 0 && tm.sec == 0
  {
    hide GmTime, Floored;
    FloorIsLastIff(t, Day);
    EpochIsBoundary(Day);
    if !FloorInRange(t, Day) {
      EpochFloors(Day);
      FloorIsLastIff(Time(0, 0), Day);
    }
  }

  /** The first second of day d (from zero) of a month from the epoch on. */
  lemma MidnightShows(t: Time, k: int, d: int)
    requires k >= EPOCH_MONTH && 0 <= d < MonthLength(k) && t == Time(SECONDS_PER_DAY * (MonthStart(k) + d), 0)
    ensures ShownMonth(t) == k && GmTime(Floored(t, Day).S).mday == d + 1
  {
    hide GmTime, MonthStart, MonthLength, MonthContaining, Floored;
    EpochStart();
    MonthStartIncreases(EPOCH_MONTH, k);
    MonthUnique(k, MonthStart(k) + d);
    MidnightIsFloored(t, MonthStart(k) + d);
    GmTimeOn(t.S, k, MonthStart(k) + d, 0);
  }

  lemma MidnightIsFloored(t: Time, day: int)
    requires day >= 0 && t == Time(SECONDS_PER_DAY * day, 0)
    ensures Floored(t, Day) == t && Max(t.S, 0) / SECONDS_PER_DAY == day
  {
    hide Floored, MonthStart;
    SplitDays(t.S, day, 0);
    FlooredIsAt(t, Day);
  }

  /** From 31 January 1970 "down" shows March, and from 31 March "up" shows March again. */
  lemma ArrowsFail(january: Time, march: Time)
    requires january == Time(30 * SECONDS_PER_DAY, 0) && march == Time(89 * SECONDS_PER_DAY, 0)
    ensures ShownMonth(january) == EPOCH_MONTH && ShownMonth(Arrow(january, true)) == EPOCH_MONTH + 2
    ensures ShownMonth(march) == EPOCH_MONTH + 2 && ShownMonth(Arrow(march, false)) == EPOCH_MONTH + 2
  {
    hide GmTime, Floored, ShownMonth, Arrow, MonthStart, MonthLength;
    MonthsFrom1970();
    MidnightShows(january, EPOCH_MONTH, 30);
    MidnightShows(march, EPOCH_MONTH + 2, 30);
    ArrowMoves(january, true);
    ArrowMoves(march, false);
  }

  /** MakeTime for a date alone, as a click on a cell calls it: years before 1900 and times before the
      epoch are clamped. */
  function MakeDate(year: int, month: int, day: int): Time {
    MkGmtTime(Tm(0, 0, 0, day, month, Max(year - 1900, 0), 0, 0))
  }

  /** Clicking a cell from 1970 on, the only kind that gets a button, selects midnight of its date. */
  lemma ClickSelectsDate(c: Cell)
    requires c.Valid() && c.year >= 1970
    ensures var t := MakeDate(c.year, c.month, c.day);
            && t == Time(SECONDS_PER_DAY * c.Number(), 0)
            && GmTime(t.S) == BreakDown(12 * c.year + c.month, c.Number(), 0)
  {
    hide GmTime, MonthStart, MonthLength, MonthContaining, GetDaysInMonth;
    var k := 12 * c.year + c.month;
    EpochStart();
    MonthStartIncreases(EPOCH_MONTH, k);
    CellMonth(c);
    GmTimeOn(SECONDS_PER_DAY * c.Number(), k, c.Number(), 0);
  }

  lemma EpochStart()
    ensures MonthStart(EPOCH_MONTH) == 0
  {
  }
}
