/** Flooring, ceiling and rounding land on calendar boundaries. The boundaries of a unit are defined by
    broken-down fields; numbered in order they are At(unit, 0), At(unit, 1), ..., and every operation
    turns out to be arithmetic on those numbers. */
module TimeBoundaries {
  import opened Numbers
  import opened Calendar
  import opened PlotTime
  import opened CalendarSteps

  /** A whole unit starts at t, as far as its calendar fields tell. */
  predicate IsBoundary(t: Time, unit: Unit) {
    var tm := GmTime(t.S);
    match unit
    case Us => true
    case Ms => t.Us % 1000 == 0
    case S => t.Us == 0
    case Min => t.Us == 0 && tm.sec == 0
    case Hr => t.Us == 0 && tm.sec == 0 && tm.min == 0
    case Day => t.Us == 0 && tm.sec == 0 && tm.min == 0 && tm.hour == 0
    case Mo => t.Us == 0 && tm.sec == 0 && tm.min == 0 && tm.hour == 0 && tm.mday == 1
    case Yr => t.Us == 0 && tm.sec == 0 && tm.min == 0 && tm.hour == 0 && tm.mday == 1 && tm.mon == 0
  }

  /** The k-th boundary of a unit: months are numbered from year 0, years by their own number, all
      other units from the epoch. */
  function At(unit: Unit, k: int): (t: Time)
    ensures t.Normal()
  {
    match unit
    case Us => Time(k / 1_000_000, k % 1_000_000)
    case Ms => Time(k / 1000, 1000 * (k % 1000))
    case S => Time(k, 0)
    case Min => Time(60 * k, 0)
    case Hr => Time(3600 * k, 0)
    case Day => Time(SECONDS_PER_DAY * k, 0)
    case Mo => Time(SECONDS_PER_DAY * MonthStart(k), 0)
    case Yr => Time(SECONDS_PER_DAY * MonthStart(12 * k), 0)
  }

  /** The number of the last boundary not after t. */
  function Index(t: Time, unit: Unit): int {
    match unit
    case Us => t.Micros()
    case Ms => t.Micros() / 1000
    case S => t.S
    case Min => t.S / 60
    case Hr => t.S / 3600
    case Day => t.S / SECONDS_PER_DAY
    case Mo => MonthContaining(t.S / SECONDS_PER_DAY)
    case Yr => MonthContaining(t.S / SECONDS_PER_DAY) / 12
  }

  lemma LessIsMicros(a: Time, b: Time)
    requires a.Normal() && b.Normal()
    ensures Less(a, b) <==> a.Micros() < b.Micros()
    ensures LessEq(a, b) <==> a.Micros() <= b.Micros()
  {
  }

  lemma AtIncreases(unit: Unit, j: int, k: int)
    requires j < k
    ensures Less(At(unit, j), At(unit, k))
  {
    match unit {
      case Mo => MonthStartIncreases(j, k);
      case Yr => MonthStartIncreases(12 * j, 12 * k);
      case _ =>
    }
  }

  lemma AtOrder(unit: Unit, j: int, k: int)
    ensures j < k <==> Less(At(unit, j), At(unit, k))
    ensures j <= k <==> LessEq(At(unit, j), At(unit, k))
  {
    if j < k {
      AtIncreases(unit, j, k);
    } else if k < j {
      AtIncreases(unit, k, j);
    }
  }

  /** Index brackets its argument. */
  lemma IndexBrackets(t: Time, unit: Unit)
    requires t.Normal()
    ensures LessEq(At(unit, Index(t, unit)), t) && Less(t, At(unit, Index(t, unit) + 1))
  {
    hide MonthStart, MonthContaining;
    if unit.Mo? {
      MonthBrackets(t.S);
    } else if unit.Yr? {
      YearBrackets(t.S);
    } else if Coarse(unit) {
      ClockBrackets(t, unit);
    }
  }

  predicate Coarse(unit: Unit) {
    !unit.Us? && !unit.Ms? && !unit.S?
  }

  lemma ClockBrackets(t: Time, unit: Unit)
    requires t.Normal() && (unit.Min? || unit.Hr? || unit.Day?)
    ensures LessEq(At(unit, Index(t, unit)), t) && Less(t, At(unit, Index(t, unit) + 1))
  {
  }

  lemma YearBrackets(s: int)
    ensures var k := MonthContaining(s / SECONDS_PER_DAY) / 12;
            SECONDS_PER_DAY * MonthStart(12 * k) <= s < SECONDS_PER_DAY * MonthStart(12 * (k + 1))
  {
    hide MonthStart, MonthContaining;
    var k := MonthContaining(s / SECONDS_PER_DAY);
    MonthBrackets(s);
    MonthStartIncreases(12 * (k / 12), k);
    MonthStartIncreases(k + 1, 12 * (k / 12) + 12);
  }

  lemma MonthBrackets(s: int)
    ensures var k := MonthContaining(s / SECONDS_PER_DAY);
            SECONDS_PER_DAY * MonthStart(k) <= s < SECONDS_PER_DAY * MonthStart(k + 1)
  {
    var day := s / SECONDS_PER_DAY;
    assert SECONDS_PER_DAY * day <= s < SECONDS_PER_DAY * (day + 1);
  }

  lemma IndexUnique(t: Time, unit: Unit, k: int)
    requires t.Normal() && LessEq(At(unit, k), t) && Less(t, At(unit, k + 1))
    ensures k == Index(t, unit)
  {
    hide At, Index;
    var i := Index(t, unit);
    IndexBrackets(t, unit);
    if k < i {
      AtOrder(unit, k + 1, i);
    } else if i < k {
      AtOrder(unit, i + 1, k);
    }
  }

  /** What the cleared fields of a second count say about the count itself. */
  lemma ClockFields(s: int, tm: Tm)
    requires tm == GmTime(s)
    ensures tm.sec == 0 <==> s == 60 * (s / 60)
    ensures tm.sec == 0 && tm.min == 0 <==> s == 3600 * (s / 3600)
    ensures tm.sec == 0 && tm.min == 0 && tm.hour == 0 <==> s == SECONDS_PER_DAY * (s / SECONDS_PER_DAY)
  {
    var day, r := s / SECONDS_PER_DAY, s % SECONDS_PER_DAY;
    assert s == SECONDS_PER_DAY * day + r && 0 <= r < SECONDS_PER_DAY;
    ClockOfDay(r);
    assert r / 60 == s / 60 - 1440 * day;
    assert r / 3600 == s / 3600 - 24 * day;
  }

  lemma ClockOfDay(r: int)
    requires 0 <= r < SECONDS_PER_DAY
    ensures r % 60 == 0 <==> r == 60 * (r / 60)
    ensures r % 60 == 0 && r / 60 % 60 == 0 <==> r == 3600 * (r / 3600)
    ensures r % 60 == 0 && r / 60 % 60 == 0 && r / 3600 == 0 <==> r == 0
  {
    SplitSeconds(r);
  }

  lemma DateFields(s: int, tm: Tm)
    requires tm == GmTime(s)
    ensures var day := s / SECONDS_PER_DAY;
            var k := MonthContaining(day);
            && (tm.mday == 1 <==> day == MonthStart(k))
            && (tm.mday == 1 && tm.mon == 0 <==> day == MonthStart(12 * (k / 12)))
  {
    var k := MonthContaining(s / SECONDS_PER_DAY);
    MonthStartIncreases(12 * (k / 12), k);
  }

  /** The field definition and the numbering describe the same instants. */
  lemma BoundaryIffAt(t: Time, unit: Unit)
    requires t.Normal()
    ensures IsBoundary(t, unit) <==> t == At(unit, Index(t, unit))
  {
    if Coarse(unit) {
      hide GmTime, MonthStart, MonthContaining;
      var tm := GmTime(t.S);
      ClockFields(t.S, tm);
      DateFields(t.S, tm);
    }
  }

  // ---------- Flooring ----------

  /** The date and clock parts of a broken-down time. */
  lemma GmTimeParts(s: int, tm: Tm)
    requires tm == GmTime(s)
    ensures DayOf(tm) == s / SECONDS_PER_DAY && MonthNumber(tm) == MonthContaining(s / SECONDS_PER_DAY)
    ensures 3600 * tm.hour == 3600 * (s / 3600) - SECONDS_PER_DAY * (s / SECONDS_PER_DAY)
    ensures 60 * tm.min == 60 * (s / 60) - 3600 * (s / 3600)
  {
    var day, r := s / SECONDS_PER_DAY, s % SECONDS_PER_DAY;
    assert s == SECONDS_PER_DAY * day + r && 0 <= r < SECONDS_PER_DAY;
    SplitSeconds(r);
    assert r / 60 == s / 60 - 1440 * day;
    assert r / 3600 == s / 3600 - 24 * day;
  }

  /** Clearing the finer fields goes back to the last boundary. */
  lemma ClearedIsAt(t: Time, unit: Unit)
    requires Coarse(unit)
    ensures TimeGm(ClearBelow(GmTime(t.S), unit)) == At(unit, Index(t, unit)).S
  {
    hide GmTime, MonthStart, MonthContaining;
    var tm := GmTime(t.S);
    GmTimeParts(t.S, tm);
    var cleared := ClearBelow(tm, unit);
    if unit.Yr? {
      assert MonthNumber(cleared) == 12 * (MonthNumber(tm) / 12);
    } else if unit.Mo? {
      assert MonthNumber(cleared) == MonthNumber(tm);
    } else {
      assert DayOf(cleared) == DayOf(tm);
    }
  }

  lemma EpochIsBoundary(unit: Unit)
    ensures exists k :: At(unit, k) == Time(0, 0)
  {
    assert At(unit, if unit.Mo? then EPOCH_MONTH else if unit.Yr? then 1970 else 0) == Time(0, 0);
  }

  lemma NotBeforeEpoch(t: Time, unit: Unit)
    requires t.Normal() && t.S >= 0
    ensures At(unit, Index(t, unit)).S >= 0
  {
    hide Index;
    var i := Index(t, unit);
    IndexBrackets(t, unit);
    EpochIsBoundary(unit);
    var e :| At(unit, e) == Time(0, 0);
    AtOrder(unit, e, i);
    AtOrder(unit, i + 1, e);
  }

  /** From the epoch on, flooring gives the last boundary not after t. */
  lemma FlooredIsAt(t: Time, unit: Unit)
    requires t.Normal() && t.S >= 0
    ensures Floored(t, unit) == At(unit, Index(t, unit))
  {
    if Coarse(unit) {
      FlooredCoarse(t, unit);
    }
  }

  lemma FlooredCoarse(t: Time, unit: Unit)
    requires t.Normal() && t.S >= 0 && Coarse(unit)
    ensures Floored(t, unit) == At(unit, Index(t, unit))
  {
    hide GmTime, Index;
    ClearedIsAt(t, unit);
    NotBeforeEpoch(t, unit);
  }

  // ---------- Adding ----------

  /** Adding n units to the k-th boundary gives boundary k + n, for the calendar units as for the
      fixed ones. Below a second this needs n not to be negative. */
  lemma AddedAt(unit: Unit, k: int, n: int)
    requires n >= 0 || Coarse(unit) || unit.S?
    ensures Added(At(unit, k), unit, n) == At(unit, k + n)
  {
    hide StepMonth, StepYear, MonthStart, DaysBeforeYear;
    if unit.Mo? {
      var _ := StepMonthsMoves(k, 0, 0, Abs(n), n > 0);
    } else if unit.Yr? {
      YearStart(k);
      YearStart(k + n);
      StepYearsMoves(k, 0, 0, Abs(n), n > 0);
    } else if unit.Us? {
      hide StepMonths, StepYears;
      DivModIs(k + n, 1_000_000, k / 1_000_000 + (k % 1_000_000 + n) / 1_000_000, (k % 1_000_000 + n) % 1_000_000);
    } else if unit.Ms? {
      hide StepMonths, StepYears;
      AddedMs(k, n);
    } else {
      hide StepMonths, StepYears;
    }
  }

  lemma AddedMs(k: int, n: int)
    requires n >= 0
    ensures Added(At(Ms, k), Ms, n) == At(Ms, k + n)
  {
    hide StepMonths, StepYears;
    var m := k % 1000 + n;
    DivModIs(k + n, 1000, k / 1000 + m / 1000, m % 1000);
    DivModIs(1000 * m, 1_000_000, m / 1000, 1000 * (m % 1000));
  }

  // ---------- Nesting ----------

  /** Every coarser unit starts where a finer one starts too. */
  lemma BoundariesNest(t: Time, fine: Unit, coarse: Unit)
    requires Finer(fine, coarse) && IsBoundary(t, coarse)
    ensures IsBoundary(t, fine)
  {
  }

  function Rank(unit: Unit): nat {
    match unit
    case Us => 0 case Ms => 1 case S => 2 case Min => 3 case Hr => 4 case Day => 5 case Mo => 6 case Yr => 7
  }

  predicate Finer(fine: Unit, coarse: Unit) {
    Rank(fine) <= Rank(coarse)
  }
}
