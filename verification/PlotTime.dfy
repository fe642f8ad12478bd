/** ImPlotTime, the two-part timestamp, and the calendar steps on it. Each operation is given twice:
    as a function of its arguments, which lemmas can speak of, and as a method of `TimeContext`,
    which works as the source does, through the one broken-down time shared by the whole context. */
module PlotTime {
  import opened Numbers
  import opened Calendar

  datatype Unit = Us | Ms | S | Min | Hr | Day | Mo | Yr

  datatype Time = Time(S: int, Us: int) {
    /** The microsecond part does not reach a full second and is not negative. */
    predicate Normal() {
      0 <= Us < 1_000_000
    }

    function Micros(): int {
      1_000_000 * S + Us
    }

    /** The rounding-free value of ToDouble, in seconds. */
    function ToDouble(): real {
      S as real + Us as real / 1_000_000.0
    }

    function RollOver(): Time {
      Time(S + TruncDiv(Us, 1_000_000), TruncMod(Us, 1_000_000))
    }
  }

  /** The constructor ImPlotTime(s, us). */
  function MakeTime(s: int, us: int): Time {
    Time(s + TruncDiv(us, 1_000_000), TruncMod(us, 1_000_000))
  }

  function FromDouble(t: real): Time {
    MakeTime(Trunc(t), Trunc(t * 1_000_000.0 - t.Floor as real * 1_000_000.0))
  }

  function Plus(lhs: Time, rhs: Time): Time {
    MakeTime(lhs.S + rhs.S, lhs.Us + rhs.Us)
  }

  function Minus(lhs: Time, rhs: Time): Time {
    MakeTime(lhs.S - rhs.S, lhs.Us - rhs.Us)
  }

  predicate Less(lhs: Time, rhs: Time) {
    if lhs.S == rhs.S then lhs.Us < rhs.Us else lhs.S < rhs.S
  }

  predicate LessEq(lhs: Time, rhs: Time) {
    Less(lhs, rhs) || lhs == rhs
  }

  // ---------- Steps through the calendar ----------

  /** One iteration of the month loop of AddTime, in days: the length of the current month is added,
      or that of the month before is taken away. */
  function MonthStep(tm: Tm, forward: bool): int
    requires 0 <= tm.mon < 12
  {
    if forward then
      GetDaysInMonth(tm.year + 1900, tm.mon)
    else
      -GetDaysInMonth(tm.year + 1900 - (if tm.mon == 0 then 1 else 0), if tm.mon == 0 then 11 else tm.mon - 1)
  }

  /** One iteration of the year loop of AddTime, in days. */
  function YearStep(tm: Tm, forward: bool): int {
    if forward then YearLength(tm.year + 1900) else -YearLength(tm.year + 1900 - 1)
  }

  function StepMonth(s: int, forward: bool): int {
    s + SECONDS_PER_DAY * MonthStep(GmTime(s), forward)
  }

  function StepYear(s: int, forward: bool): int {
    s + SECONDS_PER_DAY * YearStep(GmTime(s), forward)
  }

  function StepMonths(s: int, n: nat, forward: bool): int {
    if n == 0 then s else StepMonth(StepMonths(s, n - 1, forward), forward)
  }

  function StepYears(s: int, n: nat, forward: bool): int {
    if n == 0 then s else StepYear(StepYears(s, n - 1, forward), forward)
  }

  function Abs(n: int): nat {
    if n < 0 then -n else n
  }

  /** What AddTime returns. */
  function Added(t: Time, unit: Unit, count: int): Time {
    var out := match unit
      case Us => t.(Us := t.Us + count)
      case Ms => t.(Us := t.Us + count * 1000)
      case S => t.(S := t.S + count)
      case Min => t.(S := t.S + count * 60)
      case Hr => t.(S := t.S + count * 3600)
      case Day => t.(S := t.S + count * 86400)
      case Mo => t.(S := StepMonths(t.S, Abs(count), count > 0))
      case Yr => t.(S := StepYears(t.S, Abs(count), count > 0));
    out.RollOver()
  }

  /** MkGmtTime: times before the epoch become the epoch. */
  function MkGmtTime(tm: Tm): Time {
    var s := TimeGm(tm);
    Time(if s < 0 then 0 else s, 0)
  }

  /** The fields FloorTime clears, each unit clearing those of the finer ones too. */
  function ClearBelow(tm: Tm, unit: Unit): Tm {
    match unit
    case Yr => tm.(mon := 0, mday := 1, hour := 0, min := 0, sec := 0)
    case Mo => tm.(mday := 1, hour := 0, min := 0, sec := 0)
    case Day => tm.(hour := 0, min := 0, sec := 0)
    case Hr => tm.(min := 0, sec := 0)
    case Min => tm.(sec := 0)
    case _ => tm
  }

  /** What FloorTime returns. */
  function Floored(t: Time, unit: Unit): Time {
    match unit
    case S => MakeTime(t.S, 0)
    case Ms => MakeTime(t.S, TruncDiv(t.Us, 1000) * 1000)
    case Us => t
    case _ => MkGmtTime(ClearBelow(GmTime(t.S), unit))
  }

  /** What CeilTime returns. */
  function Ceiled(t: Time, unit: Unit): Time {
    Added(Floored(t, unit), unit, 1)
  }

  /** What RoundTime returns: the microseconds are compared only within one second. */
  function Rounded(t: Time, unit: Unit): Time {
    var t1 := Floored(t, unit);
    var t2 := Added(t1, unit, 1);
    if t1.S == t2.S then
      if t.Us - t1.Us < t2.Us - t.Us then t1 else t2
    else
      if t.S - t1.S < t2.S - t.S then t1 else t2
  }

  /** The part of ImPlotContext that time arithmetic uses: one broken-down time, shared by all callers. */
  class TimeContext {
    var Tm: Tm

    constructor ()
    {
      Tm := GmTime(0);
    }

    /** GetTime in UTC mode. */
    method GetTime(t: Time)
      modifies this
      ensures Tm == GmTime(t.S)
    {
      Tm := GmTime(t.S);
    }

    /** MkTime in UTC mode. The C library also writes the normalised fields back. */
    method MkTime() returns (t: Time)
      modifies this
      ensures t == MkGmtTime(old(Tm)) && Tm == GmTime(TimeGm(old(Tm)))
    {
      t := MkGmtTime(Tm);
      Tm := GmTime(TimeGm(Tm));
    }

    /** The month case of AddTime. */
    method AddMonths(t: Time, count: int) returns (out: Time)
      modifies this
      ensures out == t.(S := StepMonths(t.S, Abs(count), count > 0))
      ensures Tm == if count == 0 then old(Tm) else GmTime(StepMonths(t.S, Abs(count) - 1, count > 0))
    {
      hide GmTime;
      out := t;
      for i := 0 to Abs(count)
        invariant out == t.(S := StepMonths(t.S, i, count > 0))
        invariant Tm == if i == 0 then old(Tm) else GmTime(StepMonths(t.S, i - 1, count > 0))
      {
        GetTime(out);
        if count > 0 {
          out := out.(S := out.S + 86400 * GetDaysInMonth(Tm.year + 1900, Tm.mon));
        } else if count < 0 {
          out := out.(S := out.S - 86400 * GetDaysInMonth(Tm.year + 1900 - (if Tm.mon == 0 then 1 else 0),
                                                          if Tm.mon == 0 then 11 else Tm.mon - 1));
        }
      }
    }

    /** The year case of AddTime. */
    method AddYears(t: Time, count: int) returns (out: Time)
      modifies this
      ensures out == t.(S := StepYears(t.S, Abs(count), count > 0))
      ensures Tm == if count == 0 then old(Tm) else GmTime(StepYears(t.S, Abs(count) - 1, count > 0))
    {
      hide GmTime;
      out := t;
      for i := 0 to Abs(count)
        invariant out == t.(S := StepYears(t.S, i, count > 0))
        invariant Tm == if i == 0 then old(Tm) else GmTime(StepYears(t.S, i - 1, count > 0))
      {
        GetTime(out);
        if count > 0 {
          out := out.(S := out.S + 86400 * (365 + if IsLeapYear(Tm.year + 1900) then 1 else 0));
        } else if count < 0 {
          out := out.(S := out.S - 86400 * (365 + if IsLeapYear(Tm.year + 1900 - 1) then 1 else 0));
        }
      }
    }

    method AddTime(t: Time, unit: Unit, count: int) returns (out: Time)
      modifies this
      ensures out == Added(t, unit, count)
      ensures Tm == if count == 0 || !(unit.Mo? || unit.Yr?) then old(Tm)
                    else if unit.Mo? then GmTime(StepMonths(t.S, Abs(count) - 1, count > 0))
                    else GmTime(StepYears(t.S, Abs(count) - 1, count > 0))
    {
      out := t;
      match unit {
        case Us => out := out.(Us := out.Us + count);
        case Ms => out := out.(Us := out.Us + count * 1000);
        case S => out := out.(S := out.S + count);
        case Min => out := out.(S := out.S + count * 60);
        case Hr => out := out.(S := out.S + count * 3600);
        case Day => out := out.(S := out.S + count * 86400);
        case Mo => out := AddMonths(out, count);
        case Yr => out := AddYears(out, count);
      }
      out := out.RollOver();
    }

    method FloorTime(t: Time, unit: Unit) returns (out: Time)
      modifies this
      ensures out == Floored(t, unit)
      ensures Tm == if unit.Us? || unit.Ms? || unit.S? then GmTime(t.S)
                    else GmTime(TimeGm(ClearBelow(GmTime(t.S), unit)))
    {
      GetTime(t);
      if unit.S? {
        return MakeTime(t.S, 0);
      } else if unit.Ms? {
        return MakeTime(t.S, TruncDiv(t.Us, 1000) * 1000);
      } else if unit.Us? {
        return t;
      }
      if unit.Yr? {
        Tm := Tm.(mon := 0);
      }
      if unit.Yr? || unit.Mo? {
        Tm := Tm.(mday := 1);
      }
      if unit.Yr? || unit.Mo? || unit.Day? {
        Tm := Tm.(hour := 0);
      }
      if !unit.Min? {
        Tm := Tm.(min := 0);
      }
      Tm := Tm.(sec := 0);
      out := MkTime();
    }

    method CeilTime(t: Time, unit: Unit) returns (out: Time)
      modifies this
      ensures out == Ceiled(t, unit)
      ensures Tm == if unit.Mo? || unit.Yr? then GmTime(Floored(t, unit).S)
                    else if unit.Us? || unit.Ms? || unit.S? then GmTime(t.S)
                    else GmTime(TimeGm(ClearBelow(GmTime(t.S), unit)))
    {
      hide GmTime, MkGmtTime, ClearBelow, TimeGm;
      out := FloorTime(t, unit);
      out := AddTime(out, unit, 1);
    }

    method RoundTime(t: Time, unit: Unit) returns (out: Time)
      modifies this
      ensures out == Rounded(t, unit)
      ensures Tm == if unit.Mo? || unit.Yr? then GmTime(Floored(t, unit).S)
                    else if unit.Us? || unit.Ms? || unit.S? then GmTime(t.S)
                    else GmTime(TimeGm(ClearBelow(GmTime(t.S), unit)))
    {
      hide GmTime, MkGmtTime, ClearBelow, TimeGm;
      var t1 := FloorTime(t, unit);
      var t2 := AddTime(t1, unit, 1);
      if t1.S == t2.S {
        return if t.Us - t1.Us < t2.Us - t.Us then t1 else t2;
      }
      return if t.S - t1.S < t2.S - t.S then t1 else t2;
    }
  }
}
