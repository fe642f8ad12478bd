/** What FloorTime, CeilTime, RoundTime and AddTime promise, stated over instants and calendar boundaries. */
module TimeRounding {
  import opened Numbers
  import opened Calendar
  import opened PlotTime
  import opened TimeBoundaries

  /** b is the last boundary of the unit that is not after t. */
  ghost predicate IsLastBoundary(b: Time, t: Time, unit: Unit) {
    && b.Normal() && IsBoundary(b, unit) && LessEq(b, t)
    && forall c: Time :: c.Normal() && IsBoundary(c, unit) && LessEq(c, t) ==> LessEq(c, b)
  }

  /** b is the first boundary of the unit that is after t. */
  ghost predicate IsNextBoundary(b: Time, t: Time, unit: Unit) {
    && b.Normal() && IsBoundary(b, unit) && Less(t, b)
    && forall c: Time :: c.Normal() && IsBoundary(c, unit) && Less(t, c) ==> LessEq(b, c)
  }

  /** b is the first boundary of the unit that is not before t: t rounded up. */
  ghost predicate IsFirstNotBefore(b: Time, t: Time, unit: Unit) {
    && b.Normal() && IsBoundary(b, unit) && LessEq(t, b)
    && forall c: Time :: c.Normal() && IsBoundary(c, unit) && LessEq(t, c) ==> LessEq(b, c)
  }

  /** FloorTime clamps negative results to the epoch; only the units that go through struct tm do so. */
  predicate FloorInRange(t: Time, unit: Unit) {
    t.S >= 0 || !Coarse(unit)
  }

  lemma FlooredIndex(t: Time, unit: Unit)
    requires t.Normal() && FloorInRange(t, unit)
    ensures Floored(t, unit) == At(unit, Index(t, unit))
  {
    hide GmTime, MkGmtTime, ClearBelow, MonthStart, MonthContaining;
    if Coarse(unit) {
      FlooredIsAt(t, unit);
    }
  }

  lemma CeiledIndex(t: Time, unit: Unit)
    requires t.Normal() && FloorInRange(t, unit)
    ensures Ceiled(t, unit) == At(unit, Index(t, unit) + 1)
  {
    hide Floored, At, Index;
    FlooredIndex(t, unit);
    AddedAt(unit, Index(t, unit), 1);
  }

  lemma AtIsBoundary(unit: Unit, k: int)
    ensures IsBoundary(At(unit, k), unit)
  {
    hide IsBoundary, At, Index;
    AtOrder(unit, k, k + 1);
    IndexUnique(At(unit, k), unit, k);
    BoundaryIffAt(At(unit, k), unit);
  }

  /** A boundary is its own index. */
  lemma BoundaryHasIndex(t: Time, unit: Unit) returns (k: int)
    requires t.Normal() && IsBoundary(t, unit)
    ensures t == At(unit, k) && k == Index(t, unit)
  {
    BoundaryIffAt(t, unit);
    k := Index(t, unit);
  }

  lemma FloorIsLast(t: Time, unit: Unit)
    requires t.Normal() && FloorInRange(t, unit)
    ensures IsLastBoundary(Floored(t, unit), t, unit)
  {
    hide IsBoundary, At, Index, Floored;
    var i := Index(t, unit);
    FlooredIndex(t, unit);
    IndexBrackets(t, unit);
    AtIsBoundary(unit, i);
    forall c: Time | c.Normal() && IsBoundary(c, unit) && LessEq(c, t)
      ensures LessEq(c, Floored(t, unit))
    {
      var k := BoundaryHasIndex(c, unit);
      AtOrder(unit, i + 1, k);
      AtOrder(unit, k, i);
    }
  }

  lemma CeilInRange(t: Time, unit: Unit)
    requires t.Normal() && FloorInRange(t, unit)
    ensures IsNextBoundary(Ceiled(t, unit), t, unit)
  {
    hide IsBoundary, At, Index, Ceiled;
    var i := Index(t, unit);
    CeiledIndex(t, unit);
    IndexBrackets(t, unit);
    AtIsBoundary(unit, i + 1);
    forall c: Time | c.Normal() && IsBoundary(c, unit) && Less(t, c)
      ensures LessEq(Ceiled(t, unit), c)
    {
      var k := BoundaryHasIndex(c, unit);
      AtOrder(unit, k, i);
      AtOrder(unit, i + 1, k);
    }
  }

  /** Exactly when FloorTime keeps its promise: for the calendar units a time before the epoch goes up
      to the epoch instead of down. */
  lemma FloorIsLastIff(t: Time, unit: Unit)
    requires t.Normal()
    ensures IsLastBoundary(Floored(t, unit), t, unit) <==> FloorInRange(t, unit)
    ensures !FloorInRange(t, unit) ==> Floored(t, unit) == Time(0, 0)
  {
    if FloorInRange(t, unit) {
      FloorIsLast(t, unit);
    } else {
      hide GmTime;
      ClearedIsAt(t, unit);
      IndexBrackets(t, unit);
    }
  }

  /** For the calendar units a time before the epoch is floored to the epoch first, so its ceiling is
      the boundary after the epoch, and the epoch itself is skipped. */
  lemma CeilBeforeEpoch(t: Time, unit: Unit)
    requires t.Normal() && !FloorInRange(t, unit)
    ensures Ceiled(t, unit) == Added(Time(0, 0), unit, 1)
    ensures Less(t, Time(0, 0)) && IsBoundary(Time(0, 0), unit) && Less(Time(0, 0), Ceiled(t, unit)) && Time(0, 0).Normal()
  {
    hide At, Index, Floored, IsBoundary, Added;
    FloorIsLastIff(t, unit);
    EpochIsBoundary(unit);
    var e :| At(unit, e) == Time(0, 0);
    AtIsBoundary(unit, e);
    AddedAt(unit, e, 1);
    AtIncreases(unit, e, e + 1);
  }

  /** Exactly when CeilTime gives the next boundary after t. */
  lemma CeilIsNext(t: Time, unit: Unit)
    requires t.Normal()
    ensures IsNextBoundary(Ceiled(t, unit), t, unit) <==> FloorInRange(t, unit)
  {
    hide *;
    if FloorInRange(t, unit) {
      CeilInRange(t, unit);
    } else {
      CeilBeforeEpoch(t, unit);
      EarlierIsNext(Time(0, 0), t, Ceiled(t, unit), unit);
    }
  }

  /** A boundary e between t and c comes first. */
  lemma EarlierIsNext(e: Time, t: Time, c: Time, unit: Unit)
    requires e.Normal() && IsBoundary(e, unit) && Less(t, e) && Less(e, c)
    ensures !IsNextBoundary(c, t, unit)
  {
    hide IsBoundary, Time.Normal;
  }

  /** Exactly when CeilTime keeps its promise to round up: not on a boundary, which moves to the next one. */
  lemma CeilRoundsUpIff(t: Time, unit: Unit)
    requires t.Normal()
    ensures IsFirstNotBefore(Ceiled(t, unit), t, unit) <==> FloorInRange(t, unit) && !IsBoundary(t, unit)
  {
    hide *;
    if FloorInRange(t, unit) {
      CeilInRange(t, unit);
      NextIsFirstIff(Ceiled(t, unit), t, unit);
    } else {
      CeilBeforeEpoch(t, unit);
      EarlierIsFirst(Time(0, 0), t, Ceiled(t, unit), unit);
    }
  }

  lemma NextIsFirstIff(c: Time, t: Time, unit: Unit)
    requires t.Normal() && IsNextBoundary(c, t, unit)
    ensures IsFirstNotBefore(c, t, unit) <==> !IsBoundary(t, unit)
  {
    hide IsBoundary, Time.Normal;
    if IsBoundary(t, unit) {
      EarlierIsFirst(t, t, c, unit);
    }
  }

  /** A boundary e before c, at or after t, comes first. */
  lemma EarlierIsFirst(e: Time, t: Time, c: Time, unit: Unit)
    requires e.Normal() && IsBoundary(e, unit) && (Less(t, e) || t == e) && Less(e, c)
    ensures !IsFirstNotBefore(c, t, unit)
  {
    hide IsBoundary, Time.Normal;
  }

  // ---------- Consequences of being the last boundary ----------

  lemma LastBoundaryUnique(a: Time, b: Time, t: Time, unit: Unit)
    requires IsLastBoundary(a, t, unit) && IsLastBoundary(b, t, unit)
    ensures a == b
  {
    hide IsBoundary;
    assert LessEq(a, b) && LessEq(b, a);
  }

  /** The epoch is a boundary of every unit. */
  lemma EpochFloors(unit: Unit)
    ensures Floored(Time(0, 0), unit) == Time(0, 0)
  {
    hide At, Index, Floored, IsBoundary;
    EpochIsBoundary(unit);
    var e :| At(unit, e) == Time(0, 0);
    FlooredIndex(Time(0, 0), unit);
    AtOrder(unit, e, e + 1);
    IndexUnique(Time(0, 0), unit, e);
  }

  lemma FloorIdempotent(t: Time, unit: Unit)
    requires t.Normal()
    ensures Floored(Floored(t, unit), unit) == Floored(t, unit)
  {
    FloorOfFloor(t, unit, unit);
  }

  /** Flooring finely and then coarsely is flooring coarsely. */
  lemma FloorOfFloor(t: Time, fine: Unit, coarse: Unit)
    requires t.Normal() && Finer(fine, coarse)
    ensures Floored(Floored(t, fine), coarse) == Floored(t, coarse)
  {
    hide Floored, IsBoundary;
    if FloorInRange(t, coarse) {
      FloorOfFloorInRange(t, fine, coarse);
    } else {
      FloorIsLastIff(t, coarse);
      FloorIsLastIff(t, fine);
      EpochFloors(coarse);
      if !Coarse(fine) {
        FineFloor(t, fine);
        FloorIsLastIff(Floored(t, fine), coarse);
      }
    }
  }

  lemma FineFloor(t: Time, unit: Unit)
    requires t.Normal() && !Coarse(unit)
    ensures Floored(t, unit).S == t.S && Floored(t, unit).Normal()
  {
  }

  lemma FloorOfFloorInRange(t: Time, fine: Unit, coarse: Unit)
    requires t.Normal() && FloorInRange(t, coarse) && Finer(fine, coarse)
    ensures Floored(Floored(t, fine), coarse) == Floored(t, coarse)
  {
    hide IsBoundary, Floored;
    var f := Floored(t, fine);
    FloorIsLast(t, fine);
    FloorIsLast(t, coarse);
    FlooredStaysInRange(t, fine);
    FloorIsLast(f, coarse);
    BoundariesNest(Floored(t, coarse), fine, coarse);
    assert IsLastBoundary(Floored(f, coarse), t, coarse) by {
      forall c: Time | c.Normal() && IsBoundary(c, coarse) && LessEq(c, t)
        ensures LessEq(c, Floored(f, coarse))
      {
        BoundariesNest(c, fine, coarse);
      }
    }
    LastBoundaryUnique(Floored(f, coarse), Floored(t, coarse), t, coarse);
  }

  lemma FlooredStaysInRange(t: Time, unit: Unit)
    requires t.Normal()
    ensures t.S >= 0 ==> Floored(t, unit).S >= 0
  {
  }

  lemma FloorMonotone(a: Time, b: Time, unit: Unit)
    requires a.Normal() && b.Normal() && LessEq(a, b)
    ensures LessEq(Floored(a, unit), Floored(b, unit))
  {
    hide IsBoundary, Floored;
    FloorIsLastIff(a, unit);
    FloorIsLastIff(b, unit);
    FlooredStaysInRange(b, unit);
    if FloorInRange(a, unit) {
      var fa := Floored(a, unit);
      LessIsMicros(fa, a);
      LessIsMicros(a, b);
      LessIsMicros(fa, b);
    } else if FloorInRange(b, unit) {
      LessIsMicros(Time(0, 0), Floored(b, unit));
    }
  }

  /** FloorTime(t) <= t < CeilTime(t) exactly where the floor is not clamped at the epoch; no boundary ever
      lies strictly between the two results. */
  lemma FloorCeilBracket(t: Time, unit: Unit, c: Time)
    requires t.Normal() && c.Normal() && IsBoundary(c, unit)
    ensures LessEq(Floored(t, unit), t) && Less(t, Ceiled(t, unit)) <==> FloorInRange(t, unit)
    ensures !(Less(Floored(t, unit), c) && Less(c, Ceiled(t, unit)))
  {
    hide *;
    FloorIsLastIff(t, unit);
    if FloorInRange(t, unit) {
      CeilInRange(t, unit);
      NothingBetween(Floored(t, unit), Ceiled(t, unit), t, unit, c);
    } else {
      CeilBeforeEpoch(t, unit);
      NothingAfterEpoch(unit, c);
      LessIsStrict(t, Time(0, 0));
    }
  }

  lemma NothingBetween(lo: Time, hi: Time, t: Time, unit: Unit, c: Time)
    requires IsLastBoundary(lo, t, unit) && IsNextBoundary(hi, t, unit) && c.Normal() && IsBoundary(c, unit)
    ensures LessEq(lo, t) && Less(t, hi) && !(Less(lo, c) && Less(c, hi))
  {
    hide IsBoundary, Time.Normal;
  }

  lemma LessIsStrict(a: Time, b: Time)
    ensures Less(a, b) ==> !LessEq(b, a)
  {
  }

  /** There is no boundary between the epoch and the one that follows it. */
  lemma NothingAfterEpoch(unit: Unit, c: Time)
    requires c.Normal() && IsBoundary(c, unit)
    ensures !(Less(Time(0, 0), c) && Less(c, Added(Time(0, 0), unit, 1)))
  {
    hide At, Index, IsBoundary, Added;
    EpochIsBoundary(unit);
    var e :| At(unit, e) == Time(0, 0);
    AddedAt(unit, e, 1);
    var k := BoundaryHasIndex(c, unit);
    AtOrder(unit, e, k);
    AtOrder(unit, k, e + 1);
  }

  /** CeilTime moves a time that is already on a boundary up to the next one, and FloorTime leaves it,
      exactly where the floor is not clamped at the epoch. */
  lemma CeilOfBoundary(t: Time, unit: Unit)
    requires t.Normal() && IsBoundary(t, unit)
    ensures Floored(t, unit) == t <==> FloorInRange(t, unit)
    ensures FloorInRange(t, unit) ==> Ceiled(t, unit) == Added(t, unit, 1) && Less(t, Ceiled(t, unit))
  {
    hide IsBoundary, Floored;
    FloorIsLastIff(t, unit);
    if FloorInRange(t, unit) {
      CeilInRange(t, unit);
    }
  }

  // ---------- Rounding ----------

  /** How far apart two times are, in microseconds. */
  function Distance(a: Time, b: Time): nat {
    Abs(a.Micros() - b.Micros())
  }

  /** b is the boundary nearest to t: every other one is farther, or equally far and earlier. */
  ghost predicate IsNearest(b: Time, t: Time, unit: Unit) {
    && b.Normal() && IsBoundary(b, unit)
    && forall c: Time :: c.Normal() && IsBoundary(c, unit) ==>
         Distance(t, b) < Distance(t, c) || (Distance(t, b) == Distance(t, c) && LessEq(c, b))
  }

  /** The nearer of the two boundaries around t; halfway goes up. */
  function Nearest(t: Time, unit: Unit): Time {
    var lo, hi := At(unit, Index(t, unit)), At(unit, Index(t, unit) + 1);
    if Distance(t, lo) < Distance(t, hi) then lo else hi
  }

  /** No boundary lies between the two around t. */
  lemma OtherBoundaries(t: Time, unit: Unit, c: Time)
    requires t.Normal() && c.Normal() && IsBoundary(c, unit)
    ensures var lo, hi := At(unit, Index(t, unit)), At(unit, Index(t, unit) + 1);
            lo.Micros() <= t.Micros() < hi.Micros() && (c.Micros() <= lo.Micros() || hi.Micros() <= c.Micros())
  {
    hide At, Index, IsBoundary, Time.Micros;
    var k := BoundaryHasIndex(c, unit);
    MicrosBracket(t, unit);
    MicrosOrder(unit, Index(t, unit), k);
    MicrosOrder(unit, k, Index(t, unit) + 1);
  }

  /** Nearest is the one time that is nearest among all boundaries. */
  lemma NearestIff(b: Time, t: Time, unit: Unit)
    requires t.Normal()
    ensures IsNearest(b, t, unit) <==> b == Nearest(t, unit)
  {
    hide At, Index, IsBoundary;
    var n := Nearest(t, unit);
    AtIsBoundary(unit, Index(t, unit));
    AtIsBoundary(unit, Index(t, unit) + 1);
    forall c: Time | c.Normal() && IsBoundary(c, unit)
      ensures Distance(t, n) < Distance(t, c) || (Distance(t, n) == Distance(t, c) && LessEq(c, n))
    {
      OtherBoundaries(t, unit, c);
      LessIsMicros(c, n);
    }
    if IsNearest(b, t, unit) {
      LessIsMicros(b, n);
      LessIsMicros(n, b);
    }
  }

  /** The length in seconds of the last unit before the epoch: December and the year 1969 for the two longest. */
  function LastSpan(unit: Unit): (span: int)
    requires Coarse(unit)
    ensures span > 0
  {
    match unit
    case Min => 60 case Hr => 3600 case Day => SECONDS_PER_DAY case Mo => 31 * SECONDS_PER_DAY case Yr => 365 * SECONDS_PER_DAY
  }

  /** RoundTime compares whole seconds as soon as the two boundaries lie in different seconds, so it always
      rounds down to a second, and does so in the last millisecond of a second. Before the epoch, for
      units from the minute up, it gives the epoch, which is right only within half a unit of it. */
  predicate RoundsToNearest(t: Time, unit: Unit) {
    match unit
    case Us => true
    case Ms => t.Us < 999_000 || t.Us % 1000 < 500
    case S => t.Us < 500_000
    case _ => t.S >= 0 || -2 * t.Micros() <= 1_000_000 * LastSpan(unit)
  }

  /** Every calendar unit from the minute up lasts an even number of seconds. */
  lemma CoarseSpansAreEven(unit: Unit, k: int)
    requires Coarse(unit)
    ensures At(unit, k).Us == 0 && At(unit, k).S % 60 == 0
  {
    hide MonthStart;
    if unit.Mo? {
      DivModIs(SECONDS_PER_DAY * MonthStart(k), 60, 1440 * MonthStart(k), 0);
    } else if unit.Yr? {
      DivModIs(SECONDS_PER_DAY * MonthStart(12 * k), 60, 1440 * MonthStart(12 * k), 0);
    }
  }

  /** Exactly when RoundTime keeps its promise, for all times: its result is the nearest of all boundaries. */
  lemma RoundExact(t: Time, unit: Unit)
    requires t.Normal()
    ensures IsNearest(Rounded(t, unit), t, unit) <==> RoundsToNearest(t, unit)
  {
    hide Rounded, Nearest, IsNearest;
    NearestIff(Rounded(t, unit), t, unit);
    if !Coarse(unit) {
      RoundFine(t, unit);
    } else if t.S >= 0 {
      RoundCoarse(t, unit);
    } else {
      RoundBeforeEpoch(t, unit);
      NearestBeforeEpoch(t, unit);
    }
  }

  lemma RoundFine(t: Time, unit: Unit)
    requires t.Normal() && !Coarse(unit)
    ensures Rounded(t, unit) == Nearest(t, unit) <==> RoundsToNearest(t, unit)
  {
    hide GmTime, MkGmtTime, ClearBelow, At, Index, StepMonths, StepYears;
    FlooredIndex(t, unit);
    CeiledIndex(t, unit);
    FineNeighbours(t, unit);
    hide Floored, Added;
    if unit.Ms? {
      assert 1000 * (t.Us / 1000) <= t.Us < 1000 * (t.Us / 1000) + 1000;
    }
  }

  /** The boundaries around a time, up to the second. */
  lemma FineNeighbours(t: Time, unit: Unit)
    requires t.Normal() && !Coarse(unit)
    ensures var us := if unit.Us? then t.Us else if unit.Ms? then 1000 * (t.Us / 1000) else 0;
            var span := if unit.Us? then 1 else if unit.Ms? then 1000 else 1_000_000;
            Floored(t, unit) == Time(t.S, us)
            && Ceiled(t, unit) == if us + span < 1_000_000 then Time(t.S, us + span) else Time(t.S + 1, 0)
  {
    hide GmTime, MkGmtTime, ClearBelow, StepMonths, StepYears;
  }

  lemma RoundCoarse(t: Time, unit: Unit)
    requires t.Normal() && t.S >= 0 && Coarse(unit)
    ensures Rounded(t, unit) == Nearest(t, unit)
  {
    hide At, Index, Floored, Added, Distance, Time.Micros;
    var i := Index(t, unit);
    FlooredIndex(t, unit);
    CeiledIndex(t, unit);
    MicrosBracket(t, unit);
    CoarseSpansAreEven(unit, i);
    CoarseSpansAreEven(unit, i + 1);
    SecondsDecide(t, At(unit, i), At(unit, i + 1));
  }

  lemma EvenDifference(a: int, b: int)
    requires a % 60 == 0 && b % 60 == 0
    ensures (b - a) % 2 == 0
  {
    DivModIs(b - a, 2, 30 * (b / 60 - a / 60), 0);
  }

  /** Between two whole minutes, comparing the seconds alone decides as comparing the microseconds. */
  lemma SecondsDecide(t: Time, lo: Time, hi: Time)
    requires t.Normal() && lo.Us == 0 && hi.Us == 0 && lo.S % 60 == 0 && hi.S % 60 == 0 && lo.Micros() <= t.Micros() < hi.Micros()
    ensures lo.S < hi.S && (t.S - lo.S < hi.S - t.S <==> Distance(t, lo) < Distance(t, hi))
  {
    EvenDifference(lo.S, hi.S);
    SecondsDecideEven(t, lo, hi);
  }

  lemma SecondsDecideEven(t: Time, lo: Time, hi: Time)
    requires t.Normal() && lo.Us == 0 && hi.Us == 0 && (hi.S - lo.S) % 2 == 0 && lo.Micros() <= t.Micros() < hi.Micros()
    ensures lo.S < hi.S && (t.S - lo.S < hi.S - t.S <==> Distance(t, lo) < Distance(t, hi))
  {
    RoundEven(t.S - lo.S, hi.S - t.S, t.Us);
  }

  /** Before the epoch the result is the epoch for the units from the minute up. */
  lemma RoundBeforeEpoch(t: Time, unit: Unit)
    requires t.Normal() && !FloorInRange(t, unit)
    ensures Rounded(t, unit) == Time(0, 0)
  {
    hide At, Floored, Added, IsBoundary;
    var e := EpochIndex(unit);
    FloorIsLastIff(t, unit);
    EpochNeighbours(unit);
    AddedAt(unit, e, 1);
    AtIncreases(unit, e, e + 1);
    CoarseSpansAreEven(unit, e + 1);
  }

  function EpochIndex(unit: Unit): int {
    if unit.Mo? then EPOCH_MONTH else if unit.Yr? then 1970 else 0
  }

  lemma EpochNeighbours(unit: Unit)
    requires Coarse(unit)
    ensures At(unit, EpochIndex(unit)) == Time(0, 0) && At(unit, EpochIndex(unit) - 1) == Time(-LastSpan(unit), 0)
  {
    hide MonthStart;
    MonthStartNext(EPOCH_MONTH - 1);
    YearStart(1970);
    YearStart(1969);
    YearStartNext(1969);
  }

  lemma MicrosOrder(unit: Unit, j: int, k: int)
    ensures j < k <==> At(unit, j).Micros() < At(unit, k).Micros()
  {
    hide At, Less;
    AtOrder(unit, j, k);
    LessIsMicros(At(unit, j), At(unit, k));
  }

  lemma MicrosBracket(t: Time, unit: Unit)
    requires t.Normal()
    ensures At(unit, Index(t, unit)).Micros() <= t.Micros() < At(unit, Index(t, unit) + 1).Micros()
  {
    hide At, Index, Less, LessEq;
    IndexBrackets(t, unit);
    LessIsMicros(At(unit, Index(t, unit)), t);
    LessIsMicros(t, At(unit, Index(t, unit) + 1));
  }

  /** A time before the epoch lies in the last unit before it, or before the start of that. */
  lemma IndexBeforeEpoch(t: Time, unit: Unit, lo: Time, hi: Time, i: int, e: int)
    requires t.Normal() && Coarse(unit) && t.Micros() < 0
    requires i == Index(t, unit) && e == EpochIndex(unit) && lo == At(unit, i) && hi == At(unit, i + 1)
    ensures lo.Micros() <= t.Micros() < hi.Micros()
    ensures (hi == Time(0, 0) && lo == Time(-LastSpan(unit), 0)) || hi.Micros() <= -1_000_000 * LastSpan(unit)
  {
    hide *;
    EpochNeighbours(unit);
    WholeSecond(0);
    WholeSecond(-LastSpan(unit));
    MicrosBracket(t, unit);
    MicrosOrder(unit, i, e);
    MicrosOrder(unit, e - 1, i + 1);
  }

  lemma WholeSecond(s: int)
    ensures Time(s, 0).Micros() == 1_000_000 * s
  {
  }

  lemma NearestBeforeEpoch(t: Time, unit: Unit)
    requires t.Normal() && Coarse(unit) && t.S < 0
    ensures Nearest(t, unit) == Time(0, 0) <==> -2 * t.Micros() <= 1_000_000 * LastSpan(unit)
  {
    hide At, Index, LastSpan, EpochIndex;
    var i := Index(t, unit);
    IndexBeforeEpoch(t, unit, At(unit, i), At(unit, i + 1), i, EpochIndex(unit));
  }

  /** On an even span of whole seconds, comparing the seconds alone decides as comparing the microseconds. */
  lemma RoundEven(before: int, after: int, us: int)
    requires (before + after) % 2 == 0 && 0 <= us < 1_000_000
    ensures before < after <==> 1_000_000 * before + us < 1_000_000 * after - us
  {
  }

  // ---------- AddTime on the fixed units ----------

  function FixedSpan(unit: Unit): int
    requires !unit.Mo? && !unit.Yr?
  {
    match unit
    case Us => 1 case Ms => 1000 case S => 1_000_000 case Min => 60_000_000
    case Hr => 3_600_000_000 case Day => 86_400_000_000
  }

  /** AddTime adds exactly count spans of a fixed unit. */
  lemma AddFixed(t: Time, unit: Unit, count: int)
    requires !unit.Mo? && !unit.Yr?
    ensures Added(t, unit, count).Micros() == t.Micros() + count * FixedSpan(unit)
  {
  }

  /** RollOver truncates toward zero, so a normal time stays normal unless a step below a second takes
      the microseconds below zero without reaching a whole second. */
  lemma AddKeepsNormalIff(t: Time, unit: Unit, count: int)
    requires t.Normal()
    ensures Added(t, unit, count).Normal()
       <==> (unit.Us? || unit.Ms? ==> var us := t.Us + count * FixedSpan(unit); us >= 0 || us % 1_000_000 == 0)
  {
    hide StepMonths, StepYears, TruncDiv, TruncMod;
    TruncModIff(t.Us);
    TruncModIff(t.Us + count);
    TruncModIff(t.Us + count * 1000);
  }

  lemma TruncModIff(us: int)
    ensures 0 <= TruncMod(us, 1_000_000) < 1_000_000 <==> us >= 0 || us % 1_000_000 == 0
  {
  }

  /** Exactly when adding n units, forward or back, to the k-th boundary gives boundary k + n. */
  lemma AddedAtIff(unit: Unit, k: int, n: int)
    ensures Added(At(unit, k), unit, n) == At(unit, k + n)
       <==> (unit.Us? || unit.Ms? ==> var us := At(unit, k).Us + n * FixedSpan(unit); us >= 0 || us % 1_000_000 == 0)
  {
    hide Added;
    if unit.Us? || unit.Ms? {
      AddKeepsNormalIff(At(unit, k), unit, n);
      AddFixed(At(unit, k), unit, n);
      NormalIsUnique(Added(At(unit, k), unit, n), At(unit, k + n));
      MicrosOfAt(unit, k);
      MicrosOfAt(unit, k + n);
      hide At;
    } else {
      AddedAt(unit, k, n);
    }
  }

  lemma MicrosOfAt(unit: Unit, k: int)
    requires unit.Us? || unit.Ms?
    ensures At(unit, k).Micros() == k * FixedSpan(unit)
  {
  }

  lemma NormalIsUnique(a: Time, b: Time)
    requires b.Normal() && a.Micros() == b.Micros()
    ensures a == b <==> a.Normal()
  {
  }

  // ---------- Arithmetic and conversions ----------

  /** Sums and differences are exact, but a difference that has to borrow a second is not normal. */
  lemma PlusMinusExact(a: Time, b: Time)
    ensures Plus(a, b).Micros() == a.Micros() + b.Micros()
    ensures Minus(a, b).Micros() == a.Micros() - b.Micros()
    ensures a.Normal() && b.Normal() ==> Plus(a, b).Normal() && (Minus(a, b).Normal() <==> a.Us >= b.Us)
  {
  }

  lemma ToDoubleIsMicros(t: Time)
    ensures t.ToDouble() * 1_000_000.0 == t.Micros() as real
  {
  }

  /** FromDouble keeps the whole microseconds of a real time, except for negative times with a
      fraction, which come out one second late. */
  lemma FromDoubleExact(x: real)
    ensures FromDouble(x).Normal()
    ensures FromDouble(x).Micros() == (x * 1_000_000.0).Floor <==> x >= 0.0 || x == x.Floor as real
    ensures x < 0.0 && x != x.Floor as real ==> FromDouble(x).Micros() == (x * 1_000_000.0).Floor + 1_000_000
  {
    var whole := x.Floor;
    var part := x * 1_000_000.0 - whole as real * 1_000_000.0;
    assert 0.0 <= part < 1_000_000.0;
    FloorPlusInt(part, 1_000_000 * whole);
    assert part + (1_000_000 * whole) as real == x * 1_000_000.0;
  }

  lemma FloorPlusInt(x: real, n: int)
    ensures (x + n as real).Floor == x.Floor + n
  {
  }

  // ---------- Where the promises fail ----------

  /** 0.7 s after second s is nearer to the next second, and 0.9999 s nearer to it than to 0.999 s, but
      both are rounded down. */
  lemma RoundingFails(s: int)
    ensures Rounded(Time(s, 700_000), S) == Time(s, 0) && Nearest(Time(s, 700_000), S) == Time(s + 1, 0)
    ensures Rounded(Time(s, 999_900), Ms) == Time(s, 999_000) && Nearest(Time(s, 999_900), Ms) == Time(s + 1, 0)
  {
    hide GmTime, MkGmtTime, ClearBelow, StepMonths, StepYears;
    DivModIs(1_000_000 * s + 999_900, 1000, 1000 * s + 999, 900);
    DivModIs(1000 * s + 999, 1000, s, 999);
    DivModIs(1000 * s + 1000, 1000, s + 1, 0);
  }

  /** An hour before the epoch, itself a minute, is "rounded" to the epoch. */
  lemma RoundingBeforeEpochFails(t: Time)
    requires t == Time(-3600, 0)
    ensures IsBoundary(t, Min) && Rounded(t, Min) == Time(0, 0)
  {
    hide IsBoundary, Rounded, At, Index, Added;
    MinuteBoundary(-60);
    RoundBeforeEpoch(t, Min);
  }

  /** A minute before the epoch is "floored" up to the epoch. */
  lemma FloorFails()
    ensures Floored(Time(-60, 0), Min) == Time(0, 0) && IsBoundary(Time(-60, 0), Min)
  {
    hide GmTime;
    FloorIsLastIff(Time(-60, 0), Min);
    BoundaryIffAt(Time(-60, 0), Min);
  }

  lemma MinuteBoundary(m: int)
    ensures IsBoundary(Time(60 * m, 0), Min) && Time(60 * m, 0) == At(Min, m) && Index(Time(60 * m, 0), Min) == m
    ensures Added(Time(60 * m, 0), Min, 1) == Time(60 * (m + 1), 0)
  {
    hide GmTime;
    BoundaryIffAt(Time(60 * m, 0), Min);
  }

  /** A minute after the epoch, itself a boundary, is "rounded up" to two minutes, and a minute before
      the epoch to one minute after it. */
  lemma CeilFails(after: Time, before: Time)
    requires after == Time(60, 0) && before == Time(-60, 0)
    ensures IsBoundary(after, Min) && Ceiled(after, Min) == Time(120, 0)
    ensures IsBoundary(before, Min) && Ceiled(before, Min) == Time(60, 0)
  {
    hide IsBoundary, Ceiled, Index, Added;
    MinuteBoundary(-1);
    MinuteBoundary(0);
    MinuteBoundary(1);
    CeiledIndex(after, Min);
    CeilBeforeEpoch(before, Min);
  }

  /** A microsecond before a full second is not normal, and differs from its normal form. */
  lemma AddNormalFails()
    ensures Added(Time(10, 0), Us, -1) == Time(10, -1) && Time(10, -1).Micros() == Time(9, 999_999).Micros()
  {
  }

  /** A difference that has to borrow a second has negative microseconds instead. */
  lemma MinusNormalFails(s: int)
    ensures Minus(Time(s, 0), Time(0, 1)) == Time(s, -1) && Time(s, -1).Micros() == Time(s - 1, 999_999).Micros()
  {
  }

  /** Half a second before the epoch becomes half a second after it. */
  lemma FromDoubleFails()
    ensures FromDouble(-0.5) == Time(0, 500_000)
  {
  }
}
