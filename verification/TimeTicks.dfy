/** The time axis locator: the choice of a minor step from tables and the generation of ticks. */
module TimeTicks {
  import opened Options
  import opened Numbers
  import opened Calendar
  import opened PlotTime
  import opened TimeBoundaries
  import opened TimeRounding

  // ---------- Step tables ----------

  /** How many leading entries are at most maxDivs. */
  function Fitting(maxDivs: int, divs: seq<int>): (n: nat)
    ensures n <= |divs|
    ensures forall i :: 0 <= i < n ==> divs[i] <= maxDivs
    ensures n < |divs| ==> maxDivs < divs[n]
  {
    if |divs| == 0 || maxDivs < divs[0] then 0 else 1 + Fitting(maxDivs, divs[1..])
  }

  function StepAt(n: nat, step: seq<int>): int
    requires n <= |step|
  {
    if n == 0 then 0 else step[n - 1]
  }

  method LowerBoundStep(maxDivs: int, divs: seq<int>, step: seq<int>) returns (s: int)
    requires 0 < |divs| == |step|
    ensures s == StepAt(Fitting(maxDivs, divs), step)
  {
    if maxDivs < divs[0] {
      return 0;
    }
    FittingIs(maxDivs, divs, |divs|);
    for i := 1 to |divs|
      invariant forall j :: 0 <= j < i ==> divs[j] <= maxDivs
    {
      if maxDivs < divs[i] {
        FittingIs(maxDivs, divs, i);
        return step[i - 1];
      }
    }
    FittingIs(maxDivs, divs, |divs|);
    return step[|divs| - 1];
  }

  lemma FittingIs(maxDivs: int, divs: seq<int>, n: nat)
    requires n <= |divs|
    ensures (forall i :: 0 <= i < n ==> divs[i] <= maxDivs) && (n < |divs| ==> maxDivs < divs[n])
        ==> Fitting(maxDivs, divs) == n
  {
  }

  /** The rows of the tables in GetTimeStep. */
  function Divs(unit: Unit): seq<int>
    requires !unit.Yr?
  {
    match unit
    case Us => [2, 4, 5, 10, 20, 40, 50, 100, 200, 500, 1000]
    case Ms => [2, 4, 5, 10, 20, 40, 50, 100, 200, 500, 1000]
    case S => [2, 4, 6, 12, 60]
    case Min => [2, 4, 6, 12, 60]
    case Hr => [2, 4, 8, 12, 24]
    case Day => [2, 4, 14, 28]
    case Mo => [2, 4, 6, 12]
  }

  function Steps(unit: Unit): (steps: seq<int>)
    requires !unit.Yr?
    ensures |steps| == |Divs(unit)|
  {
    match unit
    case Us => [500, 250, 200, 100, 50, 25, 20, 10, 5, 2, 1]
    case Ms => [500, 250, 200, 100, 50, 25, 20, 10, 5, 2, 1]
    case S => [30, 15, 10, 5, 1]
    case Min => [30, 15, 10, 5, 1]
    case Hr => [12, 6, 3, 2, 1]
    case Day => [14, 7, 2, 1]
    case Mo => [6, 3, 2, 1]
  }

  function TimeStep(maxDivs: int, unit: Unit): int {
    if unit.Yr? then 0 else StepAt(Fitting(maxDivs, Divs(unit)), Steps(unit))
  }

  method GetTimeStep(maxDivs: int, unit: Unit) returns (step: int)
    ensures step == TimeStep(maxDivs, unit)
    ensures unit.Yr? ==> step == 0
  {
    if unit.Yr? {
      return 0;
    }
    step := LowerBoundStep(maxDivs, Divs(unit), Steps(unit));
  }

  /** The guard of the minor loop makes the step positive, so the loop ends. */
  lemma StepIsPositive(maxDivs: int, unit: Unit)
    requires maxDivs > 1 && !unit.Yr?
    ensures 0 < TimeStep(maxDivs, unit)
  {
    hide Divs, Steps;
    SmallestDiv(unit);
    StepEntryPositive(unit, Fitting(maxDivs, Divs(unit)) - 1);
  }

  lemma StepEntryPositive(unit: Unit, i: nat)
    requires !unit.Yr? && i < |Steps(unit)|
    ensures Steps(unit)[i] > 0
  {
  }

  lemma SmallestDiv(unit: Unit)
    requires !unit.Yr?
    ensures |Divs(unit)| > 0 && Divs(unit)[0] == 2
  {
  }

  /** How many boundaries of a unit make up one of the next coarser unit. */
  function SpanCount(unit: Unit): int
    requires !unit.Yr? && !unit.Day?
  {
    match unit
    case Us => 1000 case Ms => 1000 case S => 60 case Min => 60 case Hr => 24 case Mo => 12
  }

  lemma LargestFitting(maxDivs: int, divs: seq<int>, i: nat)
    requires i < |divs| && divs[i] <= maxDivs && (forall a, b :: 0 <= a < b < |divs| ==> divs[a] < divs[b])
    ensures i < Fitting(maxDivs, divs) && divs[i] <= divs[Fitting(maxDivs, divs) - 1]
  {
  }

  lemma StepTimesDiv(unit: Unit, i: nat)
    requires !unit.Yr? && !unit.Day? && i < |Divs(unit)|
    ensures Steps(unit)[i] * Divs(unit)[i] == SpanCount(unit)
  {
    if unit.Us? || unit.Ms? {
      assert i in [0, 1, 2, 3, 4, 5, 6, 7, 8, 9, 10];
    } else {
      assert i in [0, 1, 2, 3, 4];
    }
  }

  lemma TablesIncrease(unit: Unit)
    requires !unit.Yr?
    ensures forall a, b :: 0 <= a < b < |Divs(unit)| ==> Divs(unit)[a] < Divs(unit)[b]
  {
  }

  /** Except for days, step times divisions is the whole span, and the division count is the largest
      table entry that does not exceed the requested density. */
  lemma StepFillsSpan(maxDivs: int, unit: Unit)
    requires maxDivs > 1 && !unit.Yr? && !unit.Day?
    ensures var n := Fitting(maxDivs, Divs(unit));
            && n > 0
            && TimeStep(maxDivs, unit) * Divs(unit)[n - 1] == SpanCount(unit)
            && Divs(unit)[n - 1] <= maxDivs
            && forall i :: 0 <= i < |Divs(unit)| && Divs(unit)[i] <= maxDivs ==> Divs(unit)[i] <= Divs(unit)[n - 1]
  {
    hide Divs, Steps, SpanCount;
    var n := Fitting(maxDivs, Divs(unit));
    TablesIncrease(unit);
    SmallestDiv(unit);
    StepTimesDiv(unit, n - 1);
    forall i | 0 <= i < |Divs(unit)| && Divs(unit)[i] <= maxDivs
      ensures Divs(unit)[i] <= Divs(unit)[n - 1]
    {
      LargestFitting(maxDivs, Divs(unit), i);
    }
  }

  /** The steps on offer for each unit. */
  function Offered(unit: Unit): set<int>
    requires !unit.Yr?
  {
    match unit
    case Us => {1, 2, 5, 10, 20, 25, 50, 100, 200, 250, 500}
    case Ms => {1, 2, 5, 10, 20, 25, 50, 100, 200, 250, 500}
    case S => {1, 5, 10, 15, 30}
    case Min => {1, 5, 10, 15, 30}
    case Hr => {1, 2, 3, 6, 12}
    case Day => {1, 2, 7, 14}
    case Mo => {1, 2, 3, 6}
  }

  /** The whole span; for days that of the shortest month. */
  function WholeSpan(unit: Unit): int
    requires !unit.Yr?
  {
    if unit.Day? then 28 else SpanCount(unit)
  }

  lemma StepAtTable(unit: Unit, n: nat)
    requires !unit.Yr? && n < |Steps(unit)|
    ensures Steps(unit)[n] in Offered(unit) && Steps(unit)[n] * Divs(unit)[n] == WholeSpan(unit)
  {
    if unit.Us? || unit.Ms? {
      assert n in [0, 1, 2, 3, 4, 5, 6, 7, 8, 9, 10];
    } else {
      assert n in [0, 1, 2, 3, 4];
    }
  }

  lemma OfferedIsTable(unit: Unit, a: int) returns (n: nat)
    requires !unit.Yr? && a in Offered(unit)
    ensures n < |Steps(unit)| && Steps(unit)[n] == a
  {
    n := if unit.Us? || unit.Ms? then
           (if a == 500 then 0 else if a == 250 then 1 else if a == 200 then 2 else if a == 100 then 3 else if a == 50 then 4
            else if a == 25 then 5 else if a == 20 then 6 else if a == 10 then 7 else if a == 5 then 8 else if a == 2 then 9 else 10)
         else if unit.S? || unit.Min? then
           (if a == 30 then 0 else if a == 15 then 1 else if a == 10 then 2 else if a == 5 then 3 else 4)
         else if unit.Hr? then
           (if a == 12 then 0 else if a == 6 then 1 else if a == 3 then 2 else if a == 2 then 3 else 4)
         else if unit.Day? then
           (if a == 14 then 0 else if a == 7 then 1 else if a == 2 then 2 else 3)
         else
           (if a == 6 then 0 else if a == 3 then 1 else if a == 2 then 2 else 3);
  }

  /** The step is the smallest one on offer that cuts the whole span into no more parts than wanted; there is
      none if fewer than two are wanted. */
  lemma StepIsSmallest(maxDivs: int, unit: Unit)
    requires !unit.Yr?
    ensures maxDivs < 2 ==> TimeStep(maxDivs, unit) == 0
    ensures maxDivs >= 2 ==>
              var step := TimeStep(maxDivs, unit);
              && step in Offered(unit) && WholeSpan(unit) <= step * maxDivs
              && forall a :: a in Offered(unit) && WholeSpan(unit) <= a * maxDivs ==> step <= a
  {
    hide Divs, Steps, Offered, WholeSpan;
    SmallestDiv(unit);
    if maxDivs >= 2 {
      var n := Fitting(maxDivs, Divs(unit));
      StepAtTable(unit, n - 1);
      StepEntryPositive(unit, n - 1);
      TimesMonotoneInt(Divs(unit)[n - 1], maxDivs, Steps(unit)[n - 1]);
      forall a | a in Offered(unit) && WholeSpan(unit) <= a * maxDivs ensures TimeStep(maxDivs, unit) <= a {
        var k := OfferedIsTable(unit, a);
        StepAtTable(unit, k);
        StepEntryPositive(unit, k);
        if k >= n {
          DivsAfterFitting(maxDivs, unit, k);
          StrictTimes(maxDivs, Divs(unit)[k], a);
        } else {
          StepsDecrease(unit, k, n - 1);
        }
      }
    }
  }

  lemma DivsAfterFitting(maxDivs: int, unit: Unit, k: nat)
    requires !unit.Yr? && Fitting(maxDivs, Divs(unit)) <= k < |Divs(unit)|
    ensures maxDivs < Divs(unit)[k]
  {
    hide Divs;
    TablesIncrease(unit);
  }

  lemma StepsDecrease(unit: Unit, a: nat, b: nat)
    requires !unit.Yr? && a <= b < |Steps(unit)|
    ensures Steps(unit)[b] <= Steps(unit)[a]
  {
  }

  lemma TimesMonotoneInt(a: int, b: int, d: int)
    requires a <= b && d > 0
    ensures d * a <= d * b
  {
  }

  lemma StrictTimes(a: int, b: int, d: int)
    requires a < b && d > 0
    ensures d * a < d * b
  {
  }

  // ---------- Ticks ----------

  /** The next coarser unit. */
  function Coarser(unit: Unit): Unit
    requires !unit.Yr?
  {
    match unit
    case Us => Ms case Ms => S case S => Min case Min => Hr case Hr => Day case Day => Mo case Mo => Yr
  }

  /** The number, among the boundaries of a unit, of the k-th boundary of the next coarser unit. */
  function First(unit: Unit, k: int): int
    requires !unit.Yr?
  {
    if unit.Day? then MonthStart(k) else SpanCount(unit) * k
  }

  lemma FirstIsAt(unit: Unit, k: int)
    requires !unit.Yr?
    ensures At(Coarser(unit), k) == At(unit, First(unit, k))
  {
    hide MonthStart;
    if unit.Us? {
      DivModIs(1000 * k, 1_000_000, k / 1000, 1000 * (k % 1000));
    } else if unit.Ms? {
      DivModIs(1000 * k, 1000, k, 0);
    }
  }

  /** A tick made with a label keeps its text, also when the label is hidden later. */
  datatype Tick = Tick(time: Time, major: bool, level: nat, showLabel: bool, text: string)

  /** The three formats of labels: for level 0, for level 1, and for the first label of level 1. */
  datatype Format = Level0 | Level1 | Level1First

  /** What the locator was asked for: the range of the axis, its pixels, the nominal label widths, and
      the formatter, which may be the user's. */
  datatype View = View(min: real, max: real, pixels: real, width0: real, width1: real, widthF: real, formatter: (Format, Time) -> string) {
    function Text(format: Format, t: Time): string {
      formatter(format, t)
    }

    predicate Valid() {
      min < max && pixels > 0.0 && width0 > 0.0 && width1 > 0.0 && widthF > 0.0
    }

    function TMin(): Time {
      FromDouble(min)
    }

    function TMax(): Time {
      FromDouble(max)
    }

    predicate Shows(t: Time) {
      LessEq(TMin(), t) && LessEq(t, TMax())
    }

    /** Pixels from one time to a later one. */
    function PixelsBetween(t: Time, later: Time): real
      requires Valid()
    {
      Minus(later, t).ToDouble() / (max - min) * pixels
    }
  }

  /** Pixels are proportional to microseconds, also when the difference of the times is not normal. */
  lemma PixelsBetweenIs(v: View, t: Time, later: Time)
    requires v.Valid()
    ensures v.PixelsBetween(t, later) == (later.Micros() - t.Micros()) as real / 1_000_000.0 / (v.max - v.min) * v.pixels
  {
    hide Minus;
    var d := Minus(later, t);
    PlusMinusExact(later, t);
    ToDoubleIsMicros(d);
    assert d.ToDouble() == (later.Micros() - t.Micros()) as real / 1_000_000.0;
  }

  function MinorTick(v: View, unit: Unit, m: int, end: int): Tick
    requires v.Valid()
  {
    var show := v.PixelsBetween(At(unit, m), At(unit, end)) >= v.width0;
    Tick(At(unit, m), false, 0, show, if show then v.Text(Level0, At(unit, m)) else "")
  }

  function MajorTick(v: View, t: Time): Tick {
    Tick(t, true, 0, true, v.Text(Level0, t))
  }

  /** Minor ticks at boundaries j, j + step, ... up to but excluding boundary end. */
  ghost function MinorTicks(v: View, unit: Unit, j: int, end: int, step: int): seq<Tick>
    requires v.Valid() && step > 0
    decreases end - j
  {
    if j >= end then []
    else (if v.Shows(At(unit, j)) then [MinorTick(v, unit, j, end)] else [])
         + MinorTicks(v, unit, j + step, end, step)
  }

  lemma NextMinorTick(v: View, unit: Unit, j: int, end: int, step: int)
    requires v.Valid() && step > 0
    ensures MinorTicks(v, unit, j, end, step) ==
            if j >= end then []
            else (if v.Shows(At(unit, j)) then [MinorTick(v, unit, j, end)] else []) + MinorTicks(v, unit, j + step, end, step)
  {
    hide At, View.Shows, MinorTick;
  }

  lemma MoreMinorTicks(v: View, unit: Unit, j: int, end: int, step: int, done: seq<Tick>, all: seq<Tick>)
    requires v.Valid() && step > 0 && j < end && done + MinorTicks(v, unit, j, end, step) == all
    ensures (done + if v.Shows(At(unit, j)) then [MinorTick(v, unit, j, end)] else []) + MinorTicks(v, unit, j + step, end, step) == all
  {
    hide At, View.Shows, MinorTick, MinorTicks;
    NextMinorTick(v, unit, j, end, step);
  }

  /** Adding step to boundary j gives boundary j + step, which comes before boundary end if its number does. */
  lemma StepsTo(unit: Unit, j: int, step: int, end: int)
    requires step >= 0
    ensures Added(At(unit, j), unit, step) == At(unit, j + step)
    ensures Less(At(unit, j + step), At(unit, end)) <==> j + step < end
  {
    hide Added, At;
    AddedAt(unit, j, step);
    AtOrder(unit, j + step, end);
  }

  /** The level 0 ticks of the k-th major division; no minor ticks when step is zero. */
  ghost function DivisionTicks(v: View, unit: Unit, k: int, step: int): seq<Tick>
    requires v.Valid() && !unit.Yr? && step >= 0
  {
    var t := At(Coarser(unit), k);
    (if v.Shows(t) then [MajorTick(v, t)] else [])
    + if step > 0 then MinorTicks(v, unit, First(unit, k) + step, First(unit, k + 1), step) else []
  }

  /** The level 0 ticks from the k-th division on. */
  ghost function ExpectedTicks(v: View, unit: Unit, k: int, step: int): seq<Tick>
    requires v.Valid() && !unit.Yr? && step >= 0
    decreases Index(v.TMax(), Coarser(unit)) + 1 - k
  {
    if !Less(At(Coarser(unit), k), v.TMax()) then []
    else
      BeforeMax(v, Coarser(unit), k);
      DivisionTicks(v, unit, k, step) + ExpectedTicks(v, unit, k + 1, step)
  }

  lemma BeforeMax(v: View, unit: Unit, k: int)
    requires v.Valid() && Less(At(unit, k), v.TMax())
    ensures k <= Index(v.TMax(), unit)
  {
    hide At, Index;
    var t := v.TMax();
    FromDoubleExact(v.max);
    IndexBrackets(t, unit);
    AtOrder(unit, k, Index(t, unit) + 1);
  }

  // ---------- Labels of level 1 ----------

  /** TimeLabelSame compares the two labels over the length of the shorter one, from their ends. */
  predicate LabelSame(l1: string, l2: string) {
    var n := if |l1| < |l2| then |l1| else |l2|;
    l1[|l1| - n..] == l2[|l2| - n..]
  }

  /** A minor tick has room for a level 1 label before the next major boundary. */
  predicate HasRoom(v: View, unit: Unit, t: Tick)
    requires v.Valid() && !unit.Yr?
  {
    t.showLabel && v.PixelsBetween(t.time, At(Coarser(unit), Index(t.time, Coarser(unit)) + 1)) >= (v.width1 + v.widthF) / 2.0
  }

  /** The level 1 tick made together with a level 0 tick, when `last` is the text of the last one made. */
  function Below(v: View, unit: Unit, t: Tick, last: Option<string>): Option<Tick>
    requires v.Valid() && !unit.Yr?
  {
    if t.major then
      var text := v.Text(if last.None? then Level1First else Level1, t.time);
      Some(Tick(t.time, true, 1, last.None? || !LabelSame(last.value, text), text))
    else if last.None? && HasRoom(v, unit, t) then Some(Tick(t.time, true, 1, true, v.Text(Level1First, t.time)))
    else None
  }

  /** The text of the last level 1 tick made together with the given level 0 ticks. */
  function LastLabel(v: View, unit: Unit, zero: seq<Tick>): Option<string>
    requires v.Valid() && !unit.Yr?
  {
    if |zero| == 0 then None
    else
      var last := LastLabel(v, unit, zero[..|zero| - 1]);
      var below := Below(v, unit, zero[|zero| - 1], last);
      if below.Some? then Some(below.value.text) else last
  }

  /** The level 0 ticks, each followed by the level 1 tick made together with it, if any. */
  function WithLabels(v: View, unit: Unit, zero: seq<Tick>): seq<Tick>
    requires v.Valid() && !unit.Yr?
  {
    if |zero| == 0 then []
    else
      var front, t := zero[..|zero| - 1], zero[|zero| - 1];
      var below := Below(v, unit, t, LastLabel(v, unit, front));
      WithLabels(v, unit, front) + [t] + if below.Some? then [below.value] else []
  }

  lemma OneMoreTick(v: View, unit: Unit, zero: seq<Tick>, t: Tick)
    requires v.Valid() && !unit.Yr?
    ensures var last := LastLabel(v, unit, zero);
            var below := Below(v, unit, t, last);
            && WithLabels(v, unit, zero + [t]) == (if below.Some? then WithLabels(v, unit, zero) + [t] + [below.value] else WithLabels(v, unit, zero) + [t])
            && LastLabel(v, unit, zero + [t]) == if below.Some? then Some(below.value.text) else last
  {
    assert (zero + [t])[..|zero|] == zero;
  }

  /** The boundary after a minor position of the k-th division is the end of that division. */
  lemma NextMajor(v: View, unit: Unit, k: int, j: int)
    requires !unit.Yr? && First(unit, k) <= j < First(unit, k + 1)
    ensures At(Coarser(unit), Index(At(unit, j), Coarser(unit)) + 1) == At(unit, First(unit, k + 1))
  {
    hide At, Index, First;
    FirstIsAt(unit, k);
    FirstIsAt(unit, k + 1);
    AtOrder(unit, First(unit, k), j);
    AtOrder(unit, j, First(unit, k + 1));
    IndexUnique(At(unit, j), Coarser(unit), k);
  }

  function OfLevel(ticks: seq<Tick>, level: nat): seq<Tick> {
    if |ticks| == 0 then []
    else OfLevel(ticks[..|ticks| - 1], level) + if ticks[|ticks| - 1].level == level then [ticks[|ticks| - 1]] else []
  }

  function Times(ticks: seq<Tick>): (times: seq<Time>)
    ensures |times| == |ticks|
  {
    seq(|ticks|, i requires 0 <= i < |ticks| => ticks[i].time)
  }

  function Majors(ticks: seq<Tick>): seq<Tick> {
    if |ticks| == 0 then []
    else Majors(ticks[..|ticks| - 1]) + if ticks[|ticks| - 1].major then [ticks[|ticks| - 1]] else []
  }

  /** The first tick, if any, that has room for a level 1 label before any major tick. */
  function Early(v: View, unit: Unit, zero: seq<Tick>): (early: seq<Tick>)
    requires v.Valid() && !unit.Yr?
    ensures |early| <= 1
  {
    if |zero| == 0 || zero[0].major then [] else if HasRoom(v, unit, zero[0]) then [zero[0]] else Early(v, unit, zero[1..])
  }

  /** Early is tick i exactly if that has room, and neither it nor any before is major or has room already. */
  lemma {:induction false} EarlyIff(v: View, unit: Unit, zero: seq<Tick>)
    requires v.Valid() && !unit.Yr?
    ensures if Early(v, unit, zero) == [] then
              forall i :: 0 <= i < |zero| && HasRoom(v, unit, zero[i]) ==> exists j :: 0 <= j <= i && zero[j].major
            else
              exists i :: 0 <= i < |zero| && Early(v, unit, zero) == [zero[i]] && !zero[i].major && HasRoom(v, unit, zero[i])
                          && forall j :: 0 <= j < i ==> !zero[j].major && !HasRoom(v, unit, zero[j])
  {
    hide HasRoom;
    if |zero| > 0 && !zero[0].major && !HasRoom(v, unit, zero[0]) {
      var rest := zero[1..];
      EarlyIff(v, unit, rest);
      if Early(v, unit, rest) == [] {
        forall i | 0 <= i < |zero| && HasRoom(v, unit, zero[i]) ensures exists j :: 0 <= j <= i && zero[j].major {
          assert rest[i - 1] == zero[i];
          var j :| 0 <= j <= i - 1 && rest[j].major;
          assert zero[j + 1].major;
        }
      } else {
        var i :| 0 <= i < |rest| && Early(v, unit, rest) == [rest[i]] && !rest[i].major && HasRoom(v, unit, rest[i])
                 && forall j :: 0 <= j < i ==> !rest[j].major && !HasRoom(v, unit, rest[j]);
        forall j | 0 <= j < i + 1 ensures !zero[j].major && !HasRoom(v, unit, zero[j]) {
          if j > 0 {
            assert rest[j - 1] == zero[j];
          }
        }
        assert zero[i + 1] == rest[i];
      }
    }
  }

  /** No level 1 label has been made as long as no tick is major or has room. */
  lemma {:induction false} LabelledIff(v: View, unit: Unit, zero: seq<Tick>)
    requires v.Valid() && !unit.Yr?
    ensures LastLabel(v, unit, zero).None? <==> forall i :: 0 <= i < |zero| ==> !zero[i].major && !HasRoom(v, unit, zero[i])
  {
    hide HasRoom;
    if |zero| > 0 {
      LabelledIff(v, unit, zero[..|zero| - 1]);
    }
  }

  lemma {:induction false} EarlyAppend(v: View, unit: Unit, zero: seq<Tick>, t: Tick)
    requires v.Valid() && !unit.Yr?
    ensures Early(v, unit, zero + [t]) ==
            if (forall i :: 0 <= i < |zero| ==> !zero[i].major && !HasRoom(v, unit, zero[i])) && !t.major && HasRoom(v, unit, t) then [t]
            else Early(v, unit, zero)
  {
    hide HasRoom;
    if |zero| > 0 {
      EarlyAppend(v, unit, zero[1..], t);
      assert (zero + [t])[1..] == zero[1..] + [t];
      assert forall i :: 1 <= i < |zero| ==> zero[1..][i - 1] == zero[i];
    }
  }

  lemma LevelsAppend(ticks: seq<Tick>, t: Tick, level: nat)
    ensures OfLevel(ticks + [t], level) == if t.level == level then OfLevel(ticks, level) + [t] else OfLevel(ticks, level)
    ensures Majors(ticks + [t]) == if t.major then Majors(ticks) + [t] else Majors(ticks)
    ensures Times(ticks + [t]) == Times(ticks) + [t.time]
  {
    assert (ticks + [t])[..|ticks|] == ticks;
  }

  /** Level 1 labels: the first in its own format, and each later one hidden exactly when it repeats the
      one before. */
  predicate LabelsInOrder(v: View, ticks: seq<Tick>) {
    && (forall i :: 0 <= i < |ticks| ==>
          && ticks[i].major && ticks[i].level == 1
          && ticks[i].text == v.Text(if i == 0 then Level1First else Level1, ticks[i].time))
    && (ticks != [] ==> ticks[0].showLabel)
    && forall i :: 1 <= i < |ticks| ==> (ticks[i].showLabel <==> !LabelSame(ticks[i - 1].text, ticks[i].text))
  }

  ghost predicate AllLevelZero(ticks: seq<Tick>) {
    forall i :: 0 <= i < |ticks| ==> ticks[i].level == 0
  }

  lemma LevelsStep(v: View, unit: Unit, zero: seq<Tick>, t: Tick)
    requires v.Valid() && !unit.Yr? && t.level == 0
    ensures var one := OfLevel(WithLabels(v, unit, zero), 1);
            var below := Below(v, unit, t, LastLabel(v, unit, zero));
            && OfLevel(WithLabels(v, unit, zero + [t]), 0) == OfLevel(WithLabels(v, unit, zero), 0) + [t]
            && OfLevel(WithLabels(v, unit, zero + [t]), 1) == if below.Some? then one + [below.value] else one
  {
    hide WithLabels, LastLabel, OfLevel, HasRoom, LabelSame, View.Text;
    var done, below := WithLabels(v, unit, zero), Below(v, unit, t, LastLabel(v, unit, zero));
    OneMoreTick(v, unit, zero, t);
    LevelsAppend(done, t, 0);
    LevelsAppend(done, t, 1);
    if below.Some? {
      LevelsAppend(done + [t], below.value, 0);
      LevelsAppend(done + [t], below.value, 1);
    }
  }

  /** Level 0 consists of the given ticks. */
  lemma {:induction false} LevelZeroIs(v: View, unit: Unit, zero: seq<Tick>)
    requires v.Valid() && !unit.Yr? && AllLevelZero(zero)
    ensures OfLevel(WithLabels(v, unit, zero), 0) == zero
  {
    hide HasRoom, LabelSame, View.Text;
    if |zero| > 0 {
      var front, t := zero[..|zero| - 1], zero[|zero| - 1];
      LevelZeroIs(v, unit, front);
      assert zero == front + [t];
      LevelsStep(v, unit, front, t);
    }
  }

  /** Level 1 consists of one tick for each major one, after the early one if there is any. */
  lemma {:induction false} LevelOneTimes(v: View, unit: Unit, zero: seq<Tick>)
    requires v.Valid() && !unit.Yr? && AllLevelZero(zero)
    ensures Times(OfLevel(WithLabels(v, unit, zero), 1)) == Times(Early(v, unit, zero)) + Times(Majors(zero))
  {
    hide *;
    if |zero| > 0 {
      var front, t := zero[..|zero| - 1], zero[|zero| - 1];
      LevelZeroParts(zero);
      LevelOneTimes(v, unit, front);
      assert zero == front + [t];
      LevelsStep(v, unit, front, t);
      LevelOneTimesStep(v, unit, front, t);
      var one, below := OfLevel(WithLabels(v, unit, front), 1), Below(v, unit, t, LastLabel(v, unit, front));
      if below.Some? {
        LevelsAppend(one, below.value, 1);
        BelowTime(v, unit, t, LastLabel(v, unit, front));
      }
    } else {
      NoTicks(v, unit);
    }
  }

  lemma LevelZeroParts(zero: seq<Tick>)
    requires |zero| > 0 && AllLevelZero(zero)
    ensures AllLevelZero(zero[..|zero| - 1]) && zero[|zero| - 1].level == 0
  {
  }

  lemma BelowTime(v: View, unit: Unit, t: Tick, last: Option<string>)
    requires v.Valid() && !unit.Yr?
    ensures Below(v, unit, t, last).Some? ==> Below(v, unit, t, last).value.time == t.time && Below(v, unit, t, last).value.level == 1
  {
    hide HasRoom, LabelSame, View.Text;
  }

  lemma NoTicks(v: View, unit: Unit)
    requires v.Valid() && !unit.Yr?
    ensures WithLabels(v, unit, []) == [] && OfLevel([], 1) == [] && Times([]) == [] && Early(v, unit, []) == [] && Majors([]) == []
  {
  }

  lemma LevelOneTimesStep(v: View, unit: Unit, zero: seq<Tick>, t: Tick)
    requires v.Valid() && !unit.Yr?
    ensures var below := Below(v, unit, t, LastLabel(v, unit, zero));
            Times(Early(v, unit, zero + [t])) + Times(Majors(zero + [t]))
            == Times(Early(v, unit, zero)) + Times(Majors(zero)) + if below.Some? then [below.value.time] else []
  {
    hide LastLabel, Majors, Early, HasRoom, LabelSame, View.Text;
    LabelledIff(v, unit, zero);
    EarlyAppend(v, unit, zero, t);
    if LastLabel(v, unit, zero).None? {
      NothingEarly(v, unit, zero);
    }
    LevelsAppend(zero, t, 0);
    LevelsAppend(Majors(zero), t, 0);
  }

  /** Before any tick is major or has room, there is neither an early tick nor a major one. */
  lemma {:induction false} NothingEarly(v: View, unit: Unit, zero: seq<Tick>)
    requires v.Valid() && !unit.Yr? && forall i :: 0 <= i < |zero| ==> !zero[i].major && !HasRoom(v, unit, zero[i])
    ensures Early(v, unit, zero) == [] && Majors(zero) == []
    decreases |zero|
  {
    hide HasRoom;
    if |zero| > 0 {
      NothingEarly(v, unit, zero[1..]);
      NothingEarly(v, unit, zero[..|zero| - 1]);
    }
  }

  lemma OneMoreLabel(v: View, one: seq<Tick>, x: Tick)
    requires LabelsInOrder(v, one) && x.major && x.level == 1
    requires x.text == v.Text(if one == [] then Level1First else Level1, x.time)
    requires x.showLabel <==> one == [] || !LabelSame(one[|one| - 1].text, x.text)
    ensures LabelsInOrder(v, one + [x])
  {
    hide LabelSame, View.Text;
  }

  /** The level 1 labels are in order, and the last of them is the one remembered. */
  lemma {:induction false} LabelsAre(v: View, unit: Unit, zero: seq<Tick>)
    requires v.Valid() && !unit.Yr? && AllLevelZero(zero)
    ensures var one := OfLevel(WithLabels(v, unit, zero), 1);
            LabelsInOrder(v, one) && LastLabel(v, unit, zero) == if one == [] then None else Some(one[|one| - 1].text)
  {
    hide HasRoom, LabelSame, View.Text, OfLevel, WithLabels;
    if |zero| > 0 {
      var front, t := zero[..|zero| - 1], zero[|zero| - 1];
      LabelsAre(v, unit, front);
      assert zero == front + [t];
      LevelsStep(v, unit, front, t);
      OneMoreTick(v, unit, front, t);
      var one, below := OfLevel(WithLabels(v, unit, front), 1), Below(v, unit, t, LastLabel(v, unit, front));
      if below.Some? {
        OneMoreLabel(v, one, below.value);
      }
    } else {
      NoTicks(v, unit);
    }
  }

  /** Each level 1 tick comes right behind a level 0 tick at the same time. */
  ghost predicate Follow(ticks: seq<Tick>) {
    forall i :: 0 <= i < |ticks| && ticks[i].level == 1 ==> i > 0 && IsBelow(ticks[i - 1], ticks[i])
  }

  predicate IsBelow(t: Tick, below: Tick) {
    t.level == 0 && below.time == t.time
  }

  lemma {:induction false} LabelsFollow(v: View, unit: Unit, zero: seq<Tick>)
    requires v.Valid() && !unit.Yr? && AllLevelZero(zero)
    ensures Follow(WithLabels(v, unit, zero))
  {
    hide HasRoom, LabelSame, View.Text, WithLabels;
    if |zero| > 0 {
      var front, t := zero[..|zero| - 1], zero[|zero| - 1];
      LabelsFollow(v, unit, front);
      assert zero == front + [t];
      OneMoreTick(v, unit, front, t);
    } else {
      NoTicks(v, unit);
    }
  }

  const SPANS: map<Unit, real> := map[Us := 0.000001, Ms := 0.001, S := 1.0, Min := 60.0, Hr := 3600.0,
                                      Day := 86400.0, Mo := 2629800.0, Yr := 31557600.0]

  /** How many level 0 labels fit between two level 1 divisions, at half the possible density. */
  function MinorPerMajor(v: View, unit0: Unit): int
    requires v.Valid() && !unit0.Yr?
  {
    Trunc(0.5 * (v.pixels / ((v.max - v.min) / SPANS[Coarser(unit0)])) / v.width0)
  }

  /** The spans are the lengths of the units in seconds; a year is 365.25 days, and a month a twelfth of it. */
  lemma SpansAre(unit: Unit)
    ensures unit in SPANS
    ensures !unit.Mo? && !unit.Yr? ==> SPANS[unit] * 1_000_000.0 == FixedSpan(unit) as real
    ensures SPANS[Yr] == 1461.0 / 4.0 * 86400.0 && SPANS[Mo] * 12.0 == SPANS[Yr]
  {
  }

  /** It is the largest whole number of labels that fill at most half of a nominal division. */
  lemma LabelsFit(v: View, unit0: Unit)
    requires v.Valid() && !unit0.Yr?
    ensures var n, half := MinorPerMajor(v, unit0), 0.5 * (v.pixels / ((v.max - v.min) / SPANS[Coarser(unit0)]));
            n as real * v.width0 <= half < (n + 1) as real * v.width0
  {
    var divisions := (v.max - v.min) / SPANS[Coarser(unit0)];
    assert divisions > 0.0;
    var half := 0.5 * (v.pixels / divisions);
    assert half > 0.0;
    var q := half / v.width0;
    QuotientTimes(half, v.width0, q);
    FloorOfQuotient(half, v.width0, q, Trunc(q));
  }

  lemma QuotientTimes(x: real, d: real, q: real)
    requires x > 0.0 && d > 0.0 && q == x / d
    ensures q * d == x && q > 0.0
  {
  }

  lemma FloorOfQuotient(x: real, d: real, q: real, n: int)
    requires d > 0.0 && q * d == x && n as real <= q < (n + 1) as real
    ensures n as real * d <= x < (n + 1) as real * d
  {
    TimesMonotone(n as real, q, d);
    TimesMonotone(q, (n + 1) as real, d);
  }

  lemma TimesMonotone(a: real, b: real, d: real)
    requires a <= b && d > 0.0
    ensures a * d <= b * d && (a < b ==> a * d < b * d)
  {
    assert (b - a) * d == b * d - a * d;
  }

  /** The step of the minor ticks, or zero when the guard lets none be made. */
  function MinorStep(v: View, unit0: Unit): (step: int)
    requires v.Valid() && !unit0.Yr?
    ensures step >= 0
  {
    var n := MinorPerMajor(v, unit0);
    if n > 1 then
      StepIsPositive(n, unit0);
      TimeStep(n, unit0)
    else 0
  }

  /** A division in terms of the guard and the step the code computes. */
  lemma DivisionParts(v: View, unit: Unit, k: int)
    requires v.Valid() && !unit.Yr?
    ensures var n, t := MinorPerMajor(v, unit), At(Coarser(unit), k);
            var step := TimeStep(n, unit);
            && (n > 1 ==> step > 0)
            && DivisionTicks(v, unit, k, MinorStep(v, unit))
               == (if v.Shows(t) then [MajorTick(v, t)] else [])
                  + if n > 1 then MinorTicks(v, unit, First(unit, k) + step, First(unit, k + 1), step) else []
    ensures Less(At(Coarser(unit), k), v.TMax()) ==> LessEq(At(Coarser(unit), k), v.TMax())
    ensures var t2 := At(Coarser(unit), k + 1); LessEq(v.TMin(), t2) || Less(t2, v.TMin())
  {
    hide At, First, MinorTicks, MinorPerMajor, TimeStep, FromDouble, View.Shows;
    var n := MinorPerMajor(v, unit);
    if n > 1 {
      StepIsPositive(n, unit);
    }
  }

  class TimeTicker {
    var Ticks: seq<Tick>
    var ctx: TimeContext

    constructor ()
      ensures Ticks == []
    {
      Ticks := [];
      ctx := new TimeContext();
    }

    /** The text is made only for a tick that shows its label. */
    method AddTick(v: View, time: Time, major: bool, level: nat, showLabel: bool, format: Format)
      modifies this`Ticks
      ensures Ticks == old(Ticks) + [Tick(time, major, level, showLabel, if showLabel then v.Text(format, time) else "")]
    {
      Ticks := Ticks + [Tick(time, major, level, showLabel, if showLabel then v.Text(format, time) else "")];
    }

    /** So far the given level 0 ticks have been made, with the level 1 ticks that go with them; `last`
        is the text at last_major_offset. */
    ghost predicate Made(v: View, unit0: Unit, before: seq<Tick>, zero: seq<Tick>, last: Option<string>)
      requires v.Valid() && !unit0.Yr?
      reads this`Ticks
    {
      Ticks == before + WithLabels(v, unit0, zero) && last == LastLabel(v, unit0, zero)
    }

    /** The body of the minor loop of Locator_Time, for the minor position t12 before t2. */
    method AddMinorTick(v: View, unit0: Unit, ghost k: int, ghost j: int, t12: Time, t2: Time, last: Option<string>,
                        ghost before: seq<Tick>, ghost zero: seq<Tick>)
      returns (last': Option<string>, ghost zero': seq<Tick>)
      requires v.Valid() && !unit0.Yr? && First(unit0, k) <= j < First(unit0, k + 1)
      requires t12 == At(unit0, j) && t2 == At(unit0, First(unit0, k + 1))
      requires Made(v, unit0, before, zero, last)
      modifies this`Ticks
      ensures zero' == zero + if v.Shows(t12) then [MinorTick(v, unit0, j, First(unit0, k + 1))] else []
      ensures Made(v, unit0, before, zero', last')
    {
      hide At, Index, First, Minus, FromDouble, WithLabels, LastLabel, View.PixelsBetween, View.Text;
      last', zero' := last, zero;
      var pxToT2 := v.PixelsBetween(t12, t2);
      if LessEq(v.TMin(), t12) && LessEq(t12, v.TMax()) {
        ghost var t := MinorTick(v, unit0, j, First(unit0, k + 1));
        OneMoreTick(v, unit0, zero, t);
        NextMajor(v, unit0, k, j);
        AddTick(v, t12, false, 0, pxToT2 >= v.width0, Level0);
        if last.None? && pxToT2 >= v.width0 && pxToT2 >= (v.width1 + v.widthF) / 2.0 {
          AddTick(v, t12, true, 1, true, Level1First);
          last' := Some(v.Text(Level1First, t12));
        }
        zero' := zero + [t];
      }
    }

    /** The minor loop of Locator_Time, between the k-th major boundary t1 and the next one t2. */
    method AddMinorTicks(v: View, unit0: Unit, ghost k: int, t1: Time, t2: Time, step: int, last: Option<string>,
                         ghost before: seq<Tick>, ghost zero: seq<Tick>)
      returns (last': Option<string>, ghost zero': seq<Tick>)
      requires v.Valid() && !unit0.Yr? && step > 0
      requires t1 == At(Coarser(unit0), k) && t2 == At(Coarser(unit0), k + 1)
      requires Made(v, unit0, before, zero, last)
      modifies this`Ticks, ctx
      ensures zero' == zero + MinorTicks(v, unit0, First(unit0, k) + step, First(unit0, k + 1), step)
      ensures Made(v, unit0, before, zero', last')
    {
      hide *;
      last', zero' := last, zero;
      ghost var start, end := First(unit0, k) + step, First(unit0, k + 1);
      FirstIsAt(unit0, k);
      FirstIsAt(unit0, k + 1);
      var t12 := ctx.AddTime(t1, unit0, step);
      ghost var j, done := start, [];
      ghost var all := MinorTicks(v, unit0, start, end, step);
      StepsTo(unit0, First(unit0, k), step, end);
      while Less(t12, t2)
        invariant ctx == old(ctx) && j >= start
        invariant t12 == At(unit0, j) && (Less(t12, t2) <==> j < end)
        invariant zero' == zero + done
        invariant done + MinorTicks(v, unit0, j, end, step) == all
        invariant Made(v, unit0, before, zero', last')
        decreases end - j
      {
        MoreMinorTicks(v, unit0, j, end, step, done, all);
        last', zero' := AddMinorTick(v, unit0, k, j, t12, t2, last', before, zero');
        done := done + if v.Shows(At(unit0, j)) then [MinorTick(v, unit0, j, end)] else [];
        t12 := ctx.AddTime(t12, unit0, step);
        StepsTo(unit0, j, step, end);
        j := j + step;
      }
      NextMinorTick(v, unit0, j, end, step);
    }

    /** The major tick at t1, with the level 1 tick under it, whose label is hidden if it repeats the last. */
    method AddMajorTick(v: View, unit0: Unit, t1: Time, last: Option<string>, ghost before: seq<Tick>, ghost zero: seq<Tick>)
      returns (last': Option<string>, ghost zero': seq<Tick>)
      requires v.Valid() && !unit0.Yr?
      requires Made(v, unit0, before, zero, last)
      modifies this`Ticks
      ensures zero' == zero + if v.Shows(t1) then [MajorTick(v, t1)] else []
      ensures Made(v, unit0, before, zero', last')
    {
      hide FromDouble, WithLabels, LastLabel, View.Text, LabelSame;
      last', zero' := last, zero;
      if LessEq(v.TMin(), t1) && LessEq(t1, v.TMax()) {
        OneMoreTick(v, unit0, zero, MajorTick(v, t1));
        AddTick(v, t1, true, 0, true, Level0);
        AddTick(v, t1, true, 1, true, if last.None? then Level1First else Level1);
        var tickMaj := Ticks[|Ticks| - 1];
        if last.Some? && LabelSame(last.value, tickMaj.text) {
          Ticks := Ticks[|Ticks| - 1 := tickMaj.(showLabel := false)];
        }
        last', zero' := Some(tickMaj.text), zero + [MajorTick(v, t1)];
      }
    }

    /** One pass of the outer loop of Locator_Time: the major tick at t1 and the minor ticks before t2.
        The source looks the step up once, before the loop; it depends only on the view and the unit. */
    method AddDivision(v: View, unit0: Unit, ghost k: int, t1: Time, t2: Time, last: Option<string>,
                       ghost before: seq<Tick>, ghost zero: seq<Tick>)
      returns (last': Option<string>, ghost zero': seq<Tick>)
      requires v.Valid() && !unit0.Yr?
      requires t1 == At(Coarser(unit0), k) && t2 == At(Coarser(unit0), k + 1) && Less(t1, v.TMax())
      requires Made(v, unit0, before, zero, last)
      modifies this`Ticks, ctx
      ensures zero' == zero + DivisionTicks(v, unit0, k, MinorStep(v, unit0))
      ensures Made(v, unit0, before, zero', last')
    {
      hide *;
      var tMin, tMax := v.TMin(), v.TMax();
      var minorPerMajor := MinorPerMajor(v, unit0);
      var step := GetTimeStep(minorPerMajor, unit0);
      DivisionParts(v, unit0, k);
      last', zero' := AddMajorTick(v, unit0, t1, last, before, zero);
      if minorPerMajor > 1 && LessEq(tMin, t2) && LessEq(t1, tMax) {
        last', zero' := AddMinorTicks(v, unit0, k, t1, t2, step, last', before, zero');
      } else if minorPerMajor > 1 {
        FirstIsAt(unit0, k + 1);
        NoMinorTicksBeforeMin(v, unit0, First(unit0, k) + step, First(unit0, k + 1), step);
      }
    }

    /** Locator_Time for units below the year, on a ticker that may hold other ticks already. */
    method Locate(v: View, unit0: Unit)
      requires v.Valid() && !unit0.Yr?
      modifies this`Ticks, ctx
      ensures |Ticks| >= |old(Ticks)| && Ticks[..|old(Ticks)|] == old(Ticks) && IsLocated(v, unit0, Ticks[|old(Ticks)|..])
    {
      hide *;
      var unit1 := Coarser(unit0);
      var tMin, tMax := v.TMin(), v.TMax();
      StartsAt(v, unit0);
      var last: Option<string> := None;
      var t1 := ctx.FloorTime(tMin, unit1);
      ghost var step := MinorStep(v, unit0);
      ghost var start := StartDivision(v, unit0);
      ghost var k, zero := start, [];
      ghost var all := ExpectedTicks(v, unit0, start, step);
      NothingMade(v, unit0);
      while Less(t1, tMax)
        invariant ctx == old(ctx)
        invariant t1 == At(unit1, k)
        invariant zero + ExpectedTicks(v, unit0, k, step) == all
        invariant Made(v, unit0, old(Ticks), zero, last)
        decreases Index(tMax, unit1) + 1 - k
      {
        BeforeMax(v, unit1, k);
        MoreDivisions(v, unit0, k, step, zero, all);
        var t2 := ctx.AddTime(t1, unit1, 1);
        AddedAt(unit1, k, 1);
        last, zero := AddDivision(v, unit0, k, t1, t2, last, old(Ticks), zero);
        t1 := t2;
        k := k + 1;
      }
      NoMoreDivisions(v, unit0, k, step, zero, all);
      MadeTicks(v, unit0, old(Ticks), zero, last);
      AreLocated(v, unit0);
    }

    lemma NothingMade(v: View, unit0: Unit)
      requires v.Valid() && !unit0.Yr?
      ensures Made(v, unit0, Ticks, [], None)
    {
    }

    lemma MadeTicks(v: View, unit0: Unit, before: seq<Tick>, zero: seq<Tick>, last: Option<string>)
      requires v.Valid() && !unit0.Yr? && Made(v, unit0, before, zero, last)
      ensures |Ticks| >= |before| && Ticks[..|before|] == before && Ticks[|before|..] == WithLabels(v, unit0, zero)
    {
    }
  }

  /** What the locator makes. Level 0 strictly increases inside the range, and its major ticks are exactly
      the boundaries b of the coarser unit with tMin <= b < tMax that are reached. Level 1 has one tick for
      each of those, after the early one if there is room for it, and hides each label that repeats the
      one before. */
  ghost predicate IsLocated(v: View, unit0: Unit, ticks: seq<Tick>)
    requires v.Valid() && !unit0.Yr?
  {
    var zero := ExpectedTicks(v, unit0, StartDivision(v, unit0), MinorStep(v, unit0));
    && ticks == WithLabels(v, unit0, zero)
    && OfLevel(ticks, 0) == zero
    && Times(OfLevel(ticks, 1)) == Times(Early(v, unit0, zero)) + Times(Majors(zero))
    && LabelsInOrder(v, OfLevel(ticks, 1))
    && Increasing(zero) && (forall t :: t in zero ==> v.Shows(t.time))
    && forall b: Time :: MajorTick(v, b) in zero
         <==> b.Normal() && IsBoundary(b, Coarser(unit0)) && LessEq(v.TMin(), b) && Less(b, v.TMax()) && Reached(v, unit0, b)
  }

  lemma AreLocated(v: View, unit0: Unit)
    requires v.Valid() && !unit0.Yr?
    ensures IsLocated(v, unit0, WithLabels(v, unit0, ExpectedTicks(v, unit0, StartDivision(v, unit0), MinorStep(v, unit0))))
  {
    hide StartDivision, MinorStep, ExpectedTicks, WithLabels, OfLevel, Times, Early, Majors, LabelsInOrder, Increasing, View.Shows,
         MajorTick, IsBoundary, Reached, FromDouble, AllLevelZero;
    var start, step := StartDivision(v, unit0), MinorStep(v, unit0);
    var zero := ExpectedTicks(v, unit0, start, step);
    AllTicksShown(v, unit0, start, step);
    ExpectedLevelZero(v, unit0, start, step);
    LevelZeroIs(v, unit0, zero);
    LevelOneTimes(v, unit0, zero);
    LabelsAre(v, unit0, zero);
    forall b: Time
      ensures MajorTick(v, b) in zero
         <==> b.Normal() && IsBoundary(b, Coarser(unit0)) && LessEq(v.TMin(), b) && Less(b, v.TMax()) && Reached(v, unit0, b)
    {
      MajorTicksAre(v, unit0, step, b);
    }
  }

  /** Where Locate starts. */
  function StartDivision(v: View, unit: Unit): int
    requires v.Valid() && !unit.Yr?
  {
    Index(if FloorInRange(v.TMin(), Coarser(unit)) then v.TMin() else Time(0, 0), Coarser(unit))
  }

  /** FloorTime starts at the epoch if the range starts before it, for the units that go through struct
      tm; boundaries before the epoch are then not reached. */
  predicate Reached(v: View, unit: Unit, t: Time)
    requires v.Valid() && !unit.Yr?
  {
    FloorInRange(t, Coarser(unit))
  }

  lemma ReachedIff(v: View, unit: Unit, k: int)
    requires v.Valid() && !unit.Yr? && Less(v.TMin(), At(Coarser(unit), k + 1))
    ensures k >= StartDivision(v, unit) <==> Reached(v, unit, At(Coarser(unit), k))
  {
    hide At, Index, FromDouble, Coarser;
    var unit1, tMin, e := Coarser(unit), v.TMin(), Time(0, 0);
    FromDoubleExact(v.min);
    var from := if FloorInRange(tMin, unit1) then tMin else e;
    var start := Index(from, unit1);
    IndexBrackets(from, unit1);
    AtOrder(unit1, k + 1, start);
    AtOrder(unit1, start, k);
    AtOrder(unit1, k, start);
    if from == e {
      EpochIsBoundary(unit1);
      var i :| At(unit1, i) == e;
      AtOrder(unit1, i, i + 1);
      IndexUnique(e, unit1, i);
    }
    if FloorInRange(tMin, unit1) {
      if tMin.S >= 0 {
        NotBeforeEpoch(tMin, unit1);
      }
    }
  }

  lemma StartsAt(v: View, unit: Unit)
    requires v.Valid() && !unit.Yr?
    ensures Floored(v.TMin(), Coarser(unit)) == At(Coarser(unit), StartDivision(v, unit))
  {
    hide Index, At, Floored, FromDouble;
    FromDoubleExact(v.min);
    var e := Time(0, 0);
    if FloorInRange(v.TMin(), Coarser(unit)) {
      FlooredIndex(v.TMin(), Coarser(unit));
    } else {
      FloorIsLastIff(v.TMin(), Coarser(unit));
      EpochFloors(Coarser(unit));
      FlooredIndex(e, Coarser(unit));
    }
  }

  lemma NextDivision(v: View, unit: Unit, k: int, step: int)
    requires v.Valid() && !unit.Yr? && step >= 0
    ensures ExpectedTicks(v, unit, k, step) ==
            if !Less(At(Coarser(unit), k), v.TMax()) then []
            else DivisionTicks(v, unit, k, step) + ExpectedTicks(v, unit, k + 1, step)
  {
    hide At, DivisionTicks, FromDouble, Index;
  }

  lemma MoreDivisions(v: View, unit: Unit, k: int, step: int, done: seq<Tick>, all: seq<Tick>)
    requires v.Valid() && !unit.Yr? && step >= 0
    requires Less(At(Coarser(unit), k), v.TMax()) && done + ExpectedTicks(v, unit, k, step) == all
    ensures (done + DivisionTicks(v, unit, k, step)) + ExpectedTicks(v, unit, k + 1, step) == all
  {
    hide *;
    NextDivision(v, unit, k, step);
  }

  lemma NoMoreDivisions(v: View, unit: Unit, k: int, step: int, done: seq<Tick>, all: seq<Tick>)
    requires v.Valid() && !unit.Yr? && step >= 0
    requires !Less(At(Coarser(unit), k), v.TMax()) && done + ExpectedTicks(v, unit, k, step) == all
    ensures done == all
  {
    hide *;
    NextDivision(v, unit, k, step);
  }

  /** The second guard of the minor loop only skips ticks that would not be shown. */
  lemma {:induction false} NoMinorTicksBeforeMin(v: View, unit: Unit, j: int, end: int, step: int)
    requires v.Valid() && step > 0 && Less(At(unit, end), v.TMin())
    ensures MinorTicks(v, unit, j, end, step) == []
    decreases end - j
  {
    hide At;
    if j < end {
      NoMinorTicksBeforeMin(v, unit, j + step, end, step);
      AtOrder(unit, j, end);
    }
  }

  // ---------- Which ticks those are ----------

  ghost predicate Increasing(ticks: seq<Tick>) {
    forall i, j :: 0 <= i < j < |ticks| ==> Less(ticks[i].time, ticks[j].time)
  }

  /** All ticks are shown and lie at or after lo. */
  ghost predicate From(v: View, ticks: seq<Tick>, lo: Time) {
    forall t :: t in ticks ==> v.Shows(t.time) && LessEq(lo, t.time)
  }

  ghost predicate Before(ticks: seq<Tick>, hi: Time) {
    forall t :: t in ticks ==> Less(t.time, hi)
  }

  lemma IncreasingConcat(v: View, a: seq<Tick>, b: seq<Tick>, mid: Time)
    requires Increasing(a) && Increasing(b) && Before(a, mid) && From(v, b, mid)
    ensures Increasing(a + b)
  {
    forall i, j | 0 <= i < j < |a + b|
      ensures Less((a + b)[i].time, (a + b)[j].time)
    {
      if i < |a| <= j {
        assert a[i] in a && b[j - |a|] in b;
      }
    }
  }

  lemma {:induction false} MinorTicksIncrease(v: View, unit: Unit, j: int, end: int, step: int)
    requires v.Valid() && step > 0
    ensures var ticks := MinorTicks(v, unit, j, end, step);
            Increasing(ticks) && From(v, ticks, At(unit, j)) && Before(ticks, At(unit, end))
    decreases end - j
  {
    hide At, View.Shows, View.PixelsBetween, MinorTicks, MinorTick;
    NextMinorTick(v, unit, j, end, step);
    if j < end {
      MinorTicksIncrease(v, unit, j + step, end, step);
      AtOrder(unit, j, j + step);
      AtOrder(unit, j, end);
      MinorTickTime(v, unit, j, end);
      var head := if v.Shows(At(unit, j)) then [MinorTick(v, unit, j, end)] else [];
      IncreasingConcat(v, head, MinorTicks(v, unit, j + step, end, step), At(unit, j + step));
    }
  }

  lemma MinorTickTime(v: View, unit: Unit, j: int, end: int)
    requires v.Valid()
    ensures MinorTick(v, unit, j, end).time == At(unit, j) && MinorTick(v, unit, j, end).level == 0
  {
  }

  lemma DivisionTicksIncrease(v: View, unit: Unit, k: int, step: int)
    requires v.Valid() && !unit.Yr? && step >= 0
    ensures var ticks := DivisionTicks(v, unit, k, step);
            Increasing(ticks) && From(v, ticks, At(Coarser(unit), k)) && Before(ticks, At(Coarser(unit), k + 1))
  {
    hide At, View.Shows, First, MinorTicks;
    AtOrder(Coarser(unit), k, k + 1);
    if step > 0 {
      var j := First(unit, k) + step;
      FirstIsAt(unit, k);
      FirstIsAt(unit, k + 1);
      MinorTicksIncrease(v, unit, j, First(unit, k + 1), step);
      AtOrder(unit, First(unit, k), j);
      var t := At(Coarser(unit), k);
      IncreasingConcat(v, if v.Shows(t) then [MajorTick(v, t)] else [],
                       MinorTicks(v, unit, j, First(unit, k + 1), step), At(unit, j));
    }
  }

  /** The level 0 ticks strictly increase and lie in the range of the axis. */
  lemma {:induction false} TicksIncrease(v: View, unit: Unit, k: int, step: int)
    requires v.Valid() && !unit.Yr? && step >= 0
    ensures var ticks := ExpectedTicks(v, unit, k, step);
            Increasing(ticks) && From(v, ticks, At(Coarser(unit), k))
    decreases Index(v.TMax(), Coarser(unit)) + 1 - k
  {
    hide At, Index, View.Shows, DivisionTicks;
    if Less(At(Coarser(unit), k), v.TMax()) {
      BeforeMax(v, Coarser(unit), k);
      TicksIncrease(v, unit, k + 1, step);
      DivisionTicksIncrease(v, unit, k, step);
      AtOrder(Coarser(unit), k, k + 1);
      IncreasingConcat(v, DivisionTicks(v, unit, k, step), ExpectedTicks(v, unit, k + 1, step), At(Coarser(unit), k + 1));
    }
  }

  lemma {:induction false} MinorLevelZero(v: View, unit: Unit, j: int, end: int, step: int)
    requires v.Valid() && step > 0
    ensures AllLevelZero(MinorTicks(v, unit, j, end, step))
    decreases end - j
  {
    hide At, View.Shows, MinorTick, MinorTicks;
    NextMinorTick(v, unit, j, end, step);
    if j < end {
      MinorLevelZero(v, unit, j + step, end, step);
      MinorTickTime(v, unit, j, end);
    }
  }

  lemma {:induction false} ExpectedLevelZero(v: View, unit: Unit, k: int, step: int)
    requires v.Valid() && !unit.Yr? && step >= 0
    ensures AllLevelZero(ExpectedTicks(v, unit, k, step))
    decreases Index(v.TMax(), Coarser(unit)) + 1 - k
  {
    hide *;
    NextDivision(v, unit, k, step);
    if Less(At(Coarser(unit), k), v.TMax()) {
      BeforeMax(v, Coarser(unit), k);
      ExpectedLevelZero(v, unit, k + 1, step);
      DivisionLevelZero(v, unit, k, step);
    }
    AllLevelZeroConcat(DivisionTicks(v, unit, k, step), ExpectedTicks(v, unit, k + 1, step));
  }

  lemma AllLevelZeroConcat(a: seq<Tick>, b: seq<Tick>)
    ensures AllLevelZero([]) && (AllLevelZero(a) && AllLevelZero(b) ==> AllLevelZero(a + b))
  {
  }

  lemma DivisionLevelZero(v: View, unit: Unit, k: int, step: int)
    requires v.Valid() && !unit.Yr? && step >= 0
    ensures AllLevelZero(DivisionTicks(v, unit, k, step))
  {
    hide At, View.Shows, First, MinorTicks;
    if step > 0 {
      MinorLevelZero(v, unit, First(unit, k) + step, First(unit, k + 1), step);
    }
  }

  lemma AllTicksShown(v: View, unit: Unit, k: int, step: int)
    requires v.Valid() && !unit.Yr? && step >= 0
    ensures Increasing(ExpectedTicks(v, unit, k, step)) && forall t :: t in ExpectedTicks(v, unit, k, step) ==> v.Shows(t.time)
  {
    hide ExpectedTicks, View.Shows;
    TicksIncrease(v, unit, k, step);
  }

  /** Boundary m is one of j, j + step, ... before end, and shown. */
  ghost predicate MinorAt(v: View, unit: Unit, j: int, end: int, step: int, m: int) {
    m < end && v.Shows(At(unit, m)) && exists i: nat :: m == j + i * step
  }

  lemma MinorAtStep(v: View, unit: Unit, j: int, end: int, step: int, m: int)
    requires step > 0 && j < end
    ensures MinorAt(v, unit, j, end, step, m) <==> (m == j && v.Shows(At(unit, j))) || MinorAt(v, unit, j + step, end, step, m)
  {
    hide At, View.Shows;
    if i: nat :| m == j + i * step {
      if i > 0 {
        assert m == (j + step) + (i - 1) * step;
      } else {
        assert m == j;
      }
    }
    if i: nat :| m == (j + step) + i * step {
      assert m == j + (i + 1) * step;
    }
    assert j == j + 0 * step;
  }

  lemma {:induction false} MinorTicksAre(v: View, unit: Unit, j: int, end: int, step: int, t: Tick)
    requires v.Valid() && step > 0
    ensures t in MinorTicks(v, unit, j, end, step) <==> exists m :: MinorAt(v, unit, j, end, step, m) && t == MinorTick(v, unit, m, end)
    decreases end - j
  {
    hide At, View.Shows, View.PixelsBetween, MinorAt;
    if j < end {
      MinorTicksAre(v, unit, j + step, end, step, t);
      assert t in MinorTicks(v, unit, j, end, step)
        <==> (v.Shows(At(unit, j)) && t == MinorTick(v, unit, j, end)) || t in MinorTicks(v, unit, j + step, end, step);
      forall m
        ensures MinorAt(v, unit, j, end, step, m) <==> (m == j && v.Shows(At(unit, j))) || MinorAt(v, unit, j + step, end, step, m)
      {
        MinorAtStep(v, unit, j, end, step, m);
      }
    } else {
      forall m ensures !MinorAt(v, unit, j, end, step, m) {
        NoMinorPastEnd(v, unit, j, end, step, m);
      }
    }
  }

  lemma NoMinorPastEnd(v: View, unit: Unit, j: int, end: int, step: int, m: int)
    requires step > 0 && j >= end
    ensures !MinorAt(v, unit, j, end, step, m)
  {
    if i: nat :| m == j + i * step {
      assert i * step >= 0;
    }
  }

  /** Boundary m is a minor tick of the k-th division. */
  ghost predicate MinorOf(v: View, unit: Unit, k: int, step: int, m: int)
    requires !unit.Yr?
  {
    MinorAt(v, unit, First(unit, k) + step, First(unit, k + 1), step, m)
  }

  /** A tick of the k-th division: its major tick if shown, or one of its minor ticks. */
  lemma DivisionTicksAre(v: View, unit: Unit, k: int, step: int, t: Tick)
    requires v.Valid() && !unit.Yr? && step >= 0
    ensures t in DivisionTicks(v, unit, k, step) <==>
            || (t == MajorTick(v, At(Coarser(unit), k)) && v.Shows(t.time))
            || (step > 0 && exists m :: MinorOf(v, unit, k, step, m) && t == MinorTick(v, unit, m, First(unit, k + 1)))
  {
    hide At, First, View.Shows, View.PixelsBetween, MinorAt;
    if step > 0 {
      var j, end := First(unit, k) + step, First(unit, k + 1);
      MinorTicksAre(v, unit, j, end, step, t);
      assert forall m :: MinorOf(v, unit, k, step, m) <==> MinorAt(v, unit, j, end, step, m);
    }
  }

  /** Every tick belongs to a division that starts in time, and every tick of such a division is made. */
  lemma {:induction false} ExpectedTicksAre(v: View, unit: Unit, k: int, step: int, t: Tick)
    requires v.Valid() && !unit.Yr? && step >= 0
    ensures t in ExpectedTicks(v, unit, k, step)
       <==> exists d :: d >= k && Less(At(Coarser(unit), d), v.TMax()) && t in DivisionTicks(v, unit, d, step)
    decreases Index(v.TMax(), Coarser(unit)) + 1 - k
  {
    hide At, Index, DivisionTicks, FromDouble;
    var unit1 := Coarser(unit);
    if Less(At(unit1, k), v.TMax()) {
      BeforeMax(v, unit1, k);
      ExpectedTicksAre(v, unit, k + 1, step, t);
    } else {
      forall d | d >= k ensures !Less(At(unit1, d), v.TMax()) {
        FromDoubleExact(v.max);
        AtOrder(unit1, k, d);
      }
    }
  }

  /** The level 0 major ticks are exactly the boundaries b of the coarser unit with tMin <= b < tMax,
      not counting those before the epoch that are not reached. */
  lemma MajorTicksAre(v: View, unit: Unit, step: int, b: Time)
    requires v.Valid() && !unit.Yr? && step >= 0
    ensures MajorTick(v, b) in ExpectedTicks(v, unit, StartDivision(v, unit), step)
       <==> b.Normal() && IsBoundary(b, Coarser(unit)) && LessEq(v.TMin(), b) && Less(b, v.TMax()) && Reached(v, unit, b)
  {
    hide At, Index, DivisionTicks, FromDouble, IsBoundary, MinorAt, First, StartDivision, Reached;
    var unit1, start, t := Coarser(unit), StartDivision(v, unit), MajorTick(v, b);
    FromDoubleExact(v.min);
    ExpectedTicksAre(v, unit, start, step, t);
    if t in ExpectedTicks(v, unit, start, step) {
      var d :| d >= start && Less(At(unit1, d), v.TMax()) && t in DivisionTicks(v, unit, d, step);
      DivisionTicksAre(v, unit, d, step, t);
      AtIsBoundary(unit1, d);
      BeforeNext(v.TMin(), unit1, d);
      ReachedIff(v, unit, d);
    }
    if b.Normal() && IsBoundary(b, unit1) && LessEq(v.TMin(), b) && Less(b, v.TMax()) && Reached(v, unit, b) {
      var d := BoundaryHasIndex(b, unit1);
      BeforeNext(v.TMin(), unit1, d);
      ReachedIff(v, unit, d);
      DivisionTicksAre(v, unit, d, step, t);
    }
  }

  lemma BeforeNext(t: Time, unit: Unit, k: int)
    requires t.Normal() && LessEq(t, At(unit, k))
    ensures Less(t, At(unit, k + 1))
  {
    hide At;
    AtOrder(unit, k, k + 1);
  }

  lemma FirstIncreases(unit: Unit, a: int, b: int)
    requires !unit.Yr? && a < b
    ensures First(unit, a) < First(unit, b)
  {
    if unit.Day? {
      MonthStartIncreases(a, b);
    }
  }

  lemma MinorOfIff(v: View, unit: Unit, d: int, step: int, m: int)
    requires !unit.Yr? && step > 0
    ensures MinorOf(v, unit, d, step, m)
       <==> m < First(unit, d + 1) && v.Shows(At(unit, m)) && exists i: nat :: i > 0 && m == First(unit, d) + i * step
    ensures MinorOf(v, unit, d, step, m) ==> First(unit, d) < m < First(unit, d + 1)
  {
    hide At, First, View.Shows;
    var f := First(unit, d);
    if i: nat :| m == (f + step) + i * step {
      assert m == f + (i + 1) * step && (i + 1) * step > 0;
    }
    if i: nat :| i > 0 && m == f + i * step {
      assert m == (f + step) + (i - 1) * step;
    }
  }

  /** The minor ticks are exactly the shown boundaries a positive number of steps after the start of
      their division and before its end. */
  lemma MinorTicksAreSteps(v: View, unit: Unit, step: int, m: int, d: int)
    requires v.Valid() && !unit.Yr? && step > 0
    requires First(unit, d) <= m < First(unit, d + 1)
    ensures MinorTick(v, unit, m, First(unit, d + 1)) in ExpectedTicks(v, unit, StartDivision(v, unit), step)
       <==> v.Shows(At(unit, m)) && Reached(v, unit, At(Coarser(unit), d)) && exists i: nat :: i > 0 && m == First(unit, d) + i * step
  {
    hide StartDivision, Reached, At, Index, First, DivisionTicks, ExpectedTicks, FromDouble, MinorOf, View.PixelsBetween;
    var start, t := StartDivision(v, unit), MinorTick(v, unit, m, First(unit, d + 1));
    ExpectedTicksAre(v, unit, start, step, t);
    MinorOfIff(v, unit, d, step, m);
    if t in ExpectedTicks(v, unit, start, step) {
      var e :| e >= start && Less(At(Coarser(unit), e), v.TMax()) && t in DivisionTicks(v, unit, e, step);
      DivisionTicksAre(v, unit, e, step, t);
      var n :| MinorOf(v, unit, e, step, n) && t == MinorTick(v, unit, n, First(unit, e + 1));
      AtOrder(unit, m, n);
      AtOrder(unit, n, m);
      MinorOfIff(v, unit, e, step, m);
      SameDivision(unit, d, e, m);
      ShownDivisionIsMade(v, unit, d, m);
    }
    if MinorOf(v, unit, d, step, m) {
      DivisionTicksAre(v, unit, d, step, t);
      ShownDivisionIsMade(v, unit, d, m);
    }
  }

  lemma SameDivision(unit: Unit, d: int, e: int, m: int)
    requires !unit.Yr? && First(unit, d) <= m < First(unit, d + 1) && First(unit, e) <= m < First(unit, e + 1)
    ensures d == e
  {
    hide First;
    if d < e {
      if d + 1 < e { FirstIncreases(unit, d + 1, e); }
    } else if e < d {
      if e + 1 < d { FirstIncreases(unit, e + 1, d); }
    }
  }

  /** A division with a shown minor position starts before the end of the range, and is made if it is reached. */
  lemma ShownDivisionIsMade(v: View, unit: Unit, d: int, m: int)
    requires v.Valid() && !unit.Yr? && First(unit, d) < m < First(unit, d + 1) && v.Shows(At(unit, m))
    ensures Less(At(Coarser(unit), d), v.TMax()) && (d >= StartDivision(v, unit) <==> Reached(v, unit, At(Coarser(unit), d)))
  {
    hide At, Index, First, FromDouble, StartDivision, Reached;
    FromDoubleExact(v.min);
    FromDoubleExact(v.max);
    FirstIsAt(unit, d);
    FirstIsAt(unit, d + 1);
    AtOrder(unit, First(unit, d), m);
    AtOrder(unit, m, First(unit, d + 1));
    ReachedIff(v, unit, d);
  }

  lemma StepsWithin(step: int, divs: int, i: int)
    requires step > 0
    ensures 0 < i * step < step * divs <==> 1 <= i < divs
  {
    TimesOrder(step, i, divs);
    TimesOrder(step, divs, i);
    TimesOrder(step, 0, i);
    TimesOrder(step, i, 0);
  }

  lemma TimesOrder(step: int, a: int, b: int)
    requires step > 0
    ensures a < b ==> a * step < b * step
    ensures a == b ==> a * step == b * step
  {
    if a < b {
      MulAtLeast(step, b - a);
      assert (b - a) * step == b * step - a * step;
    }
  }

  lemma DivisionLength(unit: Unit, d: int)
    requires !unit.Yr? && !unit.Day?
    ensures First(unit, d + 1) == First(unit, d) + SpanCount(unit)
  {
  }

  /** Except for days, there are exactly divs - 1 minor positions in every division, evenly spaced: one
      for each i with 1 <= i < divs. */
  lemma DivisionsBetweenMajors(maxDivs: int, unit: Unit, d: int, i: int)
    requires maxDivs > 1 && !unit.Yr? && !unit.Day?
    ensures var step, divs := TimeStep(maxDivs, unit), Divs(unit)[Fitting(maxDivs, Divs(unit)) - 1];
            First(unit, d) < First(unit, d) + i * step < First(unit, d + 1) <==> 1 <= i < divs
  {
    hide Divs, TimeStep, First, SpanCount;
    var n := Fitting(maxDivs, Divs(unit));
    StepFillsSpan(maxDivs, unit);
    StepIsPositive(maxDivs, unit);
    DivisionLength(unit, d);
    StepsWithin(TimeStep(maxDivs, unit), Divs(unit)[n - 1], i);
  }

  // ---------- The ticks in terms of the axis ----------

  /** The microseconds of a limit of the axis: the whole ones below it, or for negative limits with a fraction,
      which are read one second late, those a second after. */
  function LimitMicros(x: real): int {
    (1_000_000.0 * x).Floor + if x < 0.0 && x != x.Floor as real then 1_000_000 else 0
  }

  lemma LimitsAre(v: View)
    ensures v.TMin().Normal() && v.TMin().Micros() == LimitMicros(v.min)
    ensures v.TMax().Normal() && v.TMax().Micros() == LimitMicros(v.max)
  {
    FromDoubleExact(v.min);
    FromDoubleExact(v.max);
  }

  lemma ShownIff(v: View, t: Time)
    requires t.Normal()
    ensures v.Shows(t) <==> LimitMicros(v.min) <= t.Micros() <= LimitMicros(v.max)
    ensures Less(t, v.TMax()) <==> t.Micros() < LimitMicros(v.max)
  {
    hide LimitMicros, FromDouble, View.TMin, View.TMax;
    LimitsAre(v);
    LessIsMicros(v.TMin(), t);
    LessIsMicros(t, v.TMax());
  }

  /** Level 0 of the ticks the locator makes. */
  ghost function LevelZeroTicks(v: View, unit: Unit): seq<Tick>
    requires v.Valid() && !unit.Yr?
  {
    ExpectedTicks(v, unit, StartDivision(v, unit), MinorStep(v, unit))
  }

  /** The major ticks in terms of the axis limits: the boundaries of the next coarser unit from the lower limit
      on and below the upper one, except those before the epoch of the units from the minute up. */
  lemma MajorTickIff(v: View, unit: Unit, b: Time)
    requires v.Valid() && !unit.Yr?
    ensures Tick(b, true, 0, true, v.formatter(Level0, b)) in LevelZeroTicks(v, unit)
       <==> && b.Normal() && IsBoundary(b, Coarser(unit)) && (b.S >= 0 || unit.Us? || unit.Ms?)
            && LimitMicros(v.min) <= b.Micros() < LimitMicros(v.max)
  {
    hide ExpectedTicks, StartDivision, MinorStep, IsBoundary, LimitMicros, FromDouble;
    MajorTicksAre(v, unit, MinorStep(v, unit), b);
    if b.Normal() {
      ShownIff(v, b);
    }
  }

  /** The pixels between the m-th boundary of the unit and the end of the d-th division. */
  function PixelsToEnd(v: View, unit: Unit, d: int, m: int): real
    requires v.Valid() && !unit.Yr?
  {
    (At(Coarser(unit), d + 1).Micros() - At(unit, m).Micros()) as real / 1_000_000.0 / (v.max - v.min) * v.pixels
  }

  /** The minor ticks in the same terms: at every whole number of steps inside a division, if there is room for
      more than one label in a division; their labels are shown if they end before the next major tick. */
  lemma MinorTickIff(v: View, unit: Unit, d: int, m: int)
    requires v.Valid() && !unit.Yr? && First(unit, d) <= m < First(unit, d + 1)
    ensures var t, n := At(unit, m), MinorPerMajor(v, unit);
            var show := PixelsToEnd(v, unit, d, m) >= v.width0;
            Tick(t, false, 0, show, if show then v.formatter(Level0, t) else "") in LevelZeroTicks(v, unit) <==>
              && n > 1 && (exists i: nat :: i > 0 && m == First(unit, d) + i * TimeStep(n, unit))
              && (At(Coarser(unit), d).S >= 0 || unit.Us? || unit.Ms?)
              && LimitMicros(v.min) <= t.Micros() <= LimitMicros(v.max)
  {
    hide ExpectedTicks, StartDivision, LimitMicros, FromDouble, At, First, TimeStep, MinorPerMajor, View.PixelsBetween, View.Shows;
    MinorTickIs(v, unit, d, m);
    ShownIff(v, At(unit, m));
    var n := MinorPerMajor(v, unit);
    if n > 1 {
      StepIsPositive(n, unit);
      MinorTicksAreSteps(v, unit, TimeStep(n, unit), m, d);
    } else {
      NoMinorTicks(v, unit, StartDivision(v, unit), MinorTick(v, unit, m, First(unit, d + 1)));
    }
  }

  lemma MinorTickIs(v: View, unit: Unit, d: int, m: int)
    requires v.Valid() && !unit.Yr?
    ensures var show := PixelsToEnd(v, unit, d, m) >= v.width0;
            MinorTick(v, unit, m, First(unit, d + 1))
            == Tick(At(unit, m), false, 0, show, if show then v.formatter(Level0, At(unit, m)) else "")
  {
    hide At, First, View.PixelsBetween;
    FirstIsAt(unit, d + 1);
    PixelsBetweenIs(v, At(unit, m), At(Coarser(unit), d + 1));
  }

  lemma NoMinorTicks(v: View, unit: Unit, k: int, t: Tick)
    requires v.Valid() && !unit.Yr? && !t.major
    ensures t !in ExpectedTicks(v, unit, k, 0)
  {
    hide ExpectedTicks, DivisionTicks, At, FromDouble;
    ExpectedTicksAre(v, unit, k, 0, t);
    forall d ensures t !in DivisionTicks(v, unit, d, 0) {
      DivisionTicksAre(v, unit, d, 0, t);
    }
  }

  /** There are no other ticks on level 0. */
  lemma EveryTickIs(v: View, unit: Unit, x: Tick) returns (d: int, m: int)
    requires v.Valid() && !unit.Yr? && x in LevelZeroTicks(v, unit)
    ensures LimitMicros(v.min) <= x.time.Micros() <= LimitMicros(v.max)
    ensures x == Tick(x.time, true, 0, true, v.formatter(Level0, x.time))
         || (First(unit, d) < m < First(unit, d + 1)
             && var show := PixelsToEnd(v, unit, d, m) >= v.width0;
                x == Tick(At(unit, m), false, 0, show, if show then v.formatter(Level0, At(unit, m)) else ""))
  {
    hide ExpectedTicks, StartDivision, LimitMicros, FromDouble, At, First, DivisionTicks, View.PixelsBetween, View.Shows, MinorStep, MinorOf, PixelsToEnd;
    var start, step := StartDivision(v, unit), MinorStep(v, unit);
    AllTicksShown(v, unit, start, step);
    ExpectedTicksAre(v, unit, start, step, x);
    d :| d >= start && Less(At(Coarser(unit), d), v.TMax()) && x in DivisionTicks(v, unit, d, step);
    DivisionTicksAre(v, unit, d, step, x);
    m := 0;
    if x != MajorTick(v, At(Coarser(unit), d)) {
      m :| MinorOf(v, unit, d, step, m) && x == MinorTick(v, unit, m, First(unit, d + 1));
      MinorOfIff(v, unit, d, step, m);
      MinorTickIs(v, unit, d, m);
    }
    ShownIff(v, x.time);
  }

  /** A minor tick can carry the early level 1 label exactly if half that label and half of a usual one fit
      before the end of its division, and its own label does. */
  lemma HasRoomIff(v: View, unit: Unit, d: int, m: int)
    requires v.Valid() && !unit.Yr? && First(unit, d) <= m < First(unit, d + 1)
    ensures HasRoom(v, unit, MinorTick(v, unit, m, First(unit, d + 1)))
       <==> PixelsToEnd(v, unit, d, m) >= v.width0 && PixelsToEnd(v, unit, d, m) >= (v.width1 + v.widthF) / 2.0
  {
    hide At, Index, First, View.PixelsBetween;
    NextMajor(v, unit, d, m);
    FirstIsAt(unit, d + 1);
    PixelsBetweenIs(v, At(unit, m), At(Coarser(unit), d + 1));
  }

  /** Two labels repeat each other exactly if one of them is the end of the other. */
  lemma LabelSameIff(l1: string, l2: string)
    ensures LabelSame(l1, l2) <==> (exists p: string :: l1 == p + l2) || exists p: string :: l2 == p + l1
  {
    if |l1| >= |l2| {
      assert l1 == l1[..|l1| - |l2|] + l1[|l1| - |l2|..];
    }
    if |l2| >= |l1| {
      assert l2 == l2[..|l2| - |l1|] + l2[|l2| - |l1|..];
    }
  }

  /** On an axis from 0 to 12 hours there is a major tick at 10 hours. */
  lemma TickAtTenHours(v: View, b: Time)
    requires v.Valid() && v.min == 0.0 && v.max == 43200.0 && b == Time(36000, 0)
    ensures Tick(b, true, 0, true, v.formatter(Level0, b)) in LevelZeroTicks(v, Min)
  {
    hide LevelZeroTicks, IsBoundary, At, Index;
    HourBoundary(10);
    assert (1_000_000.0 * v.max).Floor == 43_200_000_000;
    MajorTickIff(v, Min, b);
  }

  lemma HourBoundary(h: int)
    ensures IsBoundary(Time(3600 * h, 0), Hr)
  {
    hide IsBoundary;
    AtIsBoundary(Hr, h);
  }
}
