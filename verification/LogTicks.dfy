/** The logarithmic tick locator. */
module LogTicks {
  import opened Numbers
  import opened Ranges

  /** 10 to an integer power. */
  function Pow10(e: int): (p: real)
    ensures p > 0.0
    decreases if e < 0 then -e else e
  {
    if e == 0 then 1.0 else if e > 0 then 10.0 * Pow10(e - 1) else Pow10(e + 1) / 10.0
  }

  datatype Tick = Tick(pos: real, major: bool, showLabel: bool)

  predicate InTolerance(range: Range, x: real) {
    range.min - DBL_EPSILON <= x <= range.max + DBL_EPSILON
  }

  function Sign(x: real): real {
    if x > 0.0 then 1.0 else if x < 0.0 then -1.0 else 0.0
  }

  /** The value m * 10^k, on the side of zero given by sign. */
  function Value(sign: real, m: int, k: int): real {
    sign * m as real * Pow10(k)
  }

  // ---------- The ticks to expect ----------

  /** The positions of the log grid, numbered in order of magnitude: nine to a decade. */
  function Decade(p: int): int {
    p / 9
  }

  function Digit(p: int): int {
    p % 9 + 1
  }

  function ValueAt(sign: real, p: int): real {
    Value(sign, Digit(p), Decade(p))
  }

  /** The major positions: the start of every step-th decade, counted from decade base. */
  predicate MajorAt(p: int, base: int, step: int)
    requires step > 0
  {
    Digit(p) == 1 && (Decade(p) - base) % step == 0
  }

  /** The tick for position p; only major ticks carry a label. */
  function TickAt(sign: real, p: int, base: int, step: int): Tick
    requires step > 0
  {
    Tick(ValueAt(sign, p), MajorAt(p, base, step), MajorAt(p, base, step))
  }

  /** One tick for each position from p up to end whose value lies in the range. */
  function GridTicks(range: Range, sign: real, p: int, end: int, base: int, step: int): seq<Tick>
    requires step > 0
    decreases end - p
  {
    if p >= end then []
    else (if InTolerance(range, ValueAt(sign, p)) then [TickAt(sign, p, base, step)] else [])
         + GridTicks(range, sign, p + 1, end, base, step)
  }

  lemma Pow10Is()
    ensures Pow10(0) == 1.0 && Pow10(1) == 10.0 && Pow10(-1) == 0.1
  {
  }

  lemma SignIs(x: real)
    ensures Sign(x) == if x > 0.0 then 1.0 else if x == 0.0 then 0.0 else -1.0
  {
  }

  lemma Pow10Next(k: int)
    ensures Pow10(k + 1) == 10.0 * Pow10(k)
  {
  }

  /** Nine equal parts of decade k step through its digits, the ninth to the start of the next decade. */
  lemma MinorValue(sign: real, k: int, i: int)
    requires 0 <= i <= 9
    ensures sign * Pow10(k) + i as real * ((sign * Pow10(k + 1) - sign * Pow10(k)) / 9.0) == ValueAt(sign, 9 * k + i)
  {
    Pow10Next(k);
    var q := sign * Pow10(k);
    assert sign * Pow10(k + 1) == 10.0 * q;
    assert (10.0 * q - q) / 9.0 == q;
    assert Value(sign, i + 1, k) == (i + 1) as real * q;
    assert Value(sign, 1, k + 1) == sign * Pow10(k + 1);
    assert Digit(9 * k + i) == if i == 9 then 1 else i + 1;
    assert Decade(9 * k + i) == if i == 9 then k + 1 else k;
  }

  lemma OffsetMod(x: int, step: int, j: int)
    requires step > 0 && x % step == 0 && 0 <= j < step
    ensures (x + j) % step == j
  {
    DivModIs(x + j, step, x / step, j);
  }

  /** Within a block only its first position is major. */
  lemma BlockMajor(e: int, base: int, step: int, j: int, i: int)
    requires step > 0 && (e - base) % step == 0 && 0 <= j < step && 0 <= i <= 9 && (i == 9 ==> j < step - 1)
    ensures MajorAt(9 * (e + j) + i, base, step) <==> j == 0 && i == 0
  {
    var p := 9 * (e + j) + i;
    assert Digit(p) == if i == 9 then 1 else i + 1;
    assert Decade(p) == if i == 9 then e + j + 1 else e + j;
    OffsetMod(e - base, step, if i == 9 then j + 1 else j);
    assert Decade(p) - base == e - base + if i == 9 then j + 1 else j;
  }

  /** Where the block loop ends. */
  function BlockEnd(e: int, limit: int, step: int): (end: int)
    requires step > 0
    ensures limit <= end && e <= end && (e < limit ==> end < limit + step)
    decreases limit - e
  {
    if e >= limit then e else BlockEnd(e + step, limit, step)
  }

  class LogTicker {
    var Ticks: seq<Tick>

    constructor ()
      ensures Ticks == []
    {
      Ticks := [];
    }

    /** AddTick guarded by the range test of the locator, for the value of grid position p. */
    method AddInRange(range: Range, pos: real, major: bool, showLabel: bool,
                      ghost sign: real, ghost p: int, ghost end: int, ghost base: int, ghost step: int)
      requires step > 0 && p < end && pos == ValueAt(sign, p) && major == showLabel == MajorAt(p, base, step)
      modifies this
      ensures Ticks + GridTicks(range, sign, p + 1, end, base, step) == old(Ticks) + GridTicks(range, sign, p, end, base, step)
    {
      if pos >= range.min - DBL_EPSILON && pos <= range.max + DBL_EPSILON {
        Ticks := Ticks + [Tick(pos, major, showLabel)];
      }
    }

    /** One block of AddTicksLogarithmic: the major tick of decade e and the minor ticks up to the next block. */
    method AddBlock(range: Range, sign: real, e: int, step: int, ghost base: int, ghost end: int)
      requires step > 0 && (e - base) % step == 0 && 9 * (e + step) <= end
      modifies this
      ensures Ticks + GridTicks(range, sign, 9 * (e + step), end, base, step) == old(Ticks) + GridTicks(range, sign, 9 * e, end, base, step)
    {
      hide ValueAt, MajorAt, InTolerance, Pow10, GridTicks;
      ghost var all := Ticks + GridTicks(range, sign, 9 * e, end, base, step);
      MinorValue(sign, e, 0);
      BlockMajor(e, base, step, 0, 0);
      AddInRange(range, sign * Pow10(e), true, true, sign, 9 * e, end, base, step);
      var j := 0;
      while j < step
        invariant 0 <= j <= step
        invariant Ticks + GridTicks(range, sign, if j < step then 9 * (e + j) + 1 else 9 * (e + step), end, base, step) == all
      {
        var major1 := sign * Pow10(e + j);
        var major2 := sign * Pow10(e + j + 1);
        var interval := (major2 - major1) / 9.0;
        var last := 9 + if j < step - 1 then 1 else 0;
        var i := 1;
        while i < last
          invariant 1 <= i <= last
          invariant Ticks + GridTicks(range, sign, 9 * (e + j) + i, end, base, step) == all
        {
          MinorValue(sign, e + j, i);
          BlockMajor(e, base, step, j, i);
          AddInRange(range, major1 + i as real * interval, false, false, sign, 9 * (e + j) + i, end, base, step);
          i := i + 1;
        }
        j := j + 1;
      }
    }

    /** AddTicksLogarithmic. */
    method AddTicksLogarithmic(range: Range, expMin: int, expMax: int, expStep: int)
      requires expStep > 0
      modifies this
      ensures var base := expMin - expStep;
              Ticks == old(Ticks) + GridTicks(range, Sign(range.max), 9 * base, 9 * BlockEnd(base, expMax + expStep, expStep), base, expStep)
    {
      hide GridTicks;
      var sign := Sign(range.max);
      ghost var base := expMin - expStep;
      ghost var end := 9 * BlockEnd(base, expMax + expStep, expStep);
      ghost var all := Ticks + GridTicks(range, sign, 9 * base, end, base, expStep);
      var e := expMin - expStep;
      while e < expMax + expStep
        invariant (e - base) % expStep == 0
        invariant BlockEnd(e, expMax + expStep, expStep) == BlockEnd(base, expMax + expStep, expStep)
        invariant Ticks + GridTicks(range, sign, 9 * e, end, base, expStep) == all
        decreases expMax + expStep - e
      {
        AddBlock(range, sign, e, expStep, base, end);
        NextBlock(e - base, expStep);
        e := e + expStep;
      }
      NoTicksAtEnd(range, sign, end, base, expStep);
    }

    /** Locator_Log10, given the logarithms of the two ends of the range. */
    method Locate(range: Range, pix: real, vertical: bool, logMin: real, logMax: real) returns (e: Exponents)
      modifies this
      ensures e.Exponents? <==> range.min * range.max > 0.0
      ensures e.Exponents? ==> GoodExponents(MinReal(logMin, logMax), MaxReal(logMin, logMax), e) && Ticks == old(Ticks) + LocatedTicks(range, e)
      ensures !e.Exponents? ==> Ticks == old(Ticks)
    {
      e := CalcLogarithmicExponents(range, pix, vertical, logMin, logMax);
      if e.Exponents? {
        AddTicksLogarithmic(range, e.min, e.max, e.step);
      }
    }
  }

  /** The ticks of Locator_Log10: those of all decades its blocks run over. */
  function LocatedTicks(range: Range, e: Exponents): seq<Tick>
    requires e.Exponents? && e.step > 0
  {
    var base := e.min - e.step;
    GridTicks(range, Sign(range.max), 9 * base, 9 * BlockEnd(base, e.max + e.step, e.step), base, e.step)
  }

  lemma NextBlock(x: int, step: int)
    requires step > 0 && x % step == 0
    ensures (x + step) % step == 0
  {
    DivModIs(x + step, step, x / step + 1, 0);
  }

  lemma NoTicksAtEnd(range: Range, sign: real, end: int, base: int, step: int)
    requires step > 0
    ensures GridTicks(range, sign, end, end, base, step) == []
  {
  }

  // ---------- The exponents ----------

  /** All that is assumed of log10: it finds the decade of its argument. */
  predicate IsLog10(x: real, log: real) {
    Pow10(log.Floor) <= x < Pow10(log.Floor + 1)
  }

  function MinReal(a: real, b: real): real {
    if a < b then a else b
  }

  function MaxReal(a: real, b: real): real {
    if a >= b then a else b
  }

  datatype Exponents = NoExponents | Exponents(min: int, max: int, step: int)

  /** What the locator needs to know of the exponents: the labelled ones are the multiples of the
      step, and the blocks start below and end above the range. */
  predicate GoodExponents(logA: real, logB: real, e: Exponents) {
    && e.Exponents? && e.step > 0 && e.min % e.step == 0 && (e.step == 1 || e.step % 3 == 0)
    && Trunc(logA) - e.step < e.min <= Trunc(logA) && e.max == Trunc(logB)
  }

  /** The adjustment loops: the step becomes a multiple of three, then the smallest exponent a multiple
      of the step. */
  method AdjustExponents(logExp: int, raw: int) returns (expMin: int, expStep: int)
    requires raw > 1
    ensures raw <= expStep <= raw + 2 && expStep % 3 == 0
    ensures logExp - expStep < expMin <= logExp && expMin % expStep == 0
  {
    expMin, expStep := logExp, raw;
    while expStep % 3 != 0
      invariant raw <= expStep <= raw + 2 && (expStep == raw + 1 ==> raw % 3 != 0) && (expStep == raw + 2 ==> raw % 3 == 1)
      decreases raw + 3 - expStep
    {
      expStep := expStep + 1;
    }
    while expMin % expStep != 0
      invariant expMin <= logExp && expMin == logExp - logExp % expStep + expMin % expStep
      decreases expMin % expStep
    {
      ModBelow(expMin, expStep);
      expMin := expMin - 1;
    }
  }

  /** The step before adjustment. */
  function RawStep(logA: real, logB: real, pix: real, vertical: bool): int {
    Max(1, TruncDiv(Trunc(logB - logA), Max(2, Trunc((if vertical then pix * 0.02 else pix * 0.01) + 0.5))))
  }

  /** It is the largest number of decades that fits nMajor times into the range, and at least one. */
  lemma RawStepIsLargest(logA: real, logB: real, pix: real, vertical: bool, step: int)
    requires logA <= logB && step > 1
    ensures var nMajor := Max(2, Trunc((if vertical then pix * 0.02 else pix * 0.01) + 0.5));
            step <= RawStep(logA, logB, pix, vertical) <==> step * nMajor <= Trunc(logB - logA)
  {
    hide Trunc;
    var nMajor := Max(2, Trunc((if vertical then pix * 0.02 else pix * 0.01) + 0.5));
    TruncNearFloor(logB - logA);
    QuotientAtLeast(Trunc(logB - logA), nMajor, step);
  }

  lemma QuotientAtLeast(x: int, d: int, q: int)
    requires x >= 0 && d > 0
    ensures q <= x / d <==> q * d <= x
  {
    var t := x / d;
    assert t * d <= x < t * d + d;
    assert (t - q) * d == t * d - q * d;
    if q <= t {
      assert (t - q) * d >= 0;
    } else {
      MulAtLeast(d, q - t);
      assert (q - t) * d == q * d - t * d;
    }
  }

  /** CalcLogarithmicExponents, given the logarithms of the two ends. */
  method CalcLogarithmicExponents(range: Range, pix: real, vertical: bool, logMin: real, logMax: real) returns (e: Exponents)
    ensures e.Exponents? <==> range.min * range.max > 0.0
    ensures e.Exponents? ==> GoodExponents(MinReal(logMin, logMax), MaxReal(logMin, logMax), e)
    ensures e.Exponents? ==>
              var raw := RawStep(MinReal(logMin, logMax), MaxReal(logMin, logMax), pix, vertical);
              if raw == 1 then e.step == 1 else raw <= e.step <= raw + 2
  {
    hide Trunc, TruncDiv, MinReal, MaxReal;
    if range.min * range.max > 0.0 {
      var logA := MinReal(logMin, logMax);
      var logB := MaxReal(logMin, logMax);
      var nMajor := if vertical then Max(2, Trunc(pix * 0.02 + 0.5)) else Max(2, Trunc(pix * 0.01 + 0.5));
      var expStep := Max(1, TruncDiv(Trunc(logB - logA), nMajor));
      assert expStep == RawStep(logA, logB, pix, vertical);
      var expMin := Trunc(logA);
      var expMax := Trunc(logB);
      if expStep != 1 {
        expMin, expStep := AdjustExponents(expMin, expStep);
      }
      return Exponents(expMin, expMax, expStep);
    }
    return NoExponents;
  }

  lemma ModBelow(x: int, d: int)
    requires d > 0 && x % d != 0
    ensures (x - 1) % d == x % d - 1
  {
    DivModIs(x - 1, d, x / d, x % d - 1);
  }

  // ---------- Which ticks those are ----------

  lemma {:induction false} GridTicksAre(range: Range, sign: real, p: int, end: int, base: int, step: int, t: Tick)
    requires step > 0
    ensures t in GridTicks(range, sign, p, end, base, step)
       <==> exists q :: p <= q < end && InTolerance(range, ValueAt(sign, q)) && t == TickAt(sign, q, base, step)
    decreases end - p
  {
    hide ValueAt, InTolerance, MajorAt;
    if p < end {
      GridTicksAre(range, sign, p + 1, end, base, step, t);
      assert t in GridTicks(range, sign, p, end, base, step)
        <==> (InTolerance(range, ValueAt(sign, p)) && t == TickAt(sign, p, base, step)) || t in GridTicks(range, sign, p + 1, end, base, step);
    }
  }

  lemma {:induction false} Pow10Monotone(a: int, b: int)
    requires a <= b
    ensures Pow10(a) <= Pow10(b)
    decreases b - a
  {
    if a < b {
      Pow10Monotone(a, b - 1);
      Pow10Next(b - 1);
    }
  }

  /** The size of a grid value: each position is larger than the one before it. */
  function Magnitude(p: int): real {
    Times(Digit(p) as real, Pow10(Decade(p)))
  }

  function Times(m: real, x: real): real {
    m * x
  }

  lemma MagnitudeNext(p: int)
    ensures Magnitude(p) < Magnitude(p + 1)
  {
    var k := Decade(p);
    hide Pow10;
    if Digit(p) == 9 {
      assert Decade(p + 1) == k + 1 && Digit(p + 1) == 1;
      Pow10Next(k);
    } else {
      assert Decade(p + 1) == k && Digit(p + 1) == Digit(p) + 1;
      assert Magnitude(p + 1) == Magnitude(p) + Pow10(k);
    }
  }

  lemma {:induction false} MagnitudeIncreases(p: int, q: int)
    requires p < q
    ensures Magnitude(p) < Magnitude(q)
    decreases q - p
  {
    hide Magnitude;
    MagnitudeNext(q - 1);
    if p < q - 1 {
      MagnitudeIncreases(p, q - 1);
    }
  }

  lemma ValueIsMagnitude(sign: real, p: int)
    ensures sign == 1.0 ==> ValueAt(sign, p) == Magnitude(p)
    ensures sign == -1.0 ==> ValueAt(sign, p) == -Magnitude(p)
  {
  }

  /** Sizes strictly increase along the ticks, so no value is emitted twice. */
  ghost predicate Growing(ticks: seq<Tick>) {
    forall i, j :: 0 <= i < j < |ticks| ==> AbsReal(ticks[i].pos) < AbsReal(ticks[j].pos)
  }

  lemma {:induction false} GridTicksGrow(range: Range, sign: real, p: int, end: int, base: int, step: int)
    requires step > 0 && (sign == 1.0 || sign == -1.0)
    ensures var ticks := GridTicks(range, sign, p, end, base, step);
            Growing(ticks) && forall t :: t in ticks ==> Magnitude(p) <= AbsReal(t.pos)
    decreases end - p
  {
    hide ValueAt, InTolerance, MajorAt, Magnitude;
    if p < end {
      GridTicksGrow(range, sign, p + 1, end, base, step);
      MagnitudeNext(p);
      SizeAt(sign, p);
      var rest := GridTicks(range, sign, p + 1, end, base, step);
      forall j | 0 <= j < |rest| ensures Magnitude(p + 1) <= AbsReal(rest[j].pos) {
        assert rest[j] in rest;
      }
    }
  }

  lemma SizeAt(sign: real, p: int)
    requires sign == 1.0 || sign == -1.0
    ensures AbsReal(ValueAt(sign, p)) == Magnitude(p)
  {
    ValueIsMagnitude(sign, p);
  }

  lemma TimesDigit(m: real, x: real)
    requires 1.0 <= m <= 9.0 && x > 0.0
    ensures x <= Times(m, x) < 10.0 * x
  {
    assert (m - 1.0) * x == Times(m, x) - x && (m - 1.0) * x >= 0.0;
    assert (10.0 - m) * x == 10.0 * x - Times(m, x) && (10.0 - m) * x > 0.0;
  }

  /** A value at least as large as a power of ten lies in its decade or above, a smaller one below it. */
  lemma DecadeBounds(p: int, n: int)
    ensures Pow10(n) <= Magnitude(p) ==> n <= Decade(p)
    ensures Magnitude(p) < Pow10(n) ==> Decade(p) < n
  {
    hide Pow10, Times;
    var k := Decade(p);
    assert 1 <= Digit(p) <= 9;
    TimesDigit(Digit(p) as real, Pow10(k));
    Pow10Next(k);
    assert Pow10(k) <= Magnitude(p) < Pow10(k + 1);
    if k < n {
      Pow10Monotone(k + 1, n);
    } else {
      Pow10Monotone(n, k);
    }
  }

  /** Position of digit m of decade k. */
  function Position(m: int, k: int): int {
    9 * k + m - 1
  }

  lemma PositionParts(m: int, k: int)
    requires 1 <= m <= 9
    ensures Digit(Position(m, k)) == m && Decade(Position(m, k)) == k
  {
  }

  /** Truncating a logarithm moves it up by at most one decade. */
  lemma TruncNearFloor(x: real)
    ensures x.Floor <= Trunc(x) <= x.Floor + 1
    ensures x >= 0.0 ==> Trunc(x) == x.Floor >= 0
  {
  }

  /** Every value of the grid in the range lies in the decades the blocks run over. */
  lemma BlocksCoverRange(range: Range, logMin: real, logMax: real, e: Exponents, p: int)
    requires range.min * range.max > 0.0 && IsLog10(AbsReal(range.min), logMin) && IsLog10(AbsReal(range.max), logMax)
    requires GoodExponents(MinReal(logMin, logMax), MaxReal(logMin, logMax), e)
    requires range.min <= ValueAt(Sign(range.max), p) <= range.max
    ensures var base := e.min - e.step; 9 * base <= p < 9 * BlockEnd(base, e.max + e.step, e.step)
  {
    hide Pow10, Trunc, Magnitude, ValueAt, InTolerance;
    SignsAgree(range);
    ValueIsMagnitude(Sign(range.max), p);
    TruncNearFloor(logMin);
    TruncNearFloor(logMax);
    DecadeBounds(p, logMin.Floor);
    DecadeBounds(p, logMax.Floor);
    DecadeBounds(p, logMin.Floor + 1);
    DecadeBounds(p, logMax.Floor + 1);
  }

  lemma SignsAgree(range: Range)
    requires range.min * range.max > 0.0
    ensures if range.max > 0.0 then range.min > 0.0 else range.min < 0.0 && range.max < 0.0
  {
  }

  function LabelledTick(range: Range, e: Exponents, m: int, k: int): Tick
    requires e.Exponents? && e.step > 0
  {
    var major := m == 1 && k % e.step == 0;
    Tick(Value(Sign(range.max), m, k), major, major)
  }

  lemma MajorDecades(e: Exponents, k: int)
    requires e.Exponents? && e.step > 0 && e.min % e.step == 0
    ensures (k - (e.min - e.step)) % e.step == 0 <==> k % e.step == 0
  {
    var d, q := e.step, e.min / e.step;
    assert k - (e.min - d) == (k / d - q + 1) * d + k % d;
    DivModIs(k - (e.min - d), d, k / d - q + 1, k % d);
  }

  /** Every value m * 10^k of the range with 1 <= m <= 9 has its tick, labelled as a major exactly when
      m is 1 and k a multiple of the step. */
  lemma EveryValueHasTick(range: Range, logMin: real, logMax: real, e: Exponents, m: int, k: int)
    requires range.min * range.max > 0.0 && IsLog10(AbsReal(range.min), logMin) && IsLog10(AbsReal(range.max), logMax)
    requires GoodExponents(MinReal(logMin, logMax), MaxReal(logMin, logMax), e)
    requires 1 <= m <= 9 && range.min <= Value(Sign(range.max), m, k) <= range.max
    ensures LabelledTick(range, e, m, k) in LocatedTicks(range, e)
  {
    hide Trunc, GridTicks, BlockEnd, Pow10, IsLog10, MinReal, MaxReal, AbsReal, Sign;
    var p, base := Position(m, k), e.min - e.step;
    PositionParts(m, k);
    MajorDecades(e, k);
    BlocksCoverRange(range, logMin, logMax, e, p);
    GridTicksAre(range, Sign(range.max), 9 * base, 9 * BlockEnd(base, e.max + e.step, e.step), base, e.step, LabelledTick(range, e, m, k));
  }

  /** The same with the value written out. */
  lemma ValueHasTick(range: Range, logMin: real, logMax: real, e: Exponents, m: int, k: int, sign: real, x: real)
    requires range.min * range.max > 0.0 && IsLog10(AbsReal(range.min), logMin) && IsLog10(AbsReal(range.max), logMax)
    requires GoodExponents(MinReal(logMin, logMax), MaxReal(logMin, logMax), e)
    requires sign == (if range.max > 0.0 then 1.0 else -1.0) && x == sign * m as real * Pow10(k)
    requires 1 <= m <= 9 && range.min <= x <= range.max
    ensures Tick(x, m == 1 && k % e.step == 0, m == 1 && k % e.step == 0) in LocatedTicks(range, e)
  {
    hide Trunc, LocatedTicks, Pow10, IsLog10, MinReal, MaxReal, AbsReal, Sign;
    SignIs(range.max);
    SignsAgree(range);
    assert x == Value(sign, m, k);
    EveryValueHasTick(range, logMin, logMax, e, m, k);
  }

  /** ... and nothing else has one, up to the tolerance of the range test. */
  lemma EveryTickIsValue(range: Range, logA: real, logB: real, e: Exponents, t: Tick) returns (m: int, k: int)
    requires GoodExponents(logA, logB, e) && t in LocatedTicks(range, e)
    ensures 1 <= m <= 9 && t == LabelledTick(range, e, m, k)
    ensures range.min - 1.0 / 4503599627370496.0 <= t.pos <= range.max + 1.0 / 4503599627370496.0
  {
    hide Trunc, GridTicks, BlockEnd;
    var base := e.min - e.step;
    var end := 9 * BlockEnd(base, e.max + e.step, e.step);
    GridTicksAre(range, Sign(range.max), 9 * base, end, base, e.step, t);
    var q :| 9 * base <= q < end && InTolerance(range, ValueAt(Sign(range.max), q)) && t == TickAt(Sign(range.max), q, base, e.step);
    m, k := Digit(q), Decade(q);
    MajorDecades(e, k);
  }

  /** ... and no value has two. */
  lemma NoTickTwice(range: Range, e: Exponents)
    requires e.Exponents? && e.step > 0 && range.min * range.max > 0.0
    ensures Growing(LocatedTicks(range, e))
  {
    hide Pow10, GridTicks, BlockEnd, Magnitude, AbsReal;
    SignsAgree(range);
    var base := e.min - e.step;
    GridTicksGrow(range, Sign(range.max), 9 * base, 9 * BlockEnd(base, e.max + e.step, e.step), base, e.step);
  }
}
