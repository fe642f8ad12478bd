/** ImPlotAxis: limits under constraints, and the cached transform between plot and pixel coordinates. */
module Axis {
  import opened Numbers
  import opened Ranges
  import opened PlotTime

  /** A bound that may be infinite, as the default constraints are. */
  datatype Bound = Infinite | At(v: real)

  /** ConstraintRange and ConstraintZoom. */
  datatype Constraints = Constraints(lo: Bound, hi: Bound, zoomMin: real, zoomMax: Bound) {
    /** The default smallest zoom is DBL_MIN, so it is positive. */
    predicate Valid() {
      zoomMin > 0.0 && (zoomMax.At? ==> zoomMin <= zoomMax.v)
    }

    /** A value inside ConstraintRange. */
    predicate Admits(v: real) {
      (lo.At? ==> lo.v <= v) && (hi.At? ==> v <= hi.v)
    }

    predicate Contains(r: Range) {
      (lo.At? ==> lo.v <= r.min) && (hi.At? ==> r.max <= hi.v)
    }

    predicate ZoomAllows(size: real) {
      zoomMin <= size && (zoomMax.At? ==> size <= zoomMax.v)
    }

    /** Range inside ConstraintRange and size inside ConstraintZoom. */
    predicate Allows(r: Range) {
      Contains(r) && ZoomAllows(r.Size())
    }

    function AtLeastLo(x: real): real {
      if lo.At? && x < lo.v then lo.v else x
    }

    function AtMostHi(x: real): real {
      if hi.At? && x > hi.v then hi.v else x
    }

    function Clamped(r: Range): Range {
      Range(AtLeastLo(r.min), AtMostHi(r.max))
    }
  }

  /** What Constrain makes of a range. */
  function Constrained(r: Range, c: Constraints): Range {
    var r1 := c.Clamped(r);
    var z := r1.Size();
    var r2 := if z < c.zoomMin then var delta := (c.zoomMin - z) * 0.5; Range(r1.min - delta, r1.max + delta) else r1;
    var r3 := if c.zoomMax.At? && z > c.zoomMax.v then
                var delta := (z - c.zoomMax.v) * 0.5; Range(r2.min + delta, r2.max - delta)
              else r2;
    if r3.max <= r3.min then Range(r3.min, r3.min + DBL_EPSILON) else r3
  }

  /** Limits and center of the result on each path: a limit outside the range limits moves to them and the
      other one stays; a size outside the zoom limits becomes the nearest allowed one, around the same center. */
  lemma ConstrainedIs(r: Range, c: Constraints, lo: real, hi: real)
    requires c.Valid()
    requires lo == (if c.lo.At? && r.min < c.lo.v then c.lo.v else r.min)
    requires hi == (if c.hi.At? && r.max > c.hi.v then c.hi.v else r.max)
    ensures var out := Constrained(r, c);
            if hi - lo < c.zoomMin then out.max - out.min == c.zoomMin && out.min + out.max == lo + hi
            else if c.zoomMax.At? && hi - lo > c.zoomMax.v then out.max - out.min == c.zoomMax.v && out.min + out.max == lo + hi
            else out.min == lo && out.max == hi
  {
  }

  /** Every path ends with the size inside the zoom limits. */
  lemma ConstrainedZoom(r: Range, c: Constraints)
    ensures c.Valid() ==> c.ZoomAllows(Constrained(r, c).Size())
    ensures Constrained(r, c).min < Constrained(r, c).max
  {
  }

  function Center(r: Range): real {
    (r.min + r.max) * 0.5
  }

  /** A range of the smallest size around the center stays within the limits. */
  predicate CenterFits(center: real, c: Constraints) {
    (c.lo.At? ==> c.lo.v + c.zoomMin * 0.5 <= center) && (c.hi.At? ==> center <= c.hi.v - c.zoomMin * 0.5)
  }

  /** The result stays inside ConstraintRange exactly when the clamped range is large enough already,
      or can be widened around its center. */
  lemma ConstrainedInsideIff(r: Range, c: Constraints)
    requires c.Valid()
    ensures c.Contains(Constrained(r, c)) <==> c.Clamped(r).Size() >= c.zoomMin || CenterFits(Center(c.Clamped(r)), c)
  {
  }

  /** The center of a bounded ConstraintRange, around which widening can never settle better. */
  predicate CenterOfLimits(center: real, c: Constraints) {
    c.lo.At? && c.hi.At? && center == (c.lo.v + c.hi.v) * 0.5
  }

  /** Constraining again changes nothing exactly when the result is inside the limits, or overhangs
      them on both sides by the same amount. */
  lemma ConstrainIdempotentIff(r: Range, c: Constraints)
    requires c.Valid()
    ensures Constrained(Constrained(r, c), c) == Constrained(r, c) <==>
            || c.Clamped(r).Size() >= c.zoomMin
            || CenterFits(Center(c.Clamped(r)), c)
            || CenterOfLimits(Center(c.Clamped(r)), c)
  {
  }

  /** An allowed range is left alone. */
  lemma AllowedIsFixed(r: Range, c: Constraints)
    requires c.Valid() && c.Allows(r)
    ensures Constrained(r, c) == r
  {
  }

  /** Zooming further in than allowed at the edge of the limits pushes the range out of them, and
      constraining it again moves it once more. */
  lemma ConstrainFails()
    ensures var c := Constraints(At(0.0), At(10.0), 1.0, Infinite);
            var r := Constrained(Range(0.0, 0.5), c);
            !c.Contains(r) && Constrained(r, c) != r
  {
  }

  // ---------- Scales ----------

  /** No transform, or a pair of forward and inverse transforms. */
  datatype Scale = Linear | Transformed(fwd: real -> real, inv: real -> real) {
    function Forward(x: real): real {
      if Linear? then x else fwd(x)
    }

    function Inverse(s: real): real {
      if Linear? then s else inv(s)
    }
  }

  /** The forward transform is a strictly increasing bijection from the plot values accepted by dom
      onto the reals, and the inverse transform undoes it. */
  ghost predicate Bijective(scale: Scale, dom: real -> bool) {
    && (forall x, y {:trigger scale.Forward(x), scale.Forward(y)} :: dom(x) && dom(y) && x < y ==> scale.Forward(x) < scale.Forward(y))
    && (forall x {:trigger scale.Forward(x)} :: dom(x) ==> scale.Inverse(scale.Forward(x)) == x)
    && (forall s {:trigger scale.Inverse(s)} :: dom(scale.Inverse(s)) && scale.Forward(scale.Inverse(s)) == s)
  }

  lemma LinearIsBijective()
    ensures Bijective(Linear, _ => true)
  {
  }

  /** (x - a) / (b - a): how far x is on the way from a to b. */
  function Fraction(x: real, a: real, b: real): real
    requires a != b
  {
    (x - a) / (b - a)
  }

  function Between(t: real, a: real, b: real): real {
    t * (b - a) + a
  }

  lemma FractionOfBetween(t: real, a: real, b: real)
    requires a != b
    ensures Fraction(Between(t, a, b), a, b) == t
  {
    DivideTimes(t, b - a);
  }

  lemma BetweenOfFraction(x: real, a: real, b: real)
    requires a != b
    ensures Between(Fraction(x, a, b), a, b) == x
  {
    DivideTimes(x - a, b - a);
  }

  lemma Proportion(pix: real, x: real, a: real, b: real, p: real, q: real)
    requires a != b && pix == Between(Fraction(x, a, b), p, q)
    ensures (pix - p) * (b - a) == (x - a) * (q - p)
  {
    var t := (x - a) / (b - a);
    assert t * (b - a) == x - a;
    assert pix - p == t * (q - p);
    assert (t * (q - p)) * (b - a) == (t * (b - a)) * (q - p);
  }

  lemma FractionTimes(x: real, a: real, b: real, size: real)
    requires a != b && size == b - a
    ensures size * Fraction(x, a, b) == x - a
  {
    DivideTimes(x - a, size);
  }

  lemma DivideTimes(x: real, d: real)
    requires d != 0.0
    ensures (x / d) * d == x && d * (x / d) == x && (x * d) / d == x
  {
  }

  lemma SelfRatio(d: real)
    requires d != 0.0
    ensures 0.0 / d == 0.0 && d / d == 1.0
  {
  }

  lemma FractionIncreases(x: real, y: real, a: real, b: real)
    requires a < b && x < y
    ensures Fraction(x, a, b) < Fraction(y, a, b)
  {
    BetweenOfFraction(x, a, b);
    BetweenOfFraction(y, a, b);
  }

  lemma FractionEnds(a: real, b: real)
    requires a != b
    ensures Fraction(a, a, b) == 0.0 && Fraction(b, a, b) == 1.0
  {
    SelfRatio(b - a);
  }

  lemma BetweenIncreases(s: real, t: real, a: real, b: real)
    requires s < t
    ensures a < b ==> Between(s, a, b) < Between(t, a, b)
    ensures a > b ==> Between(s, a, b) > Between(t, a, b)
  {
    if a < b {
      assert (t - s) * (b - a) > 0.0;
    } else if a > b {
      assert (t - s) * (a - b) > 0.0;
    }
  }

  // ---------- The axis ----------

  datatype Fit = NoFit | Fit(min: real, max: real)

  const DBL_MIN_EXPONENT := 1022

  /** 2 to the -n. */
  function HalfPower(n: nat): (p: real)
    ensures p > 0.0
  {
    if n == 0 then 1.0 else HalfPower(n - 1) * 0.5
  }

  /** ImAlmostEqual with its default of two units in the last place. */
  predicate AlmostEqual(v1: real, v2: real) {
    AbsReal(v1 - v2) < DBL_EPSILON * AbsReal(v1 + v2) * 2.0 || AbsReal(v1 - v2) < HalfPower(DBL_MIN_EXPONENT)
  }

  /** Without the constants' names: the values differ by less than 2^-51 of their sum, or by less than 2^-1022. */
  lemma AlmostEqualIff(v1: real, v2: real)
    ensures AlmostEqual(v1, v2) <==>
      AbsReal(v1 - v2) * 2251799813685248.0 < AbsReal(v1 + v2) || AbsReal(v1 - v2) < HalfPower(1022)
  {
    hide HalfPower;
  }

  /** The zoom limits allow a range from lo to hi. */
  predicate Spans(c: Constraints, lo: real, hi: real) {
    c.zoomMin <= hi - lo && (c.zoomMax.At? ==> hi - lo <= c.zoomMax.v)
  }

  class PlotAxis {
    var Range: Range
    var Constraint: Constraints
    var Scale: Scale
    var FitExtents: Fit
    var PixelMin: real
    var PixelMax: real
    var ScaleMin: real
    var ScaleMax: real
    var ScaleToPixel: real
    var PickerTimeMin: Time
    var PickerTimeMax: Time
    var Enabled: bool
    /** A range set with ImPlotCond_Always. */
    var RangeLocked: bool
    var LockMin: bool
    var LockMax: bool

    predicate IsLockedMin()
      reads this`Enabled, this`RangeLocked, this`LockMin
    {
      !Enabled || RangeLocked || LockMin
    }

    predicate IsLockedMax()
      reads this`Enabled, this`RangeLocked, this`LockMax
    {
      !Enabled || RangeLocked || LockMax
    }

    /** The transform cache is what the current range and pixels determine. */
    predicate Coherent()
      reads this
    {
      && Range.min < Range.max
      && ScaleToPixel == (PixelMax - PixelMin) / Range.Size()
      && ScaleMin == Scale.Forward(Range.min) && ScaleMax == Scale.Forward(Range.max)
    }

    method UpdateTransformCache()
      requires Range.min < Range.max
      modifies this`ScaleToPixel, this`ScaleMin, this`ScaleMax
      ensures Coherent()
    {
      ScaleToPixel := (PixelMax - PixelMin) / Range.Size();
      if Scale.Transformed? {
        ScaleMin := Scale.fwd(Range.min);
        ScaleMax := Scale.fwd(Range.max);
      } else {
        ScaleMin := Range.min;
        ScaleMax := Range.max;
      }
    }

    /** The lower limit SetMin settles on: the requested value, not below the range limit, but as near
        to it as the zoom limits allow below the current upper limit. */
    predicate IsMinFor(min: real, requested: real, max: real)
      reads this`Constraint
    {
      var wanted := Constraint.AtLeastLo(requested);
      && Constraint.ZoomAllows(max - min)
      && (if Constraint.ZoomAllows(max - wanted) then min == wanted
          else if max - wanted < Constraint.zoomMin then max - min == Constraint.zoomMin
          else Constraint.zoomMax.At? && max - min == Constraint.zoomMax.v)
    }

    predicate IsMaxFor(max: real, requested: real, min: real)
      reads this`Constraint
    {
      var wanted := Constraint.AtMostHi(requested);
      && Constraint.ZoomAllows(max - min)
      && (if Constraint.ZoomAllows(wanted - min) then max == wanted
          else if wanted - min < Constraint.zoomMin then max - min == Constraint.zoomMin
          else Constraint.zoomMax.At? && max - min == Constraint.zoomMax.v)
    }

    /** In other words the limit is, of all that the zoom limits allow, the one nearest to the requested value,
        which is first moved inside the range limits. */
    lemma MinForIff(min: real, requested: real, max: real)
      requires Constraint.Valid()
      ensures var wanted := if Constraint.lo.At? && requested < Constraint.lo.v then Constraint.lo.v else requested;
              IsMinFor(min, requested, max) <==>
                Spans(Constraint, min, max) && forall m :: Spans(Constraint, m, max) ==> AbsReal(min - wanted) <= AbsReal(m - wanted)
    {
      var wanted := Constraint.AtLeastLo(requested);
      assert Spans(Constraint, wanted, max) <==> Constraint.ZoomAllows(max - wanted);
      assert Spans(Constraint, max - Constraint.zoomMin, max);
      assert Constraint.zoomMax.At? ==> Spans(Constraint, max - Constraint.zoomMax.v, max);
    }

    lemma MaxForIff(max: real, requested: real, min: real)
      requires Constraint.Valid()
      ensures var wanted := if Constraint.hi.At? && requested > Constraint.hi.v then Constraint.hi.v else requested;
              IsMaxFor(max, requested, min) <==>
                Spans(Constraint, min, max) && forall m :: Spans(Constraint, min, m) ==> AbsReal(max - wanted) <= AbsReal(m - wanted)
    {
      var wanted := Constraint.AtMostHi(requested);
      assert Spans(Constraint, min, wanted) <==> Constraint.ZoomAllows(wanted - min);
      assert Spans(Constraint, min, min + Constraint.zoomMin);
      assert Constraint.zoomMax.At? ==> Spans(Constraint, min, min + Constraint.zoomMax.v);
    }

    /** Succeeds unless the limit is locked. From an allowed range it leads to an allowed range. */
    method SetMin(min: real, force: bool) returns (ok: bool)
      requires Constraint.Valid()
      modifies this`Range, this`PickerTimeMin, this`ScaleToPixel, this`ScaleMin, this`ScaleMax
      ensures ok == (force || (Enabled && !RangeLocked && !LockMin))
      ensures ok ==> Coherent() && Range.max == old(Range.max) && IsMinFor(Range.min, min, Range.max)
      ensures ok ==> PickerTimeMin == FromDouble(Range.min)
      ensures !ok ==> unchanged(this)
      ensures old(Constraint.Allows(Range)) ==> Constraint.Allows(Range)
    {
      if !force && IsLockedMin() {
        return false;
      }
      hide Coherent, FromDouble, Constrained;
      var newMin := min;
      if Constraint.lo.At? && newMin < Constraint.lo.v {
        newMin := Constraint.lo.v;
      }
      var z := Range.max - newMin;
      if z < Constraint.zoomMin {
        newMin := Range.max - Constraint.zoomMin;
      }
      if Constraint.zoomMax.At? && z > Constraint.zoomMax.v {
        newMin := Range.max - Constraint.zoomMax.v;
      }
      if newMin >= Range.max {
        return false;
      }
      Range := Range.(min := newMin);
      PickerTimeMin := FromDouble(Range.min);
      UpdateTransformCache();
      return true;
    }

    method SetMax(max: real, force: bool) returns (ok: bool)
      requires Constraint.Valid()
      modifies this`Range, this`PickerTimeMax, this`ScaleToPixel, this`ScaleMin, this`ScaleMax
      ensures ok == (force || (Enabled && !RangeLocked && !LockMax))
      ensures ok ==> Coherent() && Range.min == old(Range.min) && IsMaxFor(Range.max, max, Range.min)
      ensures ok ==> PickerTimeMax == FromDouble(Range.max)
      ensures !ok ==> unchanged(this)
      ensures old(Constraint.Allows(Range)) ==> Constraint.Allows(Range)
    {
      if !force && IsLockedMax() {
        return false;
      }
      hide Coherent, FromDouble;
      var newMax := max;
      if Constraint.hi.At? && newMax > Constraint.hi.v {
        newMax := Constraint.hi.v;
      }
      var z := newMax - Range.min;
      if z < Constraint.zoomMin {
        newMax := Range.min + Constraint.zoomMin;
      }
      if Constraint.zoomMax.At? && z > Constraint.zoomMax.v {
        newMax := Range.min + Constraint.zoomMax.v;
      }
      if newMax <= Range.min {
        return false;
      }
      Range := Range.(max := newMax);
      PickerTimeMax := FromDouble(Range.max);
      UpdateTransformCache();
      return true;
    }

    method Constrain()
      modifies this`Range
      ensures Range == Constrained(old(Range), Constraint)
    {
      Range := Constraint.Clamped(Range);
      var z := Range.Size();
      if z < Constraint.zoomMin {
        var delta := (Constraint.zoomMin - z) * 0.5;
        Range := Range.(min := Range.min - delta, max := Range.max + delta);
      }
      if Constraint.zoomMax.At? && z > Constraint.zoomMax.v {
        var delta := (z - Constraint.zoomMax.v) * 0.5;
        Range := Range.(min := Range.min + delta, max := Range.max - delta);
      }
      if Range.max <= Range.min {
        Range := Range.(max := Range.min + DBL_EPSILON);
      }
    }

    method SetRange(v1: real, v2: real)
      modifies this`Range, this`PickerTimeMin, this`PickerTimeMax, this`ScaleToPixel, this`ScaleMin, this`ScaleMax
      ensures Range == Constrained(Sorted(v1, v2), Constraint) && Coherent()
      ensures PickerTimeMin == FromDouble(Range.min) && PickerTimeMax == FromDouble(Range.max)
      ensures Constraint.Valid() ==> Constraint.ZoomAllows(Range.Size())
    {
      Range := Sorted(v1, v2);
      Constrain();
      PickerTimeMin := FromDouble(Range.min);
      PickerTimeMax := FromDouble(Range.max);
      UpdateTransformCache();
    }

    function PixelSize(): real
      reads this`PixelMin, this`PixelMax
    {
      AbsReal(PixelMax - PixelMin)
    }

    /** The range SetAspect asks for: of the size the aspect needs, growing at both ends, or at the one
        that is not locked. */
    predicate HasAspect(r: Range, unitPerPix: real, before: Range)
      reads this`PixelMin, this`PixelMax, this`Enabled, this`RangeLocked, this`LockMin, this`LockMax
    {
      && r.Size() == unitPerPix * PixelSize()
      && (IsLockedMin() ==> r.min == before.min)
      && (!IsLockedMin() && IsLockedMax() ==> r.max == before.max)
      && (!IsLockedMin() && !IsLockedMax() ==> Center(r) == Center(before))
    }

    method SetAspect(unitPerPix: real)
      modifies this`Range, this`PickerTimeMin, this`PickerTimeMax, this`ScaleToPixel, this`ScaleMin, this`ScaleMax
      ensures IsLockedMin() && IsLockedMax() ==> unchanged(this)
      ensures !(IsLockedMin() && IsLockedMax()) ==>
                Coherent() && exists r: Range :: HasAspect(r, unitPerPix, old(Range)) && Range == Constrained(Sorted(r.min, r.max), Constraint)
      ensures Constraint.Valid() ==>
                IsAspectOf(Range, old(Range), unitPerPix, AbsReal(PixelMax - PixelMin), !Enabled || RangeLocked || LockMin, !Enabled || RangeLocked || LockMax, Constraint)
    {
      hide Constrained, Coherent, FromDouble, AbsReal, Constraints.Allows, Constraints.Valid, Constraints.ZoomAllows, Sorted, IsAspectOf;
      var newSize := unitPerPix * PixelSize();
      var delta := (newSize - Range.Size()) * 0.5;
      ghost var before := Range;
      ghost var wanted: Range;
      if IsLockedMin() && IsLockedMax() {
        BothLocked(Range, unitPerPix, AbsReal(PixelMax - PixelMin), Constraint);
        return;
      } else if IsLockedMin() && !IsLockedMax() {
        wanted := Range.(max := Range.max + 2.0 * delta);
        SetRange(Range.min, Range.max + 2.0 * delta);
      } else if !IsLockedMin() && IsLockedMax() {
        wanted := Range.(min := Range.min - 2.0 * delta);
        SetRange(Range.min - 2.0 * delta, Range.max);
      } else {
        wanted := Range.(min := Range.min - delta, max := Range.max + delta);
        SetRange(Range.min - delta, Range.max + delta);
      }
      assert HasAspect(wanted, unitPerPix, before);
      if Constraint.Valid() {
        AllowedAspect(wanted, before, unitPerPix, AbsReal(PixelMax - PixelMin), IsLockedMin(), IsLockedMax(), Constraint);
      }
    }

    /** ExtendFit: values outside the range limits are ignored. */
    method ExtendFit(v: real)
      modifies this`FitExtents
      ensures FitExtents == Extended(old(FitExtents), v, Constraint)
    {
      if (Constraint.lo.At? ==> v >= Constraint.lo.v) && (Constraint.hi.At? ==> v <= Constraint.hi.v) {
        if FitExtents.NoFit? {
          FitExtents := Fit(v, v);
        } else {
          FitExtents := Fit(if v < FitExtents.min then v else FitExtents.min, if v > FitExtents.max then v else FitExtents.max);
        }
      }
    }

    /** ApplyFit: the padded extents replace the limits that are not locked; without any fitted value
        the extents stay infinite and replace nothing. */
    method ApplyFit(padding: real)
      modifies this`FitExtents, this`Range, this`ScaleToPixel, this`ScaleMin, this`ScaleMax
      ensures Coherent() && FitExtents == Padded(old(FitExtents), padding)
      ensures Constraint.Valid() ==> Constraint.ZoomAllows(Range.Size())
      ensures Range == Constrained(FitTarget(old(Range), old(FitExtents), padding, IsLockedMin(), IsLockedMax()), Constraint)
      ensures Constraint.Valid() ==>
                IsFitOf(Range, old(Range), old(FitExtents), padding, !Enabled || RangeLocked || LockMin, !Enabled || RangeLocked || LockMax, Constraint)
    {
      hide Constrained, AlmostEqual, Coherent, Constraints.ZoomAllows, Constraints.Valid, Padded;
      PaddedIsFit(FitExtents, padding);
      ConstrainedZoom(FitTarget(Range, FitExtents, padding, IsLockedMin(), IsLockedMax()), Constraint);
      if Constraint.Valid() {
        FitKeepsLocks(Range, FitExtents, padding, IsLockedMin(), IsLockedMax(), Constraint);
      }
      if FitExtents.Fit? {
        FitExtents := Padded(FitExtents, padding);
        if !IsLockedMin() {
          Range := Range.(min := FitExtents.min);
        }
        if !IsLockedMax() {
          Range := Range.(max := FitExtents.max);
        }
      }
      if AlmostEqual(Range.min, Range.max) {
        Range := Range.(max := Range.max + 0.5);
        Range := Range.(min := Range.min - 0.5);
      }
      Constrain();
      UpdateTransformCache();
    }

    // ---------- Plot and pixel coordinates ----------

    function PlotToPixels(plt: real): real
      reads this
      requires Coherent() && ScaleMin != ScaleMax
    {
      var p := if Scale.Transformed? then
                 var t := Fraction(Scale.fwd(plt), ScaleMin, ScaleMax);
                 Range.min + Range.Size() * t
               else plt;
      PixelMin + ScaleToPixel * (p - Range.min)
    }

    function PixelsToPlot(pix: real): real
      reads this
      requires Coherent() && PixelMin != PixelMax
    {
      ScaleToPixelNonZero();
      var plt := (pix - PixelMin) / ScaleToPixel + Range.min;
      if Scale.Transformed? then
        var t := Fraction(plt, Range.min, Range.max);
        Scale.inv(Between(t, ScaleMin, ScaleMax))
      else plt
    }

    lemma ScaleToPixelNonZero()
      requires Coherent() && PixelMin != PixelMax
      ensures ScaleToPixel != 0.0 && ScaleToPixel * Range.Size() == PixelMax - PixelMin
    {
      assert ((PixelMax - PixelMin) / Range.Size()) * Range.Size() == PixelMax - PixelMin;
    }

    /** The cached pixel scale is the fraction of the way along the transformed range. */
    lemma PlotToPixelsIs(plt: real)
      requires Coherent() && ScaleMin != ScaleMax
      ensures PlotToPixels(plt) == Between(Fraction(Scale.Forward(plt), ScaleMin, ScaleMax), PixelMin, PixelMax)
    {
      hide Fraction;
      var size, w, t := Range.Size(), PixelMax - PixelMin, Fraction(Scale.Forward(plt), ScaleMin, ScaleMax);
      if Scale.Linear? {
        FractionTimes(plt, Range.min, Range.max, size);
      }
      var p := if Scale.Transformed? then Range.min + size * t else plt;
      ScaleTimes(w, size, t, p - Range.min);
      BetweenIs(t, PixelMin, PixelMax, w);
      assert PlotToPixels(plt) == PixelMin + (w / size) * (p - Range.min);
    }

    /** Without names: the pixels are to the length of the axis as the transformed value is to the transformed range. */
    lemma PlotProportion(plt: real)
      requires Coherent() && ScaleMin != ScaleMax
      ensures (PlotToPixels(plt) - PixelMin) * (Scale.Forward(Range.max) - Scale.Forward(Range.min))
           == (Scale.Forward(plt) - Scale.Forward(Range.min)) * (PixelMax - PixelMin)
    {
      hide PlotToPixels, Scale.Forward;
      PlotToPixelsIs(plt);
      Proportion(PlotToPixels(plt), Scale.Forward(plt), ScaleMin, ScaleMax, PixelMin, PixelMax);
    }

    lemma PixelsToPlotIs(pix: real)
      requires Coherent() && PixelMin != PixelMax
      ensures PixelsToPlot(pix) == Scale.Inverse(Between(Fraction(pix, PixelMin, PixelMax), ScaleMin, ScaleMax))
    {
      hide Fraction, Between;
      ScaleToPixelNonZero();
      var size, w, t := Range.Size(), PixelMax - PixelMin, Fraction(pix, PixelMin, PixelMax);
      UnscaleTimes(pix, PixelMin, PixelMax, size);
      var p := (pix - PixelMin) / ScaleToPixel + Range.min;
      assert p == Between(t, Range.min, Range.max) by {
        BetweenIs(t, Range.min, Range.max, size);
      }
      FractionOfBetween(t, Range.min, Range.max);
    }

    /** All that the transforms need of the axis: a current cache, and limits the scale accepts. */
    ghost predicate Ready(dom: real -> bool)
      reads this
    {
      Coherent() && PixelMin != PixelMax && Bijective(Scale, dom) && dom(Range.min) && dom(Range.max)
    }

    lemma ReadyScales(dom: real -> bool)
      requires Ready(dom)
      ensures ScaleMin < ScaleMax
    {
    }

    /** Plot to pixels and back is the identity on the values the scale accepts. */
    lemma PlotRoundTrip(dom: real -> bool, plt: real)
      requires Ready(dom) && dom(plt)
      ensures ScaleMin < ScaleMax && PixelsToPlot(PlotToPixels(plt)) == plt
    {
      hide PlotToPixels, PixelsToPlot, Fraction, Between;
      ReadyScales(dom);
      var t := Fraction(Scale.Forward(plt), ScaleMin, ScaleMax);
      PlotToPixelsIs(plt);
      PixelsToPlotIs(PlotToPixels(plt));
      FractionOfBetween(t, PixelMin, PixelMax);
      BetweenOfFraction(Scale.Forward(plt), ScaleMin, ScaleMax);
    }

    /** Pixels to plot and back is the identity on all pixels. */
    lemma PixelRoundTrip(dom: real -> bool, pix: real)
      requires Ready(dom)
      ensures ScaleMin < ScaleMax && dom(PixelsToPlot(pix)) && PlotToPixels(PixelsToPlot(pix)) == pix
    {
      hide PlotToPixels, PixelsToPlot, Fraction, Between;
      ReadyScales(dom);
      var t := Fraction(pix, PixelMin, PixelMax);
      PixelsToPlotIs(pix);
      PlotToPixelsIs(PixelsToPlot(pix));
      FractionOfBetween(t, ScaleMin, ScaleMax);
      BetweenOfFraction(pix, PixelMin, PixelMax);
    }

    /** The limits of the range are drawn at the ends of the axis. */
    lemma LimitsAtEnds(dom: real -> bool)
      requires Ready(dom)
      ensures ScaleMin < ScaleMax
      ensures PlotToPixels(Range.min) == PixelMin && PlotToPixels(Range.max) == PixelMax
      ensures PixelsToPlot(PixelMin) == Range.min && PixelsToPlot(PixelMax) == Range.max
    {
      hide PlotToPixels, PixelsToPlot;
      ReadyScales(dom);
      PlotToPixelsIs(Range.min);
      PlotToPixelsIs(Range.max);
      FractionEnds(ScaleMin, ScaleMax);
      PlotRoundTrip(dom, Range.min);
      PlotRoundTrip(dom, Range.max);
    }

    /** Drawing is strictly monotone, in the direction of the pixels. */
    lemma PlotMonotone(dom: real -> bool, x: real, y: real)
      requires Ready(dom) && dom(x) && dom(y) && x < y
      ensures ScaleMin < ScaleMax
      ensures PixelMin < PixelMax ==> PlotToPixels(x) < PlotToPixels(y)
      ensures PixelMin > PixelMax ==> PlotToPixels(x) > PlotToPixels(y)
    {
      hide PlotToPixels, PixelsToPlot, Fraction, Between;
      ReadyScales(dom);
      PlotToPixelsIs(x);
      PlotToPixelsIs(y);
      FractionIncreases(Scale.Forward(x), Scale.Forward(y), ScaleMin, ScaleMax);
      BetweenIncreases(Fraction(Scale.Forward(x), ScaleMin, ScaleMax), Fraction(Scale.Forward(y), ScaleMin, ScaleMax), PixelMin, PixelMax);
    }
  }

  lemma ScaleTimes(w: real, size: real, t: real, d: real)
    requires size != 0.0 && d == size * t
    ensures (w / size) * d == t * w
  {
    assert (w / size) * size == w;
    assert (w / size) * (size * t) == ((w / size) * size) * t;
  }

  lemma BetweenIs(t: real, a: real, b: real, w: real)
    requires w == b - a
    ensures Between(t, a, b) == t * w + a
  {
  }

  lemma UnscaleTimes(x: real, a: real, b: real, size: real)
    requires size != 0.0 && a != b && (b - a) / size != 0.0
    ensures (x - a) / ((b - a) / size) == Fraction(x, a, b) * size
  {
    var k, t := (b - a) / size, Fraction(x, a, b);
    assert k * size == b - a;
    BetweenOfFraction(x, a, b);
    assert (t * size) * k == t * (k * size);
    assert ((t * size) * k) / k == t * size;
  }

  lemma SortedIs(v1: real, v2: real)
    ensures Sorted(v1, v2) == if v1 <= v2 then Range(v1, v2) else Range(v2, v1)
  {
  }

  /** What SetAspect promises: the range gets the size the aspect needs, if the constraints allow it; a locked
      limit is kept, or else the center, and with both locked nothing moves. */
  predicate IsAspectOf(out: Range, r: Range, unitPerPix: real, pixels: real, lockedMin: bool, lockedMax: bool, c: Constraints) {
    var size := unitPerPix * pixels;
    if lockedMin && lockedMax then out == r
    else
      var lo := if lockedMin then r.min else if lockedMax then r.max - size else (r.min + r.max - size) / 2.0;
      c.Allows(Range(lo, lo + size)) ==> out.min == lo && out.max == lo + size
  }

  lemma BothLocked(r: Range, unitPerPix: real, pixels: real, c: Constraints)
    ensures IsAspectOf(r, r, unitPerPix, pixels, true, true, c)
  {
  }

  lemma AllowedAspect(wanted: Range, r: Range, unitPerPix: real, pixels: real, lockedMin: bool, lockedMax: bool, c: Constraints)
    requires c.Valid() && !(lockedMin && lockedMax) && wanted.Size() == unitPerPix * pixels
    requires lockedMin ==> wanted.min == r.min
    requires !lockedMin && lockedMax ==> wanted.max == r.max
    requires !lockedMin && !lockedMax ==> Center(wanted) == Center(r)
    ensures IsAspectOf(Constrained(Sorted(wanted.min, wanted.max), c), r, unitPerPix, pixels, lockedMin, lockedMax, c)
  {
    hide Constrained;
    if c.Allows(wanted) {
      AllowedIsFixed(wanted, c);
    }
  }

  function Sorted(v1: real, v2: real): Range {
    Range(if v1 < v2 then v1 else v2, if v1 >= v2 then v1 else v2)
  }

  /** The extents after one more value. */
  function Extended(fit: Fit, v: real, c: Constraints): Fit {
    if !c.Admits(v) then fit
    else if fit.NoFit? then Fit(v, v)
    else Fit(if v < fit.min then v else fit.min, if v > fit.max then v else fit.max)
  }

  /** The first value is fitted exactly if it lies inside the range limits, their ends included. */
  lemma FirstValue(v: real, c: Constraints)
    ensures Extended(NoFit, v, c) == if (c.lo.At? && v < c.lo.v) || (c.hi.At? && v > c.hi.v) then NoFit else Fit(v, v)
  {
  }

  /** The extents after all values. */
  function FittedTo(values: seq<real>, c: Constraints): Fit {
    if |values| == 0 then NoFit else Extended(FittedTo(values[..|values| - 1], c), values[|values| - 1], c)
  }

  /** x is the smallest, or largest, admitted value. */
  predicate IsLeast(x: real, values: seq<real>, c: Constraints) {
    x in values && c.Admits(x) && forall v <- values :: c.Admits(v) ==> x <= v
  }

  predicate IsGreatest(x: real, values: seq<real>, c: Constraints) {
    x in values && c.Admits(x) && forall v <- values :: c.Admits(v) ==> v <= x
  }

  /** The extents are those of the values inside the range limits, if there is any. */
  lemma {:induction false} FittedToIs(values: seq<real>, c: Constraints)
    ensures var fit := FittedTo(values, c);
            if fit.NoFit? then forall v <- values :: !c.Admits(v) else IsLeast(fit.min, values, c) && IsGreatest(fit.max, values, c)
  {
    if |values| > 0 {
      var front, last := values[..|values| - 1], values[|values| - 1];
      assert values == front + [last];
      FittedToIs(front, c);
    }
  }

  /** The fitted values with a margin on both sides. */
  function Padded(fit: Fit, padding: real): Fit {
    if fit.NoFit? then NoFit
    else
      var extSize := (fit.max - fit.min) * 0.5;
      Fit(fit.min - extSize * padding, fit.max + extSize * padding)
  }

  lemma PaddedIsFit(fit: Fit, padding: real)
    ensures Padded(fit, padding).Fit? == fit.Fit?
  {
  }

  /** The range a fit aims at, before the constraints. */
  function FitTarget(r: Range, fit: Fit, padding: real, lockedMin: bool, lockedMax: bool): Range {
    var p := Padded(fit, padding);
    var lo := if p.NoFit? || lockedMin then r.min else p.min;
    var hi := if p.NoFit? || lockedMax then r.max else p.max;
    if AlmostEqual(lo, hi) then Range(lo - 0.5, hi + 0.5) else Range(lo, hi)
  }

  /** What a fit promises: a locked limit is kept, and a free one is the extent with its share of padding, as
      long as the constraints allow that range and it is not almost empty. Without values nothing moves. */
  predicate IsFitOf(out: Range, r: Range, fit: Fit, padding: real, lockedMin: bool, lockedMax: bool, c: Constraints) {
    if fit.NoFit? then !AlmostEqual(r.min, r.max) && c.Allows(r) ==> out == r
    else
      var margin := (fit.max - fit.min) / 2.0 * padding;
      var lo := if lockedMin then r.min else fit.min - margin;
      var hi := if lockedMax then r.max else fit.max + margin;
      !AlmostEqual(lo, hi) && c.Allows(Range(lo, hi)) ==> out.min == lo && out.max == hi
  }

  lemma FitKeepsLocks(r: Range, fit: Fit, padding: real, lockedMin: bool, lockedMax: bool, c: Constraints)
    requires c.Valid()
    ensures IsFitOf(Constrained(FitTarget(r, fit, padding, lockedMin, lockedMax), c), r, fit, padding, lockedMin, lockedMax, c)
  {
    hide AlmostEqual, Constrained;
    var target := FitTarget(r, fit, padding, lockedMin, lockedMax);
    assert fit.Fit? ==> (fit.max - fit.min) / 2.0 == (fit.max - fit.min) * 0.5;
    if c.Allows(target) {
      AllowedIsFixed(target, c);
    }
  }

  /** Without padding a fit is tight: its free limits are the least and the greatest value inside the range limits. */
  lemma TightFit(r: Range, values: seq<real>, lockedMin: bool, lockedMax: bool, c: Constraints, out: Range)
    requires c.Valid() && FittedTo(values, c).Fit? && IsFitOf(out, r, FittedTo(values, c), 0.0, lockedMin, lockedMax, c)
    ensures var fit := FittedTo(values, c);
            var lo, hi := if lockedMin then r.min else fit.min, if lockedMax then r.max else fit.max;
            !AlmostEqual(lo, hi) && c.Allows(Range(lo, hi)) ==>
              && (if lockedMin then out.min == r.min else IsLeast(out.min, values, c))
              && (if lockedMax then out.max == r.max else IsGreatest(out.max, values, c))
  {
    hide AlmostEqual, FittedTo, Constraints.Allows;
    FittedToIs(values, c);
    assert (FittedTo(values, c).max - FittedTo(values, c).min) / 2.0 * 0.0 == 0.0;
  }

  /** With the minimum locked, fitting 2 and 5 into [0, 10] moves the maximum only. */
  lemma LockedFit(r: Range, c: Constraints)
    requires r == Range(0.0, 10.0) && c == Constraints(Infinite, Infinite, 1.0, Infinite)
    ensures Constrained(FitTarget(r, Fit(2.0, 5.0), 0.0, true, false), c) == Range(0.0, 5.0)
  {
    NotAlmostEqual(0.0, 5.0);
  }

  /** Values as far apart as a millionth part of their sum, and of one, are not almost equal. */
  lemma NotAlmostEqual(x: real, y: real)
    requires y - x > 0.000001 * AbsReal(x + y) && y - x > 0.000001
    ensures !AlmostEqual(x, y)
  {
    HalfPowerIsSmall(DBL_MIN_EXPONENT);
    hide HalfPower;
    assert DBL_EPSILON * AbsReal(x + y) * 2.0 <= 0.000001 * AbsReal(x + y);
  }

  lemma {:induction false} HalfPowerIsSmall(n: nat)
    ensures n >= 20 ==> HalfPower(n) <= 0.000001
  {
    if n > 20 {
      HalfPowerIsSmall(n - 1);
    } else if n == 20 {
      assert HalfPower(5) == 1.0 / 32.0;
      assert HalfPower(10) == HalfPower(5) / 32.0;
      assert HalfPower(15) == HalfPower(10) / 32.0;
      assert HalfPower(20) == HalfPower(15) / 32.0;
    }
  }

  /** The margin adds the padding, as a share of the size, around the same center. */
  lemma PaddedGrows(fit: Fit, padding: real)
    requires fit.Fit?
    ensures var p := Padded(fit, padding);
            && p.max - p.min == (fit.max - fit.min) * (1.0 + padding)
            && p.min + p.max == fit.min + fit.max
  {
    var size := fit.max - fit.min;
    assert size * (1.0 + padding) == size + size * padding;
  }

  /** A single fitted value is shown in the middle of a range of size one. */
  lemma SingleValueFit(r: Range, v: real, padding: real)
    ensures FitTarget(r, Fit(v, v), padding, false, false) == Range(v - 0.5, v + 0.5)
  {
    assert Padded(Fit(v, v), padding) == Fit(v, v);
  }

  /** The range a fit with nothing locked ends with. */
  function FitResult(r: Range, fit: Fit, padding: real, c: Constraints): Range {
    Constrained(FitTarget(r, fit, padding, false, false), c)
  }

  /** Constrain cuts nothing from the range but what is outside the limits and, around the center of the
      rest, beyond the largest zoom. */
  predicate FitsZoom(r: Range, fit: Fit, c: Constraints)
    requires fit.Fit?
  {
    var clamped := c.Clamped(r);
    c.zoomMax.At? && clamped.Size() > c.zoomMax.v ==>
      Center(clamped) - c.zoomMax.v * 0.5 <= fit.min && fit.max <= Center(clamped) + c.zoomMax.v * 0.5
  }

  /** Exactly when a fit with nothing locked shows every value inside the range limits: if the largest zoom
      does not cut into the fitted values. Padding that overhangs the limits does no harm. */
  lemma FitShowsValuesIff(r: Range, values: seq<real>, padding: real, c: Constraints)
    requires c.Valid() && padding >= 0.0 && FittedTo(values, c).Fit?
    ensures var fit := FittedTo(values, c);
            var shown := FitResult(r, fit, padding, c);
            (forall v <- values :: c.Admits(v) ==> shown.min <= v <= shown.max)
            <==> FitsZoom(FitTarget(r, fit, padding, false, false), fit, c)
  {
    hide FittedTo, FitResult, FitsZoom, Constraints.Admits;
    var fit := FittedTo(values, c);
    FittedToIs(values, c);
    FitExtentsShownIff(r, fit, padding, c);
  }

  lemma FitExtentsShownIff(r: Range, fit: Fit, padding: real, c: Constraints)
    requires c.Valid() && padding >= 0.0 && fit.Fit? && fit.min <= fit.max && c.Admits(fit.min) && c.Admits(fit.max)
    ensures var shown := FitResult(r, fit, padding, c);
            shown.min <= fit.min && fit.max <= shown.max <==> FitsZoom(FitTarget(r, fit, padding, false, false), fit, c)
  {
    hide FitTarget;
    TargetCovers(r, fit, padding);
  }

  lemma TargetCovers(r: Range, fit: Fit, padding: real)
    requires padding >= 0.0 && fit.Fit? && fit.min <= fit.max
    ensures var target := FitTarget(r, fit, padding, false, false); target.min <= fit.min && fit.max <= target.max
  {
    hide AlmostEqual;
    assert (fit.max - fit.min) * 0.5 * padding >= 0.0;
  }

  /** In particular every value inside the range limits is shown if the clamped target is within the largest zoom. */
  lemma FitShowsValues(r: Range, values: seq<real>, padding: real, c: Constraints, v: real)
    requires c.Valid() && padding >= 0.0 && v in values && c.Admits(v)
    requires c.zoomMax.At? ==> c.Clamped(FitTarget(r, FittedTo(values, c), padding, false, false)).Size() <= c.zoomMax.v
    ensures var shown := FitResult(r, FittedTo(values, c), padding, c); shown.min <= v <= shown.max
  {
    hide FittedTo, FitResult, FitTarget, Constraints.Admits;
    FittedToIs(values, c);
    FitShowsValuesIff(r, values, padding, c);
  }
}
