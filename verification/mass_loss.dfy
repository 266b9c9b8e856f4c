/** Mass-loss mode of `calculate_minimum_area_after_corrosion` in closed
    form, with its bounds, its monotonicity and the worked cases of the
    library's tests. */
module MassLossProperties {
  import opened Outcomes
  import opened PyMath
  import DesignCode
  import opened ResidualArea
  import opened ResidualAreaProperties

  /** The residual fraction of the radius in mass-loss mode: uniform
      corrosion keeps `sqrt(1 - massLoss)` of the radius, and pitting widens
      the loss of radius by the pitting factor. */
  function RadiusFraction(m: MathLib, pittingFactor: real, massLoss: real): real {
    1.0 - pittingFactor * (1.0 - m.sqrt(1.0 - massLoss))
  }

  /** Uniform corrosion scales the bar's radius by `sqrt(1 - massLoss)`. */
  lemma UniformRadius(m: MathLib, area: real, massLoss: real)
    requires Sound(m)
    requires area >= 0.0 && 0.0 <= massLoss <= 1.0
    ensures SquaredRadius(UniformlyCorrodedArea(area, massLoss)) >= 0.0
    ensures BarRadius(m, UniformlyCorrodedArea(area, massLoss)) == BarRadius(m, area) * m.sqrt(1.0 - massLoss)
  {
    var a, b := SquaredRadius(area), 1.0 - massLoss;
    var c := a * b;
    assert c == SquaredRadius(UniformlyCorrodedArea(area, massLoss));
    NonNegativeProduct(a, b);
    SqrtProduct(m, a, b);
  }

  /** In mass-loss mode on the bar's own diameter, the average pit is the
      radius lost to uniform corrosion. */
  lemma MassLossPit(m: MathLib, area: real, pittingFactor: real, massLoss: real)
    requires SquaredRadius(UniformlyCorrodedArea(area, massLoss)) >= 0.0
    ensures MassLossArea(m, area, BarRadius(m, area) * 2.0, pittingFactor, massLoss)
      == Residual(PittedRadius(BarRadius(m, area), pittingFactor,
                               BarRadius(m, area) - BarRadius(m, UniformlyCorrodedArea(area, massLoss))))
  {
    var root := Sqrt(m, SquaredRadius(UniformlyCorrodedArea(area, massLoss)));
    assert root == Ok(BarRadius(m, UniformlyCorrodedArea(area, massLoss)));
    assert BarRadius(m, area) * 2.0 / 2.0 == BarRadius(m, area);
  }

  /** Taking the pitting factor times the uniform loss of radius off the
      radius leaves the radius times the residual fraction. */
  lemma PittedFraction(m: MathLib, radius: real, uniformRadius: real, pittingFactor: real, massLoss: real)
    requires uniformRadius == radius * m.sqrt(1.0 - massLoss)
    ensures PittedRadius(radius, pittingFactor, radius - uniformRadius) == radius * RadiusFraction(m, pittingFactor, massLoss)
  {
  }

  /** The outcome of keeping the fraction `f` of the radius of a bar of
      area `area`: refused for a bar of positive area and a negative `f`,
      otherwise `f * f` of the area. */
  function ScaledOutcome(area: real, f: real): Result<real> {
    if area > 0.0 && f < 0.0 then Err(NegativeResidualRadius) else Ok(KeptArea(area, f))
  }

  /** The area of a bar whose radius is scaled by `f`. */
  function KeptArea(area: real, f: real): real {
    area * (f * f)
  }

  /** Scaling the bar's radius by `f` keeps `f * f` of its area, and is
      refused only for a bar of positive area and a negative `f`. */
  lemma ResidualScaled(area: real, radius: real, f: real)
    requires radius >= 0.0 && CircleArea(radius) == area
    requires radius > 0.0 <==> area > 0.0
    ensures Residual(radius * f) == ScaledOutcome(area, f)
  {
    var residual := radius * f;
    if radius > 0.0 && f >= 0.0 {
      NonNegativeProduct(radius, f);
    }
    assert residual < 0.0 <==> area > 0.0 && f < 0.0;
    assert (radius * f) * (radius * f) == (radius * radius) * (f * f);
    assert CircleArea(residual) == KeptArea(area, f);
  }

  /** Mass-loss mode in closed form, from the facts about the bar's radius
      that the square root provides. */
  lemma MassLossFromRadii(m: MathLib, area: real, pittingFactor: real, massLoss: real)
    requires SquaredRadius(UniformlyCorrodedArea(area, massLoss)) >= 0.0
    requires BarRadius(m, UniformlyCorrodedArea(area, massLoss)) == BarRadius(m, area) * m.sqrt(1.0 - massLoss)
    requires BarRadius(m, area) >= 0.0 && CircleArea(BarRadius(m, area)) == area
    requires BarRadius(m, area) > 0.0 <==> area > 0.0
    ensures MassLossArea(m, area, BarRadius(m, area) * 2.0, pittingFactor, massLoss)
      == ScaledOutcome(area, RadiusFraction(m, pittingFactor, massLoss))
  {
    var radius := BarRadius(m, area);
    var uniform := BarRadius(m, UniformlyCorrodedArea(area, massLoss));
    var f := RadiusFraction(m, pittingFactor, massLoss);
    var pitted := PittedRadius(radius, pittingFactor, radius - uniform);
    MassLossPit(m, area, pittingFactor, massLoss);
    assert MassLossArea(m, area, radius * 2.0, pittingFactor, massLoss) == Residual(pitted);
    PittedFraction(m, radius, uniform, pittingFactor, massLoss);
    assert pitted == radius * f;
    ResidualScaled(area, radius, f);
  }

  /** Mass-loss mode in closed form: with `f` the residual fraction of the
      radius, a bar of positive area is refused exactly when `f` is
      negative, and otherwise keeps `f * f` of its area. */
  lemma MassLossClosedForm(m: MathLib, area: real, pittingFactor: real, massLoss: real)
    requires Sound(m)
    requires area >= 0.0 && 0.0 <= massLoss <= 1.0
    ensures MassLossArea(m, area, BarRadius(m, area) * 2.0, pittingFactor, massLoss)
      == ScaledOutcome(area, RadiusFraction(m, pittingFactor, massLoss))
  {
    UniformRadius(m, area, massLoss);
    BarRadiusRestoresArea(m, area);
    MassLossFromRadii(m, area, pittingFactor, massLoss);
  }

  /** The minimum area in mass-loss mode: with `f` the residual fraction of
      the radius, a bar of positive area is refused exactly when `f` is
      negative, and otherwise keeps `f * f` of its area. */
  lemma MinimumAreaMassLoss(
    m: MathLib, area: real, pittingFactor: real, massLoss: real, designCode: Option<string>, activeCode: Option<string>)
    requires Sound(m)
    requires area >= 0.0 && pittingFactor >= 1.0 && 0.0 <= massLoss <= 1.0
    requires DesignCode.Resolve(designCode, activeCode).Some?
    ensures MinimumAreaAfterCorrosion(m, area, pittingFactor, Some(massLoss), None, None, designCode, activeCode)
      == Selected(ScaledOutcome(area, RadiusFraction(m, pittingFactor, massLoss)))
  {
    MassLossMode(m, area, pittingFactor, massLoss, designCode, activeCode);
    MassLossClosedForm(m, area, pittingFactor, massLoss);
  }

  /** The square root of the fraction of steel left is itself a fraction. */
  lemma RootOfRemainder(m: MathLib, massLoss: real)
    requires Sound(m)
    requires 0.0 <= massLoss <= 1.0
    ensures 0.0 <= m.sqrt(1.0 - massLoss) <= 1.0
    ensures m.sqrt(1.0 - massLoss) * m.sqrt(1.0 - massLoss) == 1.0 - massLoss
  {
    SqrtMonotone(m, 1.0 - massLoss, 1.0);
    SqrtUnique(m, 1.0, 1.0);
  }

  /** Pitting never leaves more steel than uniform corrosion of the same
      mass loss: the minimum area is at most `area * (1 - massLoss)`, and so
      at most the uncorroded area. */
  lemma MassLossBounded(
    m: MathLib, area: real, pittingFactor: real, massLoss: real, designCode: Option<string>, activeCode: Option<string>)
    requires Sound(m)
    requires area >= 0.0 && pittingFactor >= 1.0 && 0.0 <= massLoss <= 1.0
    requires DesignCode.Resolve(designCode, activeCode).Some?
    ensures var r := MinimumAreaAfterCorrosion(m, area, pittingFactor, Some(massLoss), None, None, designCode, activeCode);
      r.Ok? ==> r.value.Some? && r.value.value <= UniformlyCorrodedArea(area, massLoss) <= area
  {
    var r := MinimumAreaAfterCorrosion(m, area, pittingFactor, Some(massLoss), None, None, designCode, activeCode);
    MinimumAreaMassLoss(m, area, pittingFactor, massLoss, designCode, activeCode);
    RootOfRemainder(m, massLoss);
    SelectedBounded(r, area, pittingFactor, massLoss, m.sqrt(1.0 - massLoss), RadiusFraction(m, pittingFactor, massLoss));
  }

  /** The bound of the whole calculation, from the root of the remaining
      fraction of steel. */
  lemma SelectedBounded(r: Result<Option<real>>, area: real, pittingFactor: real, massLoss: real, s: real, f: real)
    requires area >= 0.0 && pittingFactor >= 1.0 && massLoss >= 0.0
    requires 0.0 <= s <= 1.0 && s * s == 1.0 - massLoss
    requires f == 1.0 - pittingFactor * (1.0 - s)
    requires r == Selected(ScaledOutcome(area, f))
    ensures r.Ok? ==> r.value.Some? && r.value.value <= UniformlyCorrodedArea(area, massLoss) <= area
  {
    OutcomeBounded(area, pittingFactor, massLoss, s, f);
    SelectedBelow(r, ScaledOutcome(area, f), UniformlyCorrodedArea(area, massLoss));
  }

  /** With the default pitting factor of 1 the corrosion is uniform: the bar keeps the
      fraction `1 - massLoss` of its area, and no mass loss is refused. */
  lemma MassLossUniform(
    m: MathLib, area: real, massLoss: real, designCode: Option<string>, activeCode: Option<string>)
    requires Sound(m)
    requires area >= 0.0 && 0.0 <= massLoss <= 1.0
    requires DesignCode.Resolve(designCode, activeCode).Some?
    ensures MinimumAreaAfterCorrosion(m, area, massLoss := Some(massLoss), designCode := designCode, activeCode := activeCode)
      == Ok(Some(UniformlyCorrodedArea(area, massLoss)))
  {
    var s := m.sqrt(1.0 - massLoss);
    var f := RadiusFraction(m, 1.0, massLoss);
    MinimumAreaMassLoss(m, area, 1.0, massLoss, designCode, activeCode);
    RootOfRemainder(m, massLoss);
    OutcomeUniform(area, massLoss, s, f);
  }

  /** Without mass loss the bar keeps its whole area, whatever the pitting
      factor. */
  lemma MassLossNone(
    m: MathLib, area: real, pittingFactor: real, designCode: Option<string>, activeCode: Option<string>)
    requires Sound(m)
    requires area >= 0.0 && pittingFactor >= 1.0
    requires DesignCode.Resolve(designCode, activeCode).Some?
    ensures MinimumAreaAfterCorrosion(m, area, pittingFactor, Some(0.0), None, None, designCode, activeCode)
      == Ok(Some(area))
  {
    MinimumAreaMassLoss(m, area, pittingFactor, 0.0, designCode, activeCode);
    RootOfRemainder(m, 0.0);
    SqrtUnique(m, 1.0, 1.0);
    var f := RadiusFraction(m, pittingFactor, 0.0);
    assert f == 1.0;
    assert ScaledOutcome(area, f) == Ok(area);
  }

  /** A heavier mass loss never leaves more steel: when the heavier loss is
      accepted, so is the lighter one, with at least as large an area. */
  lemma MassLossMonotone(
    m: MathLib, area: real, pittingFactor: real, lighter: real, heavier: real,
    designCode: Option<string>, activeCode: Option<string>)
    requires Sound(m)
    requires area >= 0.0 && pittingFactor >= 1.0 && 0.0 <= lighter <= heavier <= 1.0
    requires DesignCode.Resolve(designCode, activeCode).Some?
    ensures var r1 := MinimumAreaAfterCorrosion(m, area, pittingFactor, Some(lighter), None, None, designCode, activeCode);
      var r2 := MinimumAreaAfterCorrosion(m, area, pittingFactor, Some(heavier), None, None, designCode, activeCode);
      r2.Ok? ==> r1.Ok? && r1.value.Some? && r2.value.Some? && r2.value.value <= r1.value.value
  {
    MinimumAreaMassLoss(m, area, pittingFactor, lighter, designCode, activeCode);
    MinimumAreaMassLoss(m, area, pittingFactor, heavier, designCode, activeCode);
    SqrtMonotone(m, 1.0 - heavier, 1.0 - lighter);
    MonotoneFromRoots(m, area, pittingFactor, lighter, heavier, designCode, activeCode);
  }

  /** The ordering of two mass-loss outcomes, from the ordering of the
      square roots of the fractions of steel left. */
  lemma MonotoneFromRoots(
    m: MathLib, area: real, pittingFactor: real, lighter: real, heavier: real,
    designCode: Option<string>, activeCode: Option<string>)
    requires area >= 0.0 && pittingFactor >= 1.0
    requires MinimumAreaAfterCorrosion(m, area, pittingFactor, Some(lighter), None, None, designCode, activeCode)
      == Selected(ScaledOutcome(area, RadiusFraction(m, pittingFactor, lighter)))
    requires MinimumAreaAfterCorrosion(m, area, pittingFactor, Some(heavier), None, None, designCode, activeCode)
      == Selected(ScaledOutcome(area, RadiusFraction(m, pittingFactor, heavier)))
    requires m.sqrt(1.0 - heavier) <= m.sqrt(1.0 - lighter)
    ensures var r1 := MinimumAreaAfterCorrosion(m, area, pittingFactor, Some(lighter), None, None, designCode, activeCode);
      var r2 := MinimumAreaAfterCorrosion(m, area, pittingFactor, Some(heavier), None, None, designCode, activeCode);
      r2.Ok? ==> r1.Ok? && r1.value.Some? && r2.value.Some? && r2.value.value <= r1.value.value
  {
    var s1, s2 := m.sqrt(1.0 - lighter), m.sqrt(1.0 - heavier);
    var f1, f2 := RadiusFraction(m, pittingFactor, lighter), RadiusFraction(m, pittingFactor, heavier);
    OutcomeMonotone(area, pittingFactor, s1, s2, f1, f2);
    SelectedOrdered(
      MinimumAreaAfterCorrosion(m, area, pittingFactor, Some(lighter), None, None, designCode, activeCode),
      MinimumAreaAfterCorrosion(m, area, pittingFactor, Some(heavier), None, None, designCode, activeCode),
      ScaledOutcome(area, f1), ScaledOutcome(area, f2));
  }

  /** A mass loss of the whole bar leaves nothing under uniform corrosion,
      and is refused under any pitting, since the deepest pit would pass
      the centre of the bar. */
  lemma MassLossTotal(
    m: MathLib, area: real, pittingFactor: real, designCode: Option<string>, activeCode: Option<string>)
    requires Sound(m)
    requires area > 0.0 && pittingFactor >= 1.0
    requires DesignCode.Resolve(designCode, activeCode).Some?
    ensures var r := MinimumAreaAfterCorrosion(m, area, pittingFactor, Some(1.0), None, None, designCode, activeCode);
      && (pittingFactor == 1.0 ==> r == Ok(Some(0.0)))
      && (pittingFactor > 1.0 ==> r == Err(NegativeResidualRadius))
  {
    MinimumAreaMassLoss(m, area, pittingFactor, 1.0, designCode, activeCode);
    SqrtUnique(m, 0.0, 0.0);
    var f := RadiusFraction(m, pittingFactor, 1.0);
    assert f == 1.0 - pittingFactor;
    assert KeptArea(area, 0.0) == 0.0;
  }

  /** Half the mass lost with a pitting factor of 2 leaves
      `(2 * sqrt(0.5) - 1) ** 2` of the area. */
  lemma MassLossHalfDoublePitting(
    m: MathLib, area: real, designCode: Option<string>, activeCode: Option<string>)
    requires Sound(m)
    requires area >= 0.0
    requires DesignCode.Resolve(designCode, activeCode).Some?
    ensures MinimumAreaAfterCorrosion(m, area, 2.0, Some(0.5), None, None, designCode, activeCode)
      == Ok(Some(KeptArea(area, 2.0 * m.sqrt(0.5) - 1.0)))
  {
    MinimumAreaMassLoss(m, area, 2.0, 0.5, designCode, activeCode);
    SqrtMonotone(m, 0.25, 0.5);
    SqrtUnique(m, 0.25, 0.5);
    var f := RadiusFraction(m, 2.0, 0.5);
    assert f == 2.0 * m.sqrt(0.5) - 1.0;
  }

  /** Nine tenths of the mass lost with a pitting factor of 2 is refused:
      the deepest pit would pass the centre of the bar. */
  lemma MassLossNineTenthsDoublePittingRefused(
    m: MathLib, area: real, designCode: Option<string>, activeCode: Option<string>)
    requires Sound(m)
    requires area > 0.0
    requires DesignCode.Resolve(designCode, activeCode).Some?
    ensures MinimumAreaAfterCorrosion(m, area, 2.0, Some(0.9), None, None, designCode, activeCode)
      == Err(NegativeResidualRadius)
  {
    MinimumAreaMassLoss(m, area, 2.0, 0.9, designCode, activeCode);
    SqrtMonotone(m, 0.1, 0.25);
    SqrtUnique(m, 0.25, 0.5);
    var s := m.sqrt(1.0 - 0.9);
    assert s * s == 0.1;
    assert s != 0.5;
    assert RadiusFraction(m, 2.0, 0.9) < 0.0;
  }

  /** The mass-loss outcome for a residual fraction `f` taken from the
      uniform fraction `s` of the radius, `s * s` being the fraction of steel
      left: accepted, it leaves at most the uniformly corroded area. */
  lemma OutcomeBounded(area: real, pittingFactor: real, massLoss: real, s: real, f: real)
    requires area >= 0.0 && pittingFactor >= 1.0 && massLoss >= 0.0
    requires 0.0 <= s <= 1.0 && s * s == 1.0 - massLoss
    requires f == 1.0 - pittingFactor * (1.0 - s)
    ensures ScaledOutcome(area, f).Ok? ==> ScaledOutcome(area, f).value <= UniformlyCorrodedArea(area, massLoss)
    ensures UniformlyCorrodedArea(area, massLoss) <= area
  {
    var remainder := 1.0 - massLoss;
    assert UniformlyCorrodedArea(area, massLoss) == area * remainder;
    FractionBelowRoot(pittingFactor, s);
    if f >= 0.0 {
      SquareMonotone(f, s);
      ScaleMonotone(area, f * f, remainder);
    }
    ScaleMonotone(area, remainder, 1.0);
  }

  /** With a pitting factor of 1 the residual fraction is the uniform one. */
  lemma OutcomeUniform(area: real, massLoss: real, s: real, f: real)
    requires 0.0 <= s && s * s == 1.0 - massLoss
    requires f == 1.0 - 1.0 * (1.0 - s)
    ensures ScaledOutcome(area, f).Ok? && ScaledOutcome(area, f).value == UniformlyCorrodedArea(area, massLoss)
  {
    var remainder := 1.0 - massLoss;
    assert f == s;
    assert f * f == remainder;
    assert KeptArea(area, f) == area * remainder;
  }

  /** A smaller uniform fraction gives a smaller residual fraction, and so
      an outcome refused sooner and otherwise no larger. */
  lemma OutcomeMonotone(area: real, pittingFactor: real, s1: real, s2: real, f1: real, f2: real)
    requires area >= 0.0 && pittingFactor >= 1.0 && s2 <= s1
    requires f1 == 1.0 - pittingFactor * (1.0 - s1)
    requires f2 == 1.0 - pittingFactor * (1.0 - s2)
    ensures ScaledOutcome(area, f2).Ok? ==>
      ScaledOutcome(area, f1).Ok? && ScaledOutcome(area, f2).value <= ScaledOutcome(area, f1).value
  {
    FractionAntitone(pittingFactor, s1, s2);
    if f2 >= 0.0 {
      SquareMonotone(f2, f1);
      ScaleMonotone(area, f2 * f2, f1 * f1);
    }
  }

  /** Taking the pitting factor times the loss of radius `1 - s` off the
      radius leaves at most the fraction `s`. */
  lemma FractionBelowRoot(pittingFactor: real, s: real)
    requires pittingFactor >= 1.0 && s <= 1.0
    ensures 1.0 - pittingFactor * (1.0 - s) <= s
  {
    var a, b := pittingFactor - 1.0, 1.0 - s;
    NonNegativeProduct(a, b);
    assert pittingFactor * b == a * b + b;
  }

  /** The residual fraction falls as the uniform fraction `s` falls. */
  lemma FractionAntitone(pittingFactor: real, s1: real, s2: real)
    requires pittingFactor >= 0.0 && s2 <= s1
    ensures 1.0 - pittingFactor * (1.0 - s2) <= 1.0 - pittingFactor * (1.0 - s1)
  {
    var d := s1 - s2;
    NonNegativeProduct(pittingFactor, d);
    assert pittingFactor * (1.0 - s2) == pittingFactor * (1.0 - s1) + pittingFactor * d;
  }
}
