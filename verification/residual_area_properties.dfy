/** Properties of `calculate_minimum_area_after_corrosion` shared by both
    modes: the bar radius recovered from the area, the area of a circle, the
    argument checks, and which formula each combination of arguments
    selects. */
module ResidualAreaProperties {
  import opened Outcomes
  import opened PyMath
  import DesignCode
  import opened ResidualArea

  /** The bar radius is non-negative and gives back the bar's area; it is
      positive exactly when the area is. */
  lemma BarRadiusRestoresArea(m: MathLib, area: real)
    requires Sound(m)
    requires area >= 0.0
    ensures BarRadius(m, area) >= 0.0
    ensures CircleArea(BarRadius(m, area)) == area
    ensures BarRadius(m, area) > 0.0 <==> area > 0.0
  {
    var scaled := SquaredRadius(area);
    var radius := m.sqrt(scaled);
    assert radius * radius == scaled;
    if scaled == 0.0 {
      SqrtUnique(m, 0.0, 0.0);
    } else {
      assert radius != 0.0;
    }
  }

  /** Squaring a circle's radius: the area grows strictly with the radius. */
  lemma CircleAreaStrict(a: real, b: real)
    requires 0.0 <= a < b
    ensures CircleArea(a) < CircleArea(b)
  {
    SquareStrictlyMonotone(a, b);
    var d := b * b - a * a;
    ProductSign(d, Pi);
    assert d * Pi == CircleArea(b) - CircleArea(a);
  }

  lemma CircleAreaMonotone(a: real, b: real)
    requires 0.0 <= a <= b
    ensures CircleArea(a) <= CircleArea(b)
  {
    if a < b {
      CircleAreaStrict(a, b);
    }
  }

  /** With a design code set and a non-negative area, a mass loss given
      together with a velocity or a time is refused, and so is a velocity
      without a time or a time without a velocity. */
  lemma AreaArgumentCombinations(
    m: MathLib, area: real, pittingFactor: real, massLoss: Option<real>, velocity: Option<real>, time: Option<real>,
    designCode: Option<string>, activeCode: Option<string>)
    requires area >= 0.0
    requires DesignCode.Resolve(designCode, activeCode).Some?
    ensures var r := MinimumAreaAfterCorrosion(m, area, pittingFactor, massLoss, velocity, time, designCode, activeCode);
      && (massLoss.Some? && (velocity.Some? || time.Some?) ==> r == Err(TooManyArguments))
      && (massLoss.None? && velocity.Some? != time.Some? ==> r == Err(MissingVelocityOrTime))
  {
  }

  /** Once the arguments select one mode, a pitting factor below 1 is
      refused, and otherwise a mass loss outside [0, 1], a negative velocity
      or a negative time is refused; the boundary values pass. */
  lemma AreaRangeChecks(
    m: MathLib, area: real, pittingFactor: real, massLoss: Option<real>, velocity: Option<real>, time: Option<real>,
    designCode: Option<string>, activeCode: Option<string>)
    requires area >= 0.0
    requires DesignCode.Resolve(designCode, activeCode).Some?
    requires massLoss.Some? ==> velocity.None? && time.None?
    requires velocity.Some? == time.Some?
    ensures var r := MinimumAreaAfterCorrosion(m, area, pittingFactor, massLoss, velocity, time, designCode, activeCode);
      && (r == Err(PittingFactorBelowOne) <==> pittingFactor < 1.0)
      && (massLoss.Some? ==> (r == Err(MassLossOutOfRange) <==> pittingFactor >= 1.0 && (massLoss.value < 0.0 || massLoss.value > 1.0)))
      && (velocity.Some? ==> (r == Err(NegativeVelocity) <==> pittingFactor >= 1.0 && velocity.value < 0.0))
      && (time.Some? ==> (r == Err(NegativeTime) <==> pittingFactor >= 1.0 && velocity.value >= 0.0 && time.value < 0.0))
  {
  }

  /** With a mass loss given and no other mode, the minimum area is the
      outcome of the mass-loss formula on the bar's diameter. */
  lemma MassLossMode(
    m: MathLib, area: real, pittingFactor: real, massLoss: real, designCode: Option<string>, activeCode: Option<string>)
    requires area >= 0.0 && pittingFactor >= 1.0 && 0.0 <= massLoss <= 1.0
    requires DesignCode.Resolve(designCode, activeCode).Some?
    ensures var r := MinimumAreaAfterCorrosion(m, area, pittingFactor, Some(massLoss), None, None, designCode, activeCode);
      var s := MassLossArea(m, area, BarRadius(m, area) * 2.0, pittingFactor, massLoss);
      && (r.Ok? <==> s.Ok?)
      && (s.Ok? ==> r.value == Some(s.value))
      && (s.Err? ==> r.error == s.error)
  {
  }

  /** With a velocity and a time given and no mass loss, the minimum area is
      the outcome of the velocity formula on the bar's diameter. */
  lemma VelocityMode(
    m: MathLib, area: real, pittingFactor: real, velocity: real, time: real,
    designCode: Option<string>, activeCode: Option<string>)
    requires area >= 0.0 && pittingFactor >= 1.0 && velocity >= 0.0 && time >= 0.0
    requires DesignCode.Resolve(designCode, activeCode).Some?
    ensures var r := MinimumAreaAfterCorrosion(m, area, pittingFactor, None, Some(velocity), Some(time), designCode, activeCode);
      var s := VelocityTimeArea(BarRadius(m, area) * 2.0, pittingFactor, velocity, time);
      && (r.Ok? <==> s.Ok?)
      && (s.Ok? ==> r.value == Some(s.value))
      && (s.Err? ==> r.error == s.error)
  {
  }

  /** The outcome of the whole calculation once one mode's formula has
      run: its value is returned, its error raised. */
  function Selected(r: Result<real>): (s: Result<Option<real>>)
    ensures s.Ok? <==> r.Ok?
    ensures r.Ok? ==> s.value == Some(r.value)
    ensures r.Err? ==> s.error == r.error
  {
    match r
    case Ok(v) => Ok(Some(v))
    case Err(e) => Err(e)
  }

  /** A bound on a mode's value carries over to the whole calculation. */
  lemma SelectedBelow(r: Result<Option<real>>, outcome: Result<real>, bound: real)
    requires r == Selected(outcome)
    requires outcome.Ok? ==> outcome.value <= bound
    ensures r.Ok? ==> r.value.Some? && r.value.value <= bound
  {
  }

  /** An order between two outcomes of a mode carries over to the whole
      calculation. */
  lemma SelectedOrdered(r1: Result<Option<real>>, r2: Result<Option<real>>, outcome1: Result<real>, outcome2: Result<real>)
    requires r1 == Selected(outcome1) && r2 == Selected(outcome2)
    requires outcome2.Ok? ==> outcome1.Ok? && outcome2.value <= outcome1.value
    ensures r2.Ok? ==> r1.Ok? && r1.value.Some? && r2.value.Some? && r2.value.value <= r1.value.value
  {
  }
}
