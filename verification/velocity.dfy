/** Velocity-and-time mode of `calculate_minimum_area_after_corrosion`: its
    outcome in terms of the bar's radius and the average pit, the bounds on
    the residual area, its monotonicity in time, and the worked cases of the
    library's tests on a 16 mm bar. */
module VelocityProperties {
  import opened Outcomes
  import opened PyMath
  import DesignCode
  import opened ResidualArea
  import opened ResidualAreaProperties

  /** The velocity formula on a bar of radius `radius`: with `pit` the
      average pit and `left` the radius under the deepest pit, a pit deeper
      than the diameter is refused first, a negative `left` second, and
      otherwise the area of the circle of radius `left` is returned, which
      is at most the bar's area. */
  lemma VelocityFromRadius(area: real, radius: real, pittingFactor: real, velocity: real, time: real)
    requires radius >= 0.0 && CircleArea(radius) == area
    requires pittingFactor >= 1.0 && velocity >= 0.0 && time >= 0.0
    ensures var pit := AveragePitDepth(velocity, time);
      var left := PittedRadius(radius, pittingFactor, pit);
      var s := VelocityTimeArea(radius * 2.0, pittingFactor, velocity, time);
      && pit >= 0.0
      && (s == Err(PitExceedsDiameter) <==> pit > radius * 2.0)
      && (s == Err(NegativeResidualRadius) <==> pit <= radius * 2.0 && left < 0.0)
      && (s.Ok? <==> left >= 0.0)
      && (s.Ok? ==> s.value == CircleArea(left) && s.value <= area)
  {
    var rate := velocity / MicrometresPerMillimetre;
    NonNegativeProduct(rate, time);
    var pit := AveragePitDepth(velocity, time);
    assert pit == rate * time;
    var left := PittedRadius(radius, pittingFactor, pit);
    assert radius * 2.0 / 2.0 == radius;
    PitWidened(pit, pittingFactor);
    if left >= 0.0 {
      CircleAreaMonotone(left, radius);
    }
  }

  /** The deepest pit is at least the average one. */
  lemma PitWidened(pit: real, pittingFactor: real)
    requires pit >= 0.0 && pittingFactor >= 1.0
    ensures pit <= pittingFactor * pit
  {
    var d := pittingFactor - 1.0;
    NonNegativeProduct(d, pit);
    assert pittingFactor * pit == d * pit + pit;
  }

  /** The minimum area in velocity-and-time mode: with `pit` the average pit
      and `left` the radius left under the deepest pit, the calculation
      refuses a pit deeper than the bar's diameter, then a negative `left`,
      and otherwise returns the area of the circle of radius `left`. */
  lemma MinimumAreaVelocity(
    m: MathLib, area: real, pittingFactor: real, velocity: real, time: real,
    designCode: Option<string>, activeCode: Option<string>)
    requires Sound(m)
    requires area >= 0.0 && pittingFactor >= 1.0 && velocity >= 0.0 && time >= 0.0
    requires DesignCode.Resolve(designCode, activeCode).Some?
    ensures var r := MinimumAreaAfterCorrosion(m, area, pittingFactor, None, Some(velocity), Some(time), designCode, activeCode);
      var radius := BarRadius(m, area);
      var pit := AveragePitDepth(velocity, time);
      var left := PittedRadius(radius, pittingFactor, pit);
      && (r == Err(PitExceedsDiameter) <==> pit > radius * 2.0)
      && (r == Err(NegativeResidualRadius) <==> pit <= radius * 2.0 && left < 0.0)
      && (r.Ok? <==> left >= 0.0)
      && (r.Ok? ==> r.value == Some(CircleArea(left)))
  {
    BarRadiusRestoresArea(m, area);
    VelocityMode(m, area, pittingFactor, velocity, time, designCode, activeCode);
    VelocityFromRadius(area, BarRadius(m, area), pittingFactor, velocity, time);
  }

  /** Corrosion never adds steel: an accepted minimum area is at most the
      uncorroded area, and equals it for a bar of positive area exactly when
      the average pit is zero. */
  lemma VelocityBounded(
    m: MathLib, area: real, pittingFactor: real, velocity: real, time: real,
    designCode: Option<string>, activeCode: Option<string>)
    requires Sound(m)
    requires area >= 0.0 && pittingFactor >= 1.0 && velocity >= 0.0 && time >= 0.0
    requires DesignCode.Resolve(designCode, activeCode).Some?
    ensures var r := MinimumAreaAfterCorrosion(m, area, pittingFactor, None, Some(velocity), Some(time), designCode, activeCode);
      && (r.Ok? ==> r.value.Some? && r.value.value <= area)
      && (r.Ok? && area > 0.0 ==> (r.value.value == area <==> AveragePitDepth(velocity, time) == 0.0))
  {
    BarRadiusRestoresArea(m, area);
    VelocityMode(m, area, pittingFactor, velocity, time, designCode, activeCode);
    VelocityFromRadius(area, BarRadius(m, area), pittingFactor, velocity, time);
    BoundedFromRadius(area, BarRadius(m, area), pittingFactor, velocity, time);
  }

  /** For a bar of positive area, the velocity formula keeps the whole area
      exactly when the average pit is zero. */
  lemma BoundedFromRadius(area: real, radius: real, pittingFactor: real, velocity: real, time: real)
    requires radius > 0.0 <==> area > 0.0
    requires radius >= 0.0 && CircleArea(radius) == area
    requires pittingFactor >= 1.0 && velocity >= 0.0 && time >= 0.0
    ensures var s := VelocityTimeArea(radius * 2.0, pittingFactor, velocity, time);
      s.Ok? && area > 0.0 ==> (s.value == area <==> AveragePitDepth(velocity, time) == 0.0)
  {
    VelocityFromRadius(area, radius, pittingFactor, velocity, time);
    var pit := AveragePitDepth(velocity, time);
    var left := PittedRadius(radius, pittingFactor, pit);
    if pit > 0.0 && left >= 0.0 {
      PitWidened(pit, pittingFactor);
      CircleAreaStrict(left, radius);
    }
  }

  /** A longer exposure at the same rate never leaves more steel: when the
      longer one is accepted, so is the shorter, with at least as large an
      area. */
  lemma VelocityMonotoneInTime(
    m: MathLib, area: real, pittingFactor: real, velocity: real, shorter: real, longer: real,
    designCode: Option<string>, activeCode: Option<string>)
    requires Sound(m)
    requires area >= 0.0 && pittingFactor >= 1.0 && velocity >= 0.0 && 0.0 <= shorter <= longer
    requires DesignCode.Resolve(designCode, activeCode).Some?
    ensures var r1 := MinimumAreaAfterCorrosion(m, area, pittingFactor, None, Some(velocity), Some(shorter), designCode, activeCode);
      var r2 := MinimumAreaAfterCorrosion(m, area, pittingFactor, None, Some(velocity), Some(longer), designCode, activeCode);
      r2.Ok? ==> r1.Ok? && r1.value.Some? && r2.value.Some? && r2.value.value <= r1.value.value
  {
    BarRadiusRestoresArea(m, area);
    VelocityMode(m, area, pittingFactor, velocity, shorter, designCode, activeCode);
    VelocityMode(m, area, pittingFactor, velocity, longer, designCode, activeCode);
    MonotoneFromRadius(area, BarRadius(m, area), pittingFactor, velocity, shorter, longer);
  }

  /** The velocity formula is monotone in the time of corrosion. */
  lemma MonotoneFromRadius(area: real, radius: real, pittingFactor: real, velocity: real, shorter: real, longer: real)
    requires radius >= 0.0 && CircleArea(radius) == area
    requires pittingFactor >= 1.0 && velocity >= 0.0 && 0.0 <= shorter <= longer
    ensures var s1 := VelocityTimeArea(radius * 2.0, pittingFactor, velocity, shorter);
      var s2 := VelocityTimeArea(radius * 2.0, pittingFactor, velocity, longer);
      s2.Ok? ==> s1.Ok? && s2.value <= s1.value
  {
    var pit1, pit2 := AveragePitDepth(velocity, shorter), AveragePitDepth(velocity, longer);
    var left1, left2 := PittedRadius(radius, pittingFactor, pit1), PittedRadius(radius, pittingFactor, pit2);
    assert pit1 <= pit2 by {
      var rate := velocity / MicrometresPerMillimetre;
      assert pit1 == rate * shorter && pit2 == rate * longer;
      ScaleMonotone(rate, shorter, longer);
    }
    assert left2 <= left1 by {
      ScaleMonotone(pittingFactor, pit1, pit2);
    }
    VelocityFromRadius(area, radius, pittingFactor, velocity, shorter);
    VelocityFromRadius(area, radius, pittingFactor, velocity, longer);
    if left2 >= 0.0 {
      CircleAreaMonotone(left2, left1);
    }
  }

  /** Without corrosion, at a zero rate or over no time, the bar keeps its
      whole area whatever the pitting factor. */
  lemma VelocityNoCorrosion(
    m: MathLib, area: real, pittingFactor: real, velocity: real, time: real,
    designCode: Option<string>, activeCode: Option<string>)
    requires Sound(m)
    requires area >= 0.0 && pittingFactor >= 1.0 && velocity >= 0.0 && time >= 0.0
    requires velocity == 0.0 || time == 0.0
    requires DesignCode.Resolve(designCode, activeCode).Some?
    ensures MinimumAreaAfterCorrosion(m, area, pittingFactor, None, Some(velocity), Some(time), designCode, activeCode)
      == Ok(Some(area))
  {
    BarRadiusRestoresArea(m, area);
    VelocityMode(m, area, pittingFactor, velocity, time, designCode, activeCode);
    var radius := BarRadius(m, area);
    VelocityFromRadius(area, radius, pittingFactor, velocity, time);
    assert AveragePitDepth(velocity, time) == 0.0;
    assert PittedRadius(radius, pittingFactor, 0.0) == radius;
  }

  /** A round bar of 16 mm diameter has a radius of 8 mm. */
  lemma SixteenMillimetreBar(m: MathLib)
    requires Sound(m)
    ensures BarRadius(m, CircleArea(8.0)) == 8.0
  {
    assert SquaredRadius(CircleArea(8.0)) == 64.0;
    SqrtUnique(m, 64.0, 8.0);
  }

  /** The accepted cases on a 16 mm bar at 100 micrometres a year: a pit of
      1 mm after 10 years leaves a radius of 7 mm, or 6 mm with a pitting
      factor of 2, and a pit of 4 mm after 40 years a radius of 4 mm. */
  lemma SixteenMillimetreBarCorroded(m: MathLib, designCode: Option<string>, activeCode: Option<string>)
    requires Sound(m)
    requires DesignCode.Resolve(designCode, activeCode).Some?
    ensures MinimumAreaAfterCorrosion(m, CircleArea(8.0), 1.0, None, Some(100.0), Some(10.0), designCode, activeCode)
      == Ok(Some(CircleArea(7.0)))
    ensures MinimumAreaAfterCorrosion(m, CircleArea(8.0), 2.0, None, Some(100.0), Some(10.0), designCode, activeCode)
      == Ok(Some(CircleArea(6.0)))
    ensures MinimumAreaAfterCorrosion(m, CircleArea(8.0), 1.0, None, Some(100.0), Some(40.0), designCode, activeCode)
      == Ok(Some(CircleArea(4.0)))
  {
    SixteenMillimetreBar(m);
    MinimumAreaVelocity(m, CircleArea(8.0), 1.0, 100.0, 10.0, designCode, activeCode);
    MinimumAreaVelocity(m, CircleArea(8.0), 2.0, 100.0, 10.0, designCode, activeCode);
    MinimumAreaVelocity(m, CircleArea(8.0), 1.0, 100.0, 40.0, designCode, activeCode);
  }

  /** The refused cases on a 16 mm bar at 100 micrometres a year: a 10 mm
      pit after 100 years, and a 5 mm pit doubled by a pitting factor of 2,
      both pass the centre of the bar; a 20 mm pit after 200 years is deeper
      than the whole diameter. */
  lemma SixteenMillimetreBarRefused(m: MathLib, designCode: Option<string>, activeCode: Option<string>)
    requires Sound(m)
    requires DesignCode.Resolve(designCode, activeCode).Some?
    ensures MinimumAreaAfterCorrosion(m, CircleArea(8.0), 1.0, None, Some(100.0), Some(100.0), designCode, activeCode)
      == Err(NegativeResidualRadius)
    ensures MinimumAreaAfterCorrosion(m, CircleArea(8.0), 2.0, None, Some(100.0), Some(50.0), designCode, activeCode)
      == Err(NegativeResidualRadius)
    ensures MinimumAreaAfterCorrosion(m, CircleArea(8.0), 1.0, None, Some(100.0), Some(200.0), designCode, activeCode)
      == Err(PitExceedsDiameter)
  {
    SixteenMillimetreBar(m);
    MinimumAreaVelocity(m, CircleArea(8.0), 1.0, 100.0, 100.0, designCode, activeCode);
    MinimumAreaVelocity(m, CircleArea(8.0), 2.0, 100.0, 50.0, designCode, activeCode);
    MinimumAreaVelocity(m, CircleArea(8.0), 1.0, 100.0, 200.0, designCode, activeCode);
  }
}
