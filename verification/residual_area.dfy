/** The minimum residual area of a corroded round bar,
    `calculate_minimum_area_after_corrosion`.

    The bar's diameter is derived from its uncorroded area. The average pit
    depth comes either from the fractional mass loss or from a corrosion rate
    and an exposure time; the maximum pit is the pitting factor times the
    average pit, and the minimum area is that of a circle whose radius is the
    original radius less the maximum pit. Areas are in square millimetres,
    lengths in millimetres, rates in micrometres per year and times in
    years. */
module ResidualArea {
  import opened Outcomes
  import opened PyMath
  import DesignCode

  /** Micrometres in a millimetre: rates are converted to mm per year. */
  const MicrometresPerMillimetre: real := 1000.0

  /** `area / pi`, the square of the radius of a circle of that area. */
  function SquaredRadius(area: real): real {
    area / Pi
  }

  /** The radius of a round bar of the given area, `sqrt(area / pi)`. */
  function BarRadius(m: MathLib, area: real): real {
    m.sqrt(SquaredRadius(area))
  }

  /** The area of a circle of the given radius, written `r ** 2 * pi`. */
  function CircleArea(radius: real): (a: real)
    ensures a >= 0.0
  {
    radius * radius * Pi
  }

  /** The area left by a uniform corrosion that removes the fraction
      `massLoss` of the steel. */
  function UniformlyCorrodedArea(area: real, massLoss: real): real {
    area * (1.0 - massLoss)
  }

  /** The average pit depth, in millimetres, after `time` years at
      `velocity` micrometres per year. */
  function AveragePitDepth(velocity: real, time: real): real {
    velocity / MicrometresPerMillimetre * time
  }

  /** The radius left under the deepest pit, which is the pitting factor
      times the average pit. */
  function PittedRadius(radius: real, pittingFactor: real, averagePit: real): real {
    radius - pittingFactor * averagePit
  }

  /** The last step of both modes: a negative residual radius is refused,
      otherwise the minimum area is that of the residual circle. */
  function Residual(radius: real): (r: Result<real>)
    ensures r.Err? <==> radius < 0.0
    ensures r.Err? ==> r.error == NegativeResidualRadius
    ensures r.Ok? ==> r.value >= 0.0
  {
    if radius < 0.0 then Err(NegativeResidualRadius) else Ok(CircleArea(radius))
  }

  /** Mass-loss mode: the radius of the uniformly corroded bar fixes the
      average pit. */
  function MassLossArea(m: MathLib, area: real, diameter: real, pittingFactor: real, massLoss: real): (r: Result<real>)
    ensures r.Err? ==> r.error in {MathDomainError, NegativeResidualRadius}
    ensures r == Err(MathDomainError) <==> UniformlyCorrodedArea(area, massLoss) < 0.0
    ensures r.Ok? ==> r.value >= 0.0
  {
    var averageRadius :- Sqrt(m, SquaredRadius(UniformlyCorrodedArea(area, massLoss)));
    var averagePit := diameter / 2.0 - averageRadius;
    Residual(PittedRadius(diameter / 2.0, pittingFactor, averagePit))
  }

  /** Velocity-and-time mode: a pit deeper than the whole diameter is
      rejected first, a maximum pit deeper than the radius second. */
  function VelocityTimeArea(diameter: real, pittingFactor: real, velocity: real, time: real): (r: Result<real>)
    ensures r.Err? ==> r.error in {PitExceedsDiameter, NegativeResidualRadius}
    ensures r == Err(PitExceedsDiameter) <==> AveragePitDepth(velocity, time) > diameter
    ensures r == Err(NegativeResidualRadius) <==>
      AveragePitDepth(velocity, time) <= diameter
      && PittedRadius(diameter / 2.0, pittingFactor, AveragePitDepth(velocity, time)) < 0.0
    ensures r.Ok? ==> r.value >= 0.0
  {
    var averagePit := AveragePitDepth(velocity, time);
    if averagePit > diameter then
      Err(PitExceedsDiameter)
    else
      Residual(PittedRadius(diameter / 2.0, pittingFactor, averagePit))
  }

  /** `calculate_minimum_area_after_corrosion`. `Ok(None)` is the bare
      `return` reached when neither mode's arguments are given. The defaults
      are the Python function's: a pitting factor of 1, no mode arguments
      and no explicit design code. */
  function MinimumAreaAfterCorrosion(
    m: MathLib, uncorrodedArea: real, pittingFactor: real := 1.0,
    massLoss: Option<real> := None, velocity: Option<real> := None, time: Option<real> := None,
    designCode: Option<string> := None, activeCode: Option<string>): (r: Result<Option<real>>)
    ensures uncorrodedArea < 0.0 ==> r == Err(MathDomainError)
    ensures uncorrodedArea >= 0.0 && DesignCode.Resolve(designCode, activeCode).None? ==> r == Err(DesignCodeNotSet)
    ensures r != Err(NegativeArea)
    ensures r == Ok(None) <==>
      && uncorrodedArea >= 0.0
      && DesignCode.Resolve(designCode, activeCode).Some?
      && massLoss.None? && velocity.None? && time.None?
      && pittingFactor >= 1.0
    ensures r.Ok? && r.value.Some? ==> r.value.value >= 0.0
  {
    var root :- Sqrt(m, SquaredRadius(uncorrodedArea));
    var diameter := root * 2.0;
    if DesignCode.Resolve(designCode, activeCode).None? then
      Err(DesignCodeNotSet)
    else if massLoss.Some? && (velocity.Some? || time.Some?) then
      Err(TooManyArguments)
    else if (velocity.Some? && time.None?) || (velocity.None? && time.Some?) then
      Err(MissingVelocityOrTime)
    else if pittingFactor < 1.0 then
      Err(PittingFactorBelowOne)
    else if uncorrodedArea < 0.0 then
      Err(NegativeArea)
    else if massLoss.Some? && (massLoss.value < 0.0 || massLoss.value > 1.0) then
      Err(MassLossOutOfRange)
    else if velocity.Some? && velocity.value < 0.0 then
      Err(NegativeVelocity)
    else if time.Some? && time.value < 0.0 then
      Err(NegativeTime)
    else if massLoss.Some? then
      var area :- MassLossArea(m, uncorrodedArea, diameter, pittingFactor, massLoss.value);
      Ok(Some(area))
    else if velocity.Some? && time.Some? then
      var area :- VelocityTimeArea(diameter, pittingFactor, velocity.value, time.value);
      Ok(Some(area))
    else
      Ok(None)
  }
}
