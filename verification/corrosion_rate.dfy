/** The representative corrosion rate, `calculate_velocity_of_corrosion`.

    A rate in micrometres per year is read off a fixed table of mean and
    standard deviation per corrosion type and exposure class, and moved
    `z` standard deviations away from the mean, `z` being the standard
    normal quantile of the requested fractile. Inputs arrive as the strings
    the Python function accepts; they are validated in the order the
    function checks them, and the first failing check decides the error. */
module CorrosionRate {
  import opened Outcomes
  import opened PyMath
  import DesignCode
  import InverseNormal

  /** What triggers the corrosion. */
  datatype CorrosionType = CarbonationInduced | ChlorideInduced {
    /** The string the Python function accepts for this type. */
    function Name(): string {
      match this
      case CarbonationInduced => "carbonation_induced"
      case ChlorideInduced => "chloride_induced"
    }
  }

  /** The environment the bar is exposed to. */
  datatype ExposureClass =
    | Sheltered | Unsheltered
    | Wet | CyclicDryWet | AirbornSeawater | Submerged | TidalZone
  {
    /** The string the Python function accepts for this class. */
    function Name(): string {
      match this
      case Sheltered => "Sheltered"
      case Unsheltered => "Unsheltered"
      case Wet => "Wet"
      case CyclicDryWet => "Cyclic_dry_wet"
      case AirbornSeawater => "Airborn_seawater"
      case Submerged => "Submerged"
      case TidalZone => "Tidal_zone"
    }
  }

  /** Reads `corrosion_type`; `None` or any other string is not a type. */
  function ParseCorrosionType(s: Option<string>): (t: Option<CorrosionType>)
    ensures t.Some? ==> s == Some(t.value.Name())
    ensures forall c: CorrosionType :: s == Some(c.Name()) ==> t == Some(c)
  {
    if s == Some("carbonation_induced") then Some(CarbonationInduced)
    else if s == Some("chloride_induced") then Some(ChlorideInduced)
    else None
  }

  /** Reads an exposure-class name; unknown names are not a class. */
  function ParseExposureClass(s: string): (e: Option<ExposureClass>)
    ensures e.Some? ==> e.value.Name() == s
    ensures forall c: ExposureClass :: c.Name() == s ==> e == Some(c)
  {
    if s == "Sheltered" then Some(Sheltered)
    else if s == "Unsheltered" then Some(Unsheltered)
    else if s == "Wet" then Some(Wet)
    else if s == "Cyclic_dry_wet" then Some(CyclicDryWet)
    else if s == "Airborn_seawater" then Some(AirbornSeawater)
    else if s == "Submerged" then Some(Submerged)
    else if s == "Tidal_zone" then Some(TidalZone)
    else None
  }

  /** The exposure-class names valid for a corrosion type, in the order the
      error message lists them. */
  function ValidExposureNames(t: CorrosionType): seq<string> {
    match t
    case CarbonationInduced => ["Sheltered", "Unsheltered"]
    case ChlorideInduced => ["Wet", "Cyclic_dry_wet", "Airborn_seawater", "Submerged", "Tidal_zone"]
  }

  /** The pairings the table has an entry for. */
  predicate Allowed(t: CorrosionType, e: ExposureClass) {
    match t
    case CarbonationInduced => e in {Sheltered, Unsheltered}
    case ChlorideInduced => e in {Wet, CyclicDryWet, AirbornSeawater, Submerged, TidalZone}
  }

  /** A name is in the listed valid choices exactly when it names a class
      allowed for the type. */
  lemma ValidNamesAreAllowedClasses(t: CorrosionType, s: string)
    ensures s in ValidExposureNames(t) <==>
      ParseExposureClass(s).Some? && Allowed(t, ParseExposureClass(s).value)
  {
  }

  /** The class used when none is given. */
  function DefaultExposureClass(t: CorrosionType): (e: ExposureClass)
    ensures Allowed(t, e)
    ensures t == CarbonationInduced ==> e == Unsheltered
    ensures t == ChlorideInduced ==> e == CyclicDryWet
  {
    match t
    case CarbonationInduced => Unsheltered
    case ChlorideInduced => CyclicDryWet
  }

  /** Mean and standard deviation of the corrosion rate, in micrometres per
      year. */
  datatype Statistics = Statistics(mean: real, sd: real)

  /** The table of rate statistics, one entry per allowed pairing. Each
      class belongs to exactly one type, so the class alone selects the row.
      The standard deviation for unsheltered carbonation is 1, the value the
      Python implementation uses where the printed table is unclear. */
  function Table(t: CorrosionType, e: ExposureClass): (s: Statistics)
    requires Allowed(t, e)
    ensures s.mean > 0.0 && s.sd > 0.0
  {
    match e
    case Sheltered => Statistics(2.0, 3.0)
    case Unsheltered => Statistics(5.0, 1.0)
    case Wet => Statistics(4.0, 6.0)
    case CyclicDryWet => Statistics(30.0, 40.0)
    case AirbornSeawater => Statistics(30.0, 40.0)
    case Submerged => Statistics(4.0, 7.0)
    case TidalZone => Statistics(50.0, 100.0)
  }

  /** The rate `z` standard deviations away from the mean. */
  function RepresentativeRate(s: Statistics, z: real): real {
    s.mean + z * s.sd
  }

  /** `calculate_velocity_of_corrosion`: the representative corrosion rate,
      in micrometres per year, for the given type, exposure class and
      fractile, under the explicit design code or else the active one. The
      defaults are the Python function's: chloride-induced corrosion, the
      type's default class, the median and no explicit design code. `None`
      passed for the type is Python's explicit `None`, which is no type. */
  function VelocityOfCorrosion(
    m: MathLib, corrosionType: Option<string> := Some("chloride_induced"), exposureClass: Option<string> := None,
    fractile: real := 0.5, designCode: Option<string> := None, activeCode: Option<string>): (r: Result<real>)
    ensures DesignCode.Resolve(designCode, activeCode).None? ==> r == Err(DesignCodeNotSet)
    ensures DesignCode.Resolve(designCode, activeCode).Some? && ParseCorrosionType(corrosionType).None? ==>
      r == Err(InvalidCorrosionType)
    ensures r.Ok? ==> r.value > 0.0 && 0.0 < fractile < 1.0
  {
    if DesignCode.Resolve(designCode, activeCode).None? then
      Err(DesignCodeNotSet)
    else
      match ParseCorrosionType(corrosionType)
      case None => Err(InvalidCorrosionType)
      case Some(t) =>
        var name := if exposureClass.Some? then exposureClass.value else DefaultExposureClass(t).Name();
        var e := ParseExposureClass(name);
        if e.None? || !Allowed(t, e.value) then
          Err(InvalidExposureClass(ValidExposureNames(t)))
        else if fractile <= 0.0 || fractile >= 1.0 then
          Err(InvalidFractile)
        else
          var stats := Table(t, e.value);
          var z :- InverseNormal.InverseCdf(m, fractile);
          var rate := RepresentativeRate(stats, z);
          if rate <= 0.0 then Err(NonPositiveRate) else Ok(rate)
  }

  /** Once every argument check has passed, a failing quantile is passed
      on, and otherwise the rate it gives is refused when not positive and
      returned when positive. */
  lemma VelocityFromQuantile(
    m: MathLib, t: CorrosionType, e: ExposureClass, fractile: real,
    designCode: Option<string>, activeCode: Option<string>)
    requires DesignCode.Resolve(designCode, activeCode).Some?
    requires Allowed(t, e)
    requires 0.0 < fractile < 1.0
    ensures var q := InverseNormal.InverseCdf(m, fractile);
      var r := VelocityOfCorrosion(m, Some(t.Name()), Some(e.Name()), fractile, designCode, activeCode);
      && (q.Err? ==> r == Err(q.error))
      && (q.Ok? && RepresentativeRate(Table(t, e), q.value) <= 0.0 ==> r == Err(NonPositiveRate))
      && (q.Ok? && RepresentativeRate(Table(t, e), q.value) > 0.0 ==> r == Ok(RepresentativeRate(Table(t, e), q.value)))
  {
  }

  /** Once every argument check has passed, the result is the tabulated
      mean moved `z` standard deviations, `z` the normal quantile of the
      fractile; it is refused exactly when that rate is not positive, and
      returned otherwise. */
  lemma VelocityRefusedExactlyWhenNonPositive(
    m: MathLib, t: CorrosionType, e: ExposureClass, fractile: real,
    designCode: Option<string>, activeCode: Option<string>)
    requires Sound(m)
    requires DesignCode.Resolve(designCode, activeCode).Some?
    requires Allowed(t, e)
    requires 0.0 < fractile < 1.0
    ensures InverseNormal.InverseCdf(m, fractile).Ok?
    ensures var r := VelocityOfCorrosion(m, Some(t.Name()), Some(e.Name()), fractile, designCode, activeCode);
      var rate := RepresentativeRate(Table(t, e), InverseNormal.InverseCdf(m, fractile).value);
      && (r == Err(NonPositiveRate) <==> rate <= 0.0)
      && (rate > 0.0 ==> r == Ok(rate))
  {
    InverseNormal.InverseCdfTotal(m, fractile);
    VelocityFromQuantile(m, t, e, fractile, designCode, activeCode);
  }

  /** Every argument left at its default: chloride-induced corrosion in the
      cyclic wet and dry class at the median, the tabulated mean of 30. */
  lemma VelocityAllDefaults(m: MathLib, activeCode: Option<string>)
    requires activeCode.Some?
    ensures VelocityOfCorrosion(m, activeCode := activeCode) == Ok(30.0)
  {
  }

  /** A missing exposure class means the type's default class. */
  lemma VelocityDefaultExposure(
    m: MathLib, t: CorrosionType, fractile: real, designCode: Option<string>, activeCode: Option<string>)
    ensures VelocityOfCorrosion(m, Some(t.Name()), None, fractile, designCode, activeCode)
         == VelocityOfCorrosion(m, Some(t.Name()), Some(DefaultExposureClass(t).Name()), fractile, designCode, activeCode)
  {
  }

  /** With a design code set and a recognised type, the exposure-class check
      fails, listing the valid choices, exactly when the name is not one of
      them. */
  lemma VelocityExposureCheck(
    m: MathLib, t: CorrosionType, name: string, fractile: real,
    designCode: Option<string>, activeCode: Option<string>)
    requires DesignCode.Resolve(designCode, activeCode).Some?
    ensures VelocityOfCorrosion(m, Some(t.Name()), Some(name), fractile, designCode, activeCode)
         == Err(InvalidExposureClass(ValidExposureNames(t)))
      <==> name !in ValidExposureNames(t)
  {
    ValidNamesAreAllowedClasses(t, name);
  }

  /** For an allowed pairing the fractile check fails exactly outside the
      open unit interval, before any table lookup. */
  lemma VelocityFractileCheck(
    m: MathLib, t: CorrosionType, e: ExposureClass, fractile: real,
    designCode: Option<string>, activeCode: Option<string>)
    requires DesignCode.Resolve(designCode, activeCode).Some?
    requires Allowed(t, e)
    ensures VelocityOfCorrosion(m, Some(t.Name()), Some(e.Name()), fractile, designCode, activeCode) == Err(InvalidFractile)
      <==> fractile <= 0.0 || fractile >= 1.0
  {
    var r := VelocityOfCorrosion(m, Some(t.Name()), Some(e.Name()), fractile, designCode, activeCode);
    if 0.0 < fractile < 1.0 {
      assert r.Err? ==> r.error in {ProbabilityOutOfRange, MathDomainError, ZeroDivision, NonPositiveRate};
    }
  }

  /** The median fractile returns the tabulated mean, for every allowed
      pairing and whatever the math library. */
  lemma VelocityAtMedian(
    m: MathLib, t: CorrosionType, e: ExposureClass, designCode: Option<string>, activeCode: Option<string>)
    requires DesignCode.Resolve(designCode, activeCode).Some?
    requires Allowed(t, e)
    ensures VelocityOfCorrosion(m, Some(t.Name()), Some(e.Name()), 0.5, designCode, activeCode) == Ok(Table(t, e).mean)
  {
  }

  /** The rate lies above the mean exactly for fractiles above one half and
      below it exactly for fractiles below one half; from the median up the
      rate is never rejected as non-positive. */
  lemma {:induction false} VelocityOrderedByFractile(
    m: MathLib, t: CorrosionType, e: ExposureClass, fractile: real,
    designCode: Option<string>, activeCode: Option<string>)
    requires Sound(m)
    requires DesignCode.Resolve(designCode, activeCode).Some?
    requires Allowed(t, e)
    requires 0.0 < fractile < 1.0
    ensures fractile >= 0.5 ==> VelocityOfCorrosion(m, Some(t.Name()), Some(e.Name()), fractile, designCode, activeCode).Ok?
    ensures var r := VelocityOfCorrosion(m, Some(t.Name()), Some(e.Name()), fractile, designCode, activeCode);
      r.Ok? ==> (r.value > Table(t, e).mean <==> fractile > 0.5) && (r.value < Table(t, e).mean <==> fractile < 0.5)
  {
    InverseNormal.InverseCdfSign(m, fractile);
    VelocityRefusedExactlyWhenNonPositive(m, t, e, fractile, designCode, activeCode);
    RateOrderedByQuantile(Table(t, e), InverseNormal.InverseCdf(m, fractile).value);
  }

  /** Against a positive deviation, the rate lies above the mean exactly
      for a positive quantile and below it exactly for a negative one. */
  lemma RateOrderedByQuantile(s: Statistics, z: real)
    requires s.mean > 0.0 && s.sd > 0.0
    ensures RepresentativeRate(s, z) > s.mean <==> z > 0.0
    ensures RepresentativeRate(s, z) < s.mean <==> z < 0.0
    ensures z >= 0.0 ==> RepresentativeRate(s, z) > 0.0
  {
    ProductSign(s.sd, z);
    assert z * s.sd == s.sd * z;
  }

  /** Fractiles symmetric about one half give rates symmetric about the
      mean, whenever both succeed. */
  lemma {:induction false} VelocityMirror(
    m: MathLib, t: CorrosionType, e: ExposureClass, fractile: real,
    designCode: Option<string>, activeCode: Option<string>)
    requires DesignCode.Resolve(designCode, activeCode).Some?
    requires Allowed(t, e)
    requires 0.0 < fractile < 1.0
    ensures var lo := VelocityOfCorrosion(m, Some(t.Name()), Some(e.Name()), fractile, designCode, activeCode);
      var hi := VelocityOfCorrosion(m, Some(t.Name()), Some(e.Name()), 1.0 - fractile, designCode, activeCode);
      lo.Ok? && hi.Ok? ==> lo.value + hi.value == 2.0 * Table(t, e).mean
  {
    InverseNormal.InverseCdfOdd(m, fractile);
    VelocityFromQuantile(m, t, e, fractile, designCode, activeCode);
    VelocityFromQuantile(m, t, e, 1.0 - fractile, designCode, activeCode);
    var z := InverseNormal.InverseCdf(m, fractile);
    if z.Ok? {
      RateMirror(Table(t, e), z.value);
    }
  }

  /** Opposite quantiles give rates symmetric about the mean. */
  lemma RateMirror(s: Statistics, z: real)
    ensures RepresentativeRate(s, z) + RepresentativeRate(s, -z) == 2.0 * s.mean
  {
    assert (-z) * s.sd == -(z * s.sd);
  }

  /** At fractile 0.8413 every allowed pairing returns mean plus one
      standard deviation to within 0.1 percent. */
  lemma VelocityNearOneSigma(
    m: MathLib, t: CorrosionType, e: ExposureClass, designCode: Option<string>, activeCode: Option<string>)
    requires DesignCode.Resolve(designCode, activeCode).Some?
    requires Allowed(t, e)
    ensures var r := VelocityOfCorrosion(m, Some(t.Name()), Some(e.Name()), 0.8413, designCode, activeCode);
      var target := Table(t, e).mean + Table(t, e).sd;
      r.Ok? && -0.001 * target < r.value - target < 0.001 * target
  {
    InverseNormal.InverseCdfNearOneSigma(m);
  }

  /** Sheltered carbonation (mean 2, deviation 3) at the lowest central
      fractile computes a negative rate, which is rejected. */
  lemma ShelteredCarbonationLowFractileRejected(m: MathLib, designCode: Option<string>, activeCode: Option<string>)
    requires DesignCode.Resolve(designCode, activeCode).Some?
    ensures VelocityOfCorrosion(m, Some("carbonation_induced"), Some("Sheltered"), InverseNormal.PLow, designCode, activeCode)
         == Err(NonPositiveRate)
  {
    InverseNormal.InverseCdfAtLowBreakPoint(m);
  }
}
