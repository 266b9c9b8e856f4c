/** Failure-compatible wrappers shared by the corrosion calculations.

    The Python functions signal every failure by raising; here each raise
    becomes an `Err` carrying one `Error` constructor, so that contracts can
    say exactly which check rejected an input. */
module Outcomes {

  /** An optional argument (`None` in Python) or an optional result. */
  datatype Option<+T> = None | Some(value: T)

  /** The reasons the two calculations can fail. */
  datatype Error =
    /** Neither the explicit nor the active design code is set. */
    | DesignCodeNotSet
    /** `corrosion_type` is not one of the two recognised names. */
    | InvalidCorrosionType
    /** `exposure_class` is not allowed for the corrosion type; carries the
        names the error message lists as valid choices. */
    | InvalidExposureClass(validChoices: seq<string>)
    /** `fractile` is not strictly between 0 and 1. */
    | InvalidFractile
    /** The inverse normal approximation was called outside (0, 1). */
    | ProbabilityOutOfRange
    /** The representative corrosion rate came out less than or equal to 0. */
    | NonPositiveRate
    /** `mass_loss` was given together with a velocity or a time. */
    | TooManyArguments
    /** Only one of velocity and time of corrosion was given. */
    | MissingVelocityOrTime
    /** `pitting_factor` is below 1. */
    | PittingFactorBelowOne
    /** `uncorroded_area` is negative. */
    | NegativeArea
    /** `mass_loss` lies outside [0, 1]. */
    | MassLossOutOfRange
    /** `velocity_of_corrosion` is negative. */
    | NegativeVelocity
    /** `time_of_corrosion` is negative. */
    | NegativeTime
    /** The average pit is deeper than the whole bar diameter. */
    | PitExceedsDiameter
    /** The maximum pit is deeper than the bar radius. */
    | NegativeResidualRadius
    /** A math-library function was called outside its domain. */
    | MathDomainError
    /** A floating-point division by zero. */
    | ZeroDivision

  /** The outcome of a calculation: a value, or the error that stopped it. */
  datatype Result<+T> = Ok(value: T) | Err(error: Error) {

    predicate IsFailure() {
      Err?
    }

    function PropagateFailure<U>(): Result<U>
      requires Err?
    {
      Err(error)
    }

    function Extract(): T
      requires Ok?
    {
      value
    }
  }
}
