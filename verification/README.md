# Corrosion of reinforcing bars: a verified model

This project models the two corrosion calculations in
`structuralcodes/development/corrosion.py`, together with the properties
they promise.

- `calculate_velocity_of_corrosion` returns a representative corrosion rate in micrometres per year. It works as follows:
  - It resolves the design code.
  - It validates the corrosion type, then the exposure class, which has a per-type default.
  - It validates the fractile.
  - It reads the mean and standard deviation off a fixed table.
  - It returns `mean + z * sd`, where `z` comes from Acklam's rational approximation of the inverse standard normal CDF (the nested `inverse_normal_cdf`).
  - A rate of zero or less is refused.
- `calculate_minimum_area_after_corrosion` returns the minimum residual area of a round bar. It works as follows:
  - It derives the bar's diameter from its area.
  - It validates the design code, the combination of arguments and their ranges.
  - It computes the average pit depth, either from a fractional mass loss or from a rate and a time.
  - It subtracts `pitting_factor * average_pit` from the radius.
  - A negative residual radius is refused.
  - With neither mode's arguments, the function reaches a bare `return`.

Modules:

- `Outcomes` holds `Option`, `Result` and the `Error` kinds. There is one kind per distinct check, plus Python's math domain error and division by zero. Three kinds each stand for two `raise` statements:
  - `DesignCodeNotSet`: the design-code check in each function (corrosion.py lines 47 and 240, same message).
  - `InvalidExposureClass`: the per-type exposure-class checks (lines 70 and 75). The kind carries the list of valid choices, which is what the two messages differ in.
  - `NegativeResidualRadius`: the final radius check of each mode (lines 291 and 309). The two messages differ: one names the mass loss, the other the velocity and time.
- `PyMath` holds `math.pi` (the double 3.141592653589793, taken as an exact rational). `math.sqrt` and `math.log` arrive as a `MathLib` parameter. The predicate `Sound(m)` states the facts the proofs use: the square root of a non-negative number is its non-negative square root, and `ln x <= x - 1`.
- `DesignCode` chooses between the explicit design code and the active one.
- `InverseNormal` is `inverse_normal_cdf`. Its central region is modelled exactly with the verbatim coefficients.
- `CorrosionRate` is `calculate_velocity_of_corrosion` with its enumerations and its table.
- `ResidualArea` is `calculate_minimum_area_after_corrosion`. `Ok(None)` is the bare `return`.
- `ResidualAreaProperties`, `MassLossProperties` and `VelocityProperties` hold the proofs about the area calculation: the argument checks, the closed form of each mode, bounds, monotonicity and worked cases.

Behaviour of the code that the model keeps:

- The diameter `sqrt(area / pi) * 2` is computed before any check. A negative area therefore fails there, with a math domain error, even before the design-code check. The later "uncorroded_area must be non-negative" check can never fire; `ResidualArea.MinimumAreaAfterCorrosion` states this.
- In velocity mode the first check compares the average pit with the whole diameter, not the radius. A pit that passes the centre without exceeding the diameter is refused by the second check instead, with the other message. `VelocityProperties.MinimumAreaVelocity` states both conditions.
- The standard deviation for unsheltered carbonation is 1. The Python implementation uses this value where the printed table is unclear.
- The Python defaults are the Dafny defaults: `corrosion_type` is `"chloride_induced"`, `fractile` is 0.5, `pitting_factor` is 1, and every other optional argument is absent. Passing `None` explicitly for the corrosion type is modelled as `None`, which is no type.

## Model

| member | source | states |
|---|---|---|
| DesignCode.Resolve | structuralcodes/development/corrosion.py:39-51 | The code used is the explicit argument when given, and the active one (set or not) when it is not; none is resolved exactly when neither is set. |
| CorrosionRate.ParseCorrosionType | structuralcodes/development/corrosion.py:53-59 | A type is recognised exactly when the string is one of the two type names, and the recognised type's name is that string. |
| CorrosionRate.ParseExposureClass | structuralcodes/development/corrosion.py:62-78 | A class is recognised exactly when the string is one of the seven class names, and the recognised class's name is that string. |
| CorrosionRate.ValidNamesAreAllowedClasses | structuralcodes/development/corrosion.py:62-78 | A name is in the type's listed valid choices exactly when it names a class the type allows. |
| CorrosionRate.DefaultExposureClass | structuralcodes/development/corrosion.py:64-68 | The default class is allowed for its type: Unsheltered for carbonation, Cyclic_dry_wet for chlorides. |
| CorrosionRate.Table | structuralcodes/development/corrosion.py:86-112 | Every tabulated mean and standard deviation is positive. |
| CorrosionRate.VelocityOfCorrosion | structuralcodes/development/corrosion.py:4-179 | A missing design code is refused first, then an unknown corrosion type. A returned rate is positive and its fractile lies strictly between 0 and 1. |
| CorrosionRate.VelocityRefusedExactlyWhenNonPositive | structuralcodes/development/corrosion.py:168-179 | With a sound math library, a set code, an allowed pairing and a fractile in (0, 1), the quantile `z` exists. The call is refused as non-positive exactly when `mean + z * sd <= 0`, and otherwise returns `mean + z * sd`. |
| CorrosionRate.VelocityAllDefaults | structuralcodes/development/corrosion.py:4-9 | With every argument at its default and some active code, the rate is 30, the mean for chloride-induced corrosion in the cyclic wet and dry class. |
| CorrosionRate.VelocityDefaultExposure | structuralcodes/development/corrosion.py:64-68 | Omitting the exposure class gives the same outcome as naming the type's default class. |
| CorrosionRate.VelocityExposureCheck | structuralcodes/development/corrosion.py:69-78 | With a code and a valid type, the exposure-class error, listing the valid choices, occurs exactly when the name is not among them. |
| CorrosionRate.VelocityFractileCheck | structuralcodes/development/corrosion.py:80-84 | For an allowed pairing, the fractile error occurs exactly when the fractile is at most 0 or at least 1. |
| CorrosionRate.VelocityAtMedian | tests/test_corrosion/test_corrosion.py:8-24 | At fractile 0.5 every allowed pairing returns exactly its tabulated mean. |
| CorrosionRate.VelocityOrderedByFractile | structuralcodes/development/corrosion.py:168-179 | The rate exceeds the mean exactly for fractiles above 0.5 and falls below it exactly for fractiles below 0.5. From the median up, the rate is never refused. |
| CorrosionRate.VelocityMirror | structuralcodes/development/corrosion.py:150-169 | Fractiles `p` and `1 - p` give rates symmetric about the mean. |
| CorrosionRate.VelocityNearOneSigma | tests/test_corrosion/test_corrosion.py:27-50 | At fractile 0.8413 every allowed pairing returns mean plus one deviation, to within 0.1 percent. |
| CorrosionRate.ShelteredCarbonationLowFractileRejected | structuralcodes/development/corrosion.py:171-177 | For sheltered carbonation at fractile 0.02425 the computed rate is negative, and the call is refused. |
| InverseNormal.InverseCdf | structuralcodes/development/corrosion.py:116-166 | An out-of-range error occurs exactly when p is not in (0, 1). Any other failure is a math domain error or a division by zero. At p = 0.5 the result is exactly 0. |
| InverseNormal.InverseCdfTotal | structuralcodes/development/corrosion.py:150-166 | With a sound math library, every p in (0, 1) gets a quantile: no domain error and no division by zero. |
| InverseNormal.InverseCdfOdd | structuralcodes/development/corrosion.py:150-166 | `z(1 - p) == -z(p)`, and both sides fail together with the same error. |
| InverseNormal.InverseCdfSign | structuralcodes/development/corrosion.py:154-166 | The quantile is negative exactly below 0.5 and positive exactly above. |
| InverseNormal.CentralDenominatorPositive | structuralcodes/development/corrosion.py:162-166 | The central denominator is positive over the whole central region, so that branch never divides by zero. |
| InverseNormal.TailRoot | structuralcodes/development/corrosion.py:154-159 | In either tail, `sqrt(-2 ln x)` is defined and at least 1.39. |
| InverseNormal.TailDenominatorAtLeastOne | structuralcodes/development/corrosion.py:156-161 | The tail denominator is at least 1 for a non-negative `q`. |
| InverseNormal.InverseCdfNearOneSigma | structuralcodes/development/corrosion.py:162-166 | The quantile of 0.8413 lies between 0.9998 and 0.9999. |
| InverseNormal.InverseCdfAtLowBreakPoint | structuralcodes/development/corrosion.py:150-166 | The quantile at the lower break-point 0.02425 is below -1.97. |
| ResidualArea.Residual | structuralcodes/development/corrosion.py:289-295 | A negative residual radius, and only that, is refused. Otherwise the returned area is non-negative. |
| PyMath.Sqrt | structuralcodes/development/corrosion.py:230 | `math.sqrt` fails with a math domain error exactly for a negative argument. With a sound library its value is the non-negative root. |
| PyMath.Div | structuralcodes/development/corrosion.py:156-161 | A float division fails with a division by zero exactly when the divisor is 0. Otherwise the quotient times the divisor is the dividend. |
| ResidualArea.MassLossArea | structuralcodes/development/corrosion.py:285-295 | Mass-loss mode fails only with a math domain error or a negative residual radius. The domain error occurs exactly when the uniformly corroded area is negative. Any returned area is non-negative. |
| ResidualArea.VelocityTimeArea | structuralcodes/development/corrosion.py:298-313 | The diameter error occurs exactly when the average pit exceeds the diameter. The negative-radius error occurs exactly when the pit does not exceed the diameter but the radius minus `pf * pit` is negative. Any returned area is non-negative. |
| ResidualArea.MinimumAreaAfterCorrosion | structuralcodes/development/corrosion.py:181-314 | A negative area fails at the early square root, so the dedicated negative-area error never occurs. Otherwise a missing code is refused first. No value is returned exactly when no mode is given and the pitting factor is at least 1. Any returned area is non-negative. |
| ResidualAreaProperties.BarRadiusRestoresArea | structuralcodes/development/corrosion.py:230 | `sqrt(area / pi)` is a non-negative radius whose circle has the given area, and it is positive exactly when the area is. |
| ResidualAreaProperties.CircleAreaStrict | structuralcodes/development/corrosion.py:289 | A larger radius gives a strictly larger circle. |
| ResidualAreaProperties.AreaArgumentCombinations | structuralcodes/development/corrosion.py:246-257 | A mass loss given together with a velocity or a time is refused. So is a velocity without a time, or a time without a velocity. |
| ResidualAreaProperties.AreaRangeChecks | structuralcodes/development/corrosion.py:259-282 | A pitting factor below 1, a mass loss outside [0, 1], a negative velocity or a negative time is refused, in that order. The boundary values pass. |
| ResidualAreaProperties.MassLossMode | structuralcodes/development/corrosion.py:284-295 | With only a mass loss, the result is the mass-loss formula on the bar's diameter. |
| ResidualAreaProperties.VelocityMode | structuralcodes/development/corrosion.py:297-313 | With only a velocity and a time, the result is the velocity formula on the bar's diameter. |
| MassLossProperties.UniformRadius | structuralcodes/development/corrosion.py:286-287 | Uniform corrosion scales the bar's radius by `sqrt(1 - mass_loss)`. |
| MassLossProperties.MassLossClosedForm | structuralcodes/development/corrosion.py:285-295 | Let `f = 1 - pf * (1 - sqrt(1 - mass_loss))`. A bar of positive area is refused exactly when `f < 0`; otherwise it keeps `f * f` of its area. |
| MassLossProperties.MinimumAreaMassLoss | structuralcodes/development/corrosion.py:284-295 | The whole calculation in mass-loss mode is that closed form. |
| MassLossProperties.MassLossBounded | structuralcodes/development/corrosion.py:285-295 | Pitting never leaves more than uniform corrosion: an accepted area is at most `area * (1 - mass_loss)`, hence at most the uncorroded area. |
| MassLossProperties.MassLossUniform | tests/test_corrosion/test_corrosion.py:93-109 | With the default pitting factor of 1, every mass loss is accepted and leaves `area * (1 - mass_loss)`. |
| MassLossProperties.MassLossNone | tests/test_corrosion/test_corrosion.py:93-109 | A mass loss of 0 returns the uncorroded area for any pitting factor. |
| MassLossProperties.MassLossMonotone | structuralcodes/development/corrosion.py:285-295 | If a heavier mass loss is accepted, so is a lighter one, with at least as large an area. |
| MassLossProperties.MassLossTotal | tests/test_corrosion/test_corrosion.py:101 | Losing the whole mass leaves 0 with a pitting factor of 1, and is refused with any larger pitting factor. |
| MassLossProperties.MassLossHalfDoublePitting | tests/test_corrosion/test_corrosion.py:99 | Half the mass lost with a pitting factor of 2 leaves `(2 * sqrt(0.5) - 1) ** 2` of the area. |
| MassLossProperties.MassLossNineTenthsDoublePittingRefused | tests/test_corrosion/test_corrosion.py:150-172 | 90 percent mass loss with a pitting factor of 2 is refused as a negative residual radius. |
| VelocityProperties.VelocityFromRadius | structuralcodes/development/corrosion.py:298-313 | On a bar of radius R, a pit deeper than 2R is refused first, then a negative residual radius. Otherwise the result is the circle of the residual radius, no larger than the bar. |
| VelocityProperties.MinimumAreaVelocity | structuralcodes/development/corrosion.py:297-313 | In velocity mode with pit `v / 1000 * t`, the diameter error occurs exactly when the pit exceeds the diameter. The negative-radius error occurs exactly when the pit does not exceed the diameter but the radius minus `pf * pit` is negative. Otherwise the result is the area of the circle with that residual radius. |
| VelocityProperties.VelocityBounded | structuralcodes/development/corrosion.py:298-313 | An accepted area is at most the uncorroded one. For a bar of positive area it is equal exactly when the average pit is zero. |
| VelocityProperties.VelocityMonotoneInTime | structuralcodes/development/corrosion.py:298-313 | If a longer exposure at the same rate is accepted, so is a shorter one, with at least as large an area. |
| VelocityProperties.VelocityNoCorrosion | tests/test_corrosion/test_corrosion.py:112-121 | A zero rate or a zero time returns the uncorroded area for any pitting factor. |
| VelocityProperties.SixteenMillimetreBar | tests/test_corrosion/test_corrosion.py:89-90 | A 16 mm bar has a radius of 8 mm. |
| VelocityProperties.SixteenMillimetreBarCorroded | tests/test_corrosion/test_corrosion.py:112-130 | At 100 micrometres a year, a 16 mm bar keeps radius 7 after 10 years, radius 6 with pitting factor 2, and radius 4 after 40 years. |
| VelocityProperties.SixteenMillimetreBarRefused | tests/test_corrosion/test_corrosion.py:150-172 | On a 16 mm bar at 100 micrometres a year, two cases pass the centre and are refused as a negative radius: 100 years, and 50 years with pitting factor 2. After 200 years the pit exceeds the diameter. |

## Left out

- `math.sqrt`, `math.log`: not computed. They are parameters, and every property that needs their values assumes only `Sound`, so the tail branches of `inverse_normal_cdf` are modelled through these abstract functions.
- IEEE-754 rounding: all arithmetic is over exact reals. The tolerances in the library's tests only exist because of floating point, so the worked cases are stated exactly. The cases on a 16 mm bar use the area `64 * pi` rather than the tests' `8*8*3.141592`.
- CorrosionRate.ShelteredCarbonationLowFractileRejected: the tests' fractile 0.001 lies in the lower tail. Its value depends on `math.log` beyond the bound `Sound` gives, so the rejection is proved at the lowest central fractile, 0.02425, instead.
- The approximation error of Acklam's formula against the true normal quantile is not stated; only the values at 0.5, 0.8413 and 0.02425 are.
- `fractile=None` or `pitting_factor=None` passed explicitly raise a Python `TypeError` at the first comparison. The model takes both as numbers, with the Python defaults 0.5 and 1.
- The design-code registry (`_use_design_code`, `set_design_code`) is not part of this model. The active code is an input, and only whether some code is set matters.
- The shear-resistance function later in `corrosion.py` is not part of this model. It sits inside a string literal and is not code.
- Error messages are represented by their error kind, not their text. The exposure-class error keeps the list of valid choices.
