TestResult.DisplayName,TestResult.Outcome,TestResult.Duration,TestResult.ResourceCount,RandomSeed
VelocityProperties.MonotoneFromRadius (correctness),Failed,00:00:01.5992498,2033923,2
InverseNormal.CentralQuotientOdd (correctness),Passed,00:00:01.1269239,350693,2
InverseNormal.CentralDenominatorPositive (correctness),Passed,00:00:00.5562003,116762,2
CorrosionRate.VelocityOrderedByFractile (correctness),Passed,00:00:00.2808298,956289,2
MassLossProperties.MassLossBounded (correctness),Passed,00:00:00.2404775,705731,2
CorrosionRate.VelocityNearOneSigma (correctness),Passed,00:00:00.2077189,525990,2
CorrosionRate.VelocityExposureCheck (correctness),Passed,00:00:00.1556247,299533,2
CorrosionRate.VelocityMirror (correctness),Passed,00:00:00.1538173,491564,2
MassLossProperties.MonotoneFromRoots (correctness),Passed,00:00:00.1446037,317127,2
MassLossProperties.MassLossNone (correctness),Passed,00:00:00.1320921,183974,2
CorrosionRate.VelocityOfCorrosion (well-formedness),Passed,00:00:00.1211941,186022,2
MassLossProperties.MassLossNineTenthsDoublePittingRefused (correctness),Passed,00:00:00.1194095,170772,2
ResidualAreaProperties.AreaArgumentCombinations (correctness),Passed,00:00:00.1156521,81642,2
MassLossProperties.MassLossHalfDoublePitting (correctness),Passed,00:00:00.1153644,147359,2
VelocityProperties.VelocityFromRadius (correctness),Passed,00:00:00.1132308,58219,2
CorrosionRate.VelocityAtMedian (correctness),Passed,00:00:00.1116510,312840,2
VelocityProperties.VelocityMonotoneInTime (correctness),Passed,00:00:00.1075560,104507,2
MassLossProperties.UniformRadius (correctness),Passed,00:00:00.1069418,83419,2
MassLossProperties.MassLossPit (correctness),Passed,00:00:00.1069096,66815,2
VelocityProperties.VelocityFromRadius (well-formedness),Passed,00:00:00.1044211,33751,2
ResidualAreaProperties.AreaRangeChecks (well-formedness),Passed,00:00:00.1024253,78247,2
CorrosionRate.VelocityRefusedExactlyWhenNonPositive (well-formedness),Passed,00:00:00.1003338,124351,2
CorrosionRate.VelocityRefusedExactlyWhenNonPositive (correctness),Passed,00:00:00.0987264,338227,2
MassLossProperties.MassLossMonotone (correctness),Passed,00:00:00.0956546,172829,2
InverseNormal.InverseCdfTotal (correctness),Passed,00:00:00.0931583,187628,2
CorrosionRate.VelocityDefaultExposure (correctness),Passed,00:00:00.0908041,219797,2
InverseNormal.TailRoot (well-formedness),Passed,00:00:00.0838786,44094,2
VelocityProperties.VelocityBounded (well-formedness),Passed,00:00:00.0823131,77710,2
VelocityProperties.VelocityMonotoneInTime (well-formedness),Passed,00:00:00.0815883,78754,2
CorrosionRate.VelocityFractileCheck (correctness),Passed,00:00:00.0813363,361935,2
InverseNormal.TailDenominatorAtLeastOne (correctness),Passed,00:00:00.0804459,54655,2
ResidualArea.MassLossArea (well-formedness),Passed,00:00:00.0787814,63145,2
VelocityProperties.VelocityBounded (correctness),Passed,00:00:00.0785048,97089,2
ResidualAreaProperties.MassLossMode (correctness),Passed,00:00:00.0777888,115695,2
MassLossProperties.MassLossTotal (correctness),Passed,00:00:00.0768162,135127,2
InverseNormal.InverseCdfOdd (correctness),Passed,00:00:00.0759296,132606,2
CorrosionRate.VelocityOrderedByFractile (well-formedness),Passed,00:00:00.0732244,123868,2
ResidualAreaProperties.SelectedBelow (well-formedness),Passed,00:00:00.0731121,30995,2
ResidualArea.Residual (well-formedness),Passed,00:00:00.0729169,31822,2
ResidualAreaProperties.SelectedBelow (correctness),Passed,00:00:00.0701393,31581,2
ResidualAreaProperties.VelocityMode (correctness),Passed,00:00:00.0696101,97852,2
MassLossProperties.MassLossUniform (correctness),Passed,00:00:00.0692259,84126,2
InverseNormal.HornerSix (correctness),Passed,00:00:00.0679565,221651,2
MassLossProperties.MassLossMonotone (well-formedness),Passed,00:00:00.0675755,78916,2
VelocityProperties.SixteenMillimetreBarCorroded (correctness),Passed,00:00:00.0673597,97987,2
VelocityProperties.MinimumAreaVelocity (well-formedness),Passed,00:00:00.0672027,70599,2
ResidualAreaProperties.AreaRangeChecks (correctness),Passed,00:00:00.0664447,109097,2
CorrosionRate.ValidNamesAreAllowedClasses (correctness),Passed,00:00:00.0661401,343061,2
InverseNormal.InverseCdfSign (correctness),Passed,00:00:00.0639295,76307,2
MassLossProperties.MonotoneFromRoots (well-formedness),Passed,00:00:00.0624967,86082,2
InverseNormal.UpperTailSign (correctness),Passed,00:00:00.0599634,144752,2
InverseNormal.InverseCdfNearOneSigma (correctness),Passed,00:00:00.0596778,201146,2
InverseNormal.CentralSign (well-formedness),Passed,00:00:00.0585152,69944,2
CorrosionRate.VelocityAllDefaults (correctness),Passed,00:00:00.0584289,199460,2
InverseNormal.InverseCdfAtLowBreakPoint (correctness),Passed,00:00:00.0574893,158687,2
ResidualAreaProperties.MassLossMode (well-formedness),Passed,00:00:00.0570169,79955,2
ResidualAreaProperties.VelocityMode (well-formedness),Passed,00:00:00.0562660,79357,2
MassLossProperties.MinimumAreaMassLoss (correctness),Passed,00:00:00.0554038,85990,2
MassLossProperties.MassLossBounded (well-formedness),Passed,00:00:00.0551565,71283,2
ResidualArea.MinimumAreaAfterCorrosion (well-formedness),Passed,00:00:00.0521288,135094,2
CorrosionRate.ShelteredCarbonationLowFractileRejected (correctness),Passed,00:00:00.0517855,157396,2
VelocityProperties.MinimumAreaVelocity (correctness),Passed,00:00:00.0516104,86531,2
InverseNormal.LowerTailSign (correctness),Passed,00:00:00.0462607,106205,2
CorrosionRate.VelocityMirror (well-formedness),Passed,00:00:00.0449166,125374,2
InverseNormal.LowerTailOdd (correctness),Passed,00:00:00.0436912,132764,2
InverseNormal.InverseCdf (well-formedness),Passed,00:00:00.0428639,101637,2
CorrosionRate.VelocityNearOneSigma (well-formedness),Passed,00:00:00.0427777,125957,2
CorrosionRate.VelocityAtMedian (well-formedness),Passed,00:00:00.0403372,123160,2
MassLossProperties.MassLossFromRadii (correctness),Passed,00:00:00.0402664,76791,2
VelocityProperties.VelocityNoCorrosion (correctness),Passed,00:00:00.0389094,111737,2
CorrosionRate.ParseExposureClass (well-formedness),Passed,00:00:00.0382694,159862,2
MassLossProperties.MassLossClosedForm (correctness),Passed,00:00:00.0380592,64095,2
VelocityProperties.BoundedFromRadius (correctness),Passed,00:00:00.0337708,44631,2
VelocityProperties.SixteenMillimetreBarRefused (correctness),Passed,00:00:00.0327794,94195,2
ResidualAreaProperties.Selected (well-formedness),Passed,00:00:00.0314762,30960,2
InverseNormal.CentralSign (correctness),Passed,00:00:00.0310329,90034,2
InverseNormal.CentralOdd (correctness),Passed,00:00:00.0308937,97703,2
InverseNormal.LowerTailSign (well-formedness),Passed,00:00:00.0272491,69986,2
ResidualAreaProperties.BarRadiusRestoresArea (correctness),Passed,00:00:00.0266716,42758,2
MassLossProperties.ResidualScaled (correctness),Passed,00:00:00.0259753,42112,2
CorrosionRate.DefaultExposureClass (well-formedness),Passed,00:00:00.0251229,15021,2
InverseNormal.UpperTailSign (well-formedness),Passed,00:00:00.0246038,69988,2
InverseNormal.InverseCdfAtLowBreakPoint (well-formedness),Passed,00:00:00.0244004,69608,2
InverseNormal.TailRoot (correctness),Passed,00:00:00.0243881,60679,2
MassLossProperties.RootOfRemainder (correctness),Passed,00:00:00.0242791,37256,2
InverseNormal.InverseCdfNearOneSigma (well-formedness),Passed,00:00:00.0229009,69678,2
InverseNormal.InverseCdfSign (well-formedness),Passed,00:00:00.0228869,70026,2
InverseNormal.HornerFive (correctness),Passed,00:00:00.0223135,62079,2
InverseNormal.CentralQuotientSign (correctness),Passed,00:00:00.0206508,55112,2
MassLossProperties.OutcomeBounded (correctness),Passed,00:00:00.0206034,55468,2
ResidualArea.VelocityTimeArea (well-formedness),Passed,00:00:00.0204580,40632,2
VelocityProperties.BoundedFromRadius (well-formedness),Passed,00:00:00.0202970,33672,2
InverseNormal.CentralQuotientSign (well-formedness),Passed,00:00:00.0197583,39121,2
PyMath.Sqrt (well-formedness),Passed,00:00:00.0191935,52228,2
CorrosionRate.ParseCorrosionType (well-formedness),Passed,00:00:00.0190827,64828,2
InverseNormal.DivNegate (correctness),Passed,00:00:00.0179728,33401,2
ResidualAreaProperties.SelectedOrdered (well-formedness),Passed,00:00:00.0176604,33584,2
MassLossProperties.PittedFraction (correctness),Passed,00:00:00.0172180,17331,2
VelocityProperties.SixteenMillimetreBar (correctness),Passed,00:00:00.0171991,32931,2
VelocityProperties.MonotoneFromRadius (well-formedness),Passed,00:00:00.0171832,35094,2
InverseNormal.HornerFour (correctness),Passed,00:00:00.0168757,38859,2
ResidualAreaProperties.SelectedOrdered (correctness),Passed,00:00:00.0168526,35272,2
PyMath.SqrtProduct (correctness),Passed,00:00:00.0154997,40122,2
InverseNormal.Mirrors (well-formedness),Passed,00:00:00.0154779,26072,2
InverseNormal.CentralNumeratorPositive (correctness),Passed,00:00:00.0148194,18003,2
CorrosionRate.Table (well-formedness),Passed,00:00:00.0145339,19707,2
InverseNormal.TailDenominatorPolynomialAtLeastOne (correctness),Passed,00:00:00.0144700,18232,2
PyMath.SqrtMonotone (correctness),Passed,00:00:00.0134567,36470,2
CorrosionRate.ValidNamesAreAllowedClasses (well-formedness),Passed,00:00:00.0133323,39301,2
PyMath.Div (well-formedness),Passed,00:00:00.0131771,28895,2
MassLossProperties.OutcomeBounded (well-formedness),Passed,00:00:00.0128778,11263,2
MassLossProperties.FractionBelowRoot (correctness),Passed,00:00:00.0126530,4988,2
InverseNormal.CentralRange (correctness),Passed,00:00:00.0122625,55446,2
InverseNormal.QuotientOfProductSign (well-formedness),Passed,00:00:00.0122410,27928,2
MassLossProperties.OutcomeUniform (correctness),Passed,00:00:00.0120945,14269,2
InverseNormal.CentralNumeratorPolynomialPositive (correctness),Passed,00:00:00.0119499,15185,2
ResidualAreaProperties.CircleAreaStrict (correctness),Passed,00:00:00.0119019,9554,2
InverseNormal.Horner (well-formedness),Passed,00:00:00.0118184,9803,2
InverseNormal.CentralDenominatorPolynomialPositive (correctness),Passed,00:00:00.0115906,14044,2
PyMath.SqrtUnique (correctness),Passed,00:00:00.0115314,27527,2
InverseNormal.CentralNumeratorPolynomialPositive (well-formedness),Passed,00:00:00.0110754,11236,2
InverseNormal.TailNumeratorNegative (correctness),Passed,00:00:00.0110384,14807,2
MassLossProperties.OutcomeMonotone (correctness),Passed,00:00:00.0108712,21348,2
InverseNormal.QuotientSign (correctness),Passed,00:00:00.0108317,27712,2
InverseNormal.QuotientOfProductSign (correctness),Passed,00:00:00.0108042,28747,2
DesignCode.Resolve (well-formedness),Passed,00:00:00.0104824,10663,2
InverseNormal.TailNumeratorPolynomialNegative (well-formedness),Passed,00:00:00.0103184,10796,2
InverseNormal.CentralDenominatorPolynomialPositive (well-formedness),Passed,00:00:00.0096358,10515,2
InverseNormal.QuotientSign (well-formedness),Passed,00:00:00.0093334,27830,2
ResidualArea.AveragePitDepth (well-formedness),Passed,00:00:00.0092298,4019,2
InverseNormal.TailDenominatorPolynomialAtLeastOne (well-formedness),Passed,00:00:00.0088791,9295,2
MassLossProperties.OutcomeMonotone (well-formedness),Passed,00:00:00.0087250,10495,2
InverseNormal.HornerSix (well-formedness),Passed,00:00:00.0084359,10348,2
MassLossProperties.OutcomeUniform (well-formedness),Passed,00:00:00.0081626,10750,2
InverseNormal.DenominatorFour (correctness),Passed,00:00:00.0081602,10174,2
ResidualAreaProperties.CircleAreaMonotone (correctness),Passed,00:00:00.0079492,5248,2
InverseNormal.DenominatorFour (well-formedness),Passed,00:00:00.0078364,9602,2
PyMath.SquareMonotone (correctness),Passed,00:00:00.0077842,4279,2
Outcomes.Result.PropagateFailure (well-formedness),Passed,00:00:00.0077376,6858,2
InverseNormal.TailNumeratorPolynomialNegative (correctness),Passed,00:00:00.0076280,13829,2
InverseNormal.HornerFive (well-formedness),Passed,00:00:00.0072103,9975,2
InverseNormal.HornerFour (well-formedness),Passed,00:00:00.0069881,9602,2
InverseNormal.DenominatorFive (correctness),Passed,00:00:00.0069517,10454,2
InverseNormal.DenominatorFive (well-formedness),Passed,00:00:00.0069105,9975,2
MassLossProperties.FractionAntitone (correctness),Passed,00:00:00.0069073,4234,2
ResidualArea.SquaredRadius (well-formedness),Passed,00:00:00.0065778,3965,2
PyMath.ProductSign (correctness),Passed,00:00:00.0065021,3301,2
PyMath.NonNegativeProduct (correctness),Passed,00:00:00.0064736,3500,2
PyMath.SquareStrictlyMonotone (correctness),Passed,00:00:00.0059286,5693,2
VelocityProperties.PitWidened (correctness),Passed,00:00:00.0057772,4206,2
ResidualArea.CircleArea (well-formedness),Passed,00:00:00.0057717,5008,2
Outcomes.Result.Extract (well-formedness),Passed,00:00:00.0055571,6804,2
PyMath.ScaleMonotone (correctness),Passed,00:00:00.0050699,4074,2
