TestResult.DisplayName,TestResult.Outcome,TestResult.Duration,TestResult.ResourceCount,RandomSeed
InverseNormal.CentralQuotientOdd (correctness),Passed,00:00:01.1495642,350593,3
InverseNormal.CentralDenominatorPositive (correctness),Passed,00:00:00.4612212,121331,3
MassLossProperties.MassLossBounded (correctness),Passed,00:00:00.2559440,638063,3
CorrosionRate.VelocityMirror (correctness),Passed,00:00:00.2449031,524217,3
CorrosionRate.VelocityOrderedByFractile (correctness),Passed,00:00:00.2349814,714194,3
CorrosionRate.VelocityRefusedExactlyWhenNonPositive (correctness),Passed,00:00:00.1753690,378924,3
MassLossProperties.MassLossTotal (correctness),Passed,00:00:00.1661486,154348,3
MassLossProperties.MassLossMonotone (correctness),Passed,00:00:00.1632153,197511,3
MassLossProperties.MonotoneFromRoots (correctness),Passed,00:00:00.1464928,284518,3
CorrosionRate.VelocityFractileCheck (correctness),Passed,00:00:00.1446831,371313,3
VelocityProperties.MonotoneFromRadius (correctness),Passed,00:00:00.1437838,387590,3
ResidualAreaProperties.MassLossMode (correctness),Passed,00:00:00.1343678,113822,3
CorrosionRate.VelocityAllDefaults (correctness),Passed,00:00:00.1315969,199106,3
ResidualAreaProperties.VelocityMode (well-formedness),Passed,00:00:00.1314337,79355,3
CorrosionRate.VelocityNearOneSigma (correctness),Passed,00:00:00.1283295,520866,3
MassLossProperties.MassLossHalfDoublePitting (correctness),Passed,00:00:00.1247602,135827,3
MassLossProperties.MassLossBounded (well-formedness),Passed,00:00:00.1245753,71283,3
CorrosionRate.ParseExposureClass (well-formedness),Passed,00:00:00.1236888,159449,3
VelocityProperties.VelocityBounded (correctness),Passed,00:00:00.1189746,98329,3
MassLossProperties.MassLossUniform (correctness),Passed,00:00:00.1153128,83972,3
MassLossProperties.UniformRadius (correctness),Passed,00:00:00.1091664,83410,3
InverseNormal.HornerSix (correctness),Passed,00:00:00.1084980,221668,3
CorrosionRate.VelocityAtMedian (well-formedness),Passed,00:00:00.1014706,123078,3
CorrosionRate.ValidNamesAreAllowedClasses (well-formedness),Passed,00:00:00.0995872,39305,3
CorrosionRate.VelocityExposureCheck (correctness),Passed,00:00:00.0992959,382372,3
MassLossProperties.MassLossNone (correctness),Passed,00:00:00.0955175,151029,3
MassLossProperties.MassLossPit (correctness),Passed,00:00:00.0944907,70417,3
CorrosionRate.VelocityAtMedian (correctness),Passed,00:00:00.0907121,300846,3
InverseNormal.CentralOdd (correctness),Passed,00:00:00.0788190,104771,3
MassLossProperties.MassLossNineTenthsDoublePittingRefused (correctness),Passed,00:00:00.0779897,184297,3
MassLossProperties.MassLossMonotone (well-formedness),Passed,00:00:00.0766258,78892,3
InverseNormal.InverseCdfNearOneSigma (correctness),Passed,00:00:00.0740344,195420,3
VelocityProperties.SixteenMillimetreBarRefused (correctness),Passed,00:00:00.0706713,94252,3
CorrosionRate.VelocityOfCorrosion (well-formedness),Passed,00:00:00.0694292,186125,3
ResidualAreaProperties.AreaRangeChecks (correctness),Passed,00:00:00.0694136,109241,3
ResidualArea.MinimumAreaAfterCorrosion (well-formedness),Passed,00:00:00.0692407,136248,3
CorrosionRate.VelocityDefaultExposure (correctness),Passed,00:00:00.0683849,199867,3
InverseNormal.InverseCdfAtLowBreakPoint (correctness),Passed,00:00:00.0640398,179254,3
InverseNormal.DenominatorFive (well-formedness),Passed,00:00:00.0638152,9979,3
InverseNormal.LowerTailOdd (correctness),Passed,00:00:00.0636232,131656,3
ResidualAreaProperties.VelocityMode (correctness),Passed,00:00:00.0621202,95917,3
MassLossProperties.MonotoneFromRoots (well-formedness),Passed,00:00:00.0617864,86068,3
CorrosionRate.ValidNamesAreAllowedClasses (correctness),Passed,00:00:00.0599358,270038,3
InverseNormal.InverseCdfTotal (correctness),Passed,00:00:00.0591051,186456,3
InverseNormal.InverseCdfOdd (correctness),Passed,00:00:00.0582006,129774,3
ResidualAreaProperties.AreaArgumentCombinations (correctness),Passed,00:00:00.0570841,85518,3
CorrosionRate.VelocityOrderedByFractile (well-formedness),Passed,00:00:00.0557618,123786,3
CorrosionRate.ShelteredCarbonationLowFractileRejected (correctness),Passed,00:00:00.0555691,156619,3
VelocityProperties.VelocityMonotoneInTime (correctness),Passed,00:00:00.0545941,116697,3
MassLossProperties.MassLossFromRadii (correctness),Passed,00:00:00.0545036,81347,3
InverseNormal.UpperTailSign (correctness),Passed,00:00:00.0527579,141834,3
ResidualAreaProperties.MassLossMode (well-formedness),Passed,00:00:00.0498338,79708,3
VelocityProperties.VelocityNoCorrosion (correctness),Passed,00:00:00.0494666,113367,3
ResidualAreaProperties.AreaRangeChecks (well-formedness),Passed,00:00:00.0494463,78258,3
CorrosionRate.VelocityRefusedExactlyWhenNonPositive (well-formedness),Passed,00:00:00.0487403,124269,3
MassLossProperties.MassLossClosedForm (correctness),Passed,00:00:00.0462429,64081,3
MassLossProperties.MinimumAreaMassLoss (correctness),Passed,00:00:00.0454621,86008,3
InverseNormal.InverseCdf (well-formedness),Passed,00:00:00.0452449,101522,3
VelocityProperties.VelocityFromRadius (correctness),Passed,00:00:00.0445482,58152,3
CorrosionRate.VelocityMirror (well-formedness),Passed,00:00:00.0420448,125301,3
InverseNormal.LowerTailSign (correctness),Passed,00:00:00.0403826,106589,3
CorrosionRate.VelocityNearOneSigma (well-formedness),Passed,00:00:00.0402056,125875,3
VelocityProperties.MinimumAreaVelocity (well-formedness),Passed,00:00:00.0398312,70614,3
VelocityProperties.VelocityMonotoneInTime (well-formedness),Passed,00:00:00.0389144,78720,3
VelocityProperties.VelocityBounded (well-formedness),Passed,00:00:00.0380820,77714,3
VelocityProperties.SixteenMillimetreBarCorroded (correctness),Passed,00:00:00.0376878,97980,3
VelocityProperties.MinimumAreaVelocity (correctness),Passed,00:00:00.0359686,86703,3
InverseNormal.HornerFour (correctness),Passed,00:00:00.0353810,39644,3
InverseNormal.CentralSign (correctness),Passed,00:00:00.0343947,90208,3
ResidualArea.MassLossArea (well-formedness),Passed,00:00:00.0337945,63200,3
ResidualArea.Residual (well-formedness),Passed,00:00:00.0333323,31793,3
InverseNormal.InverseCdfAtLowBreakPoint (well-formedness),Passed,00:00:00.0322915,69585,3
PyMath.Sqrt (well-formedness),Passed,00:00:00.0320864,52211,3
VelocityProperties.VelocityFromRadius (well-formedness),Passed,00:00:00.0318855,33757,3
MassLossProperties.ResidualScaled (correctness),Passed,00:00:00.0292707,42144,3
InverseNormal.InverseCdfNearOneSigma (well-formedness),Passed,00:00:00.0281285,69655,3
InverseNormal.LowerTailSign (well-formedness),Passed,00:00:00.0280532,69963,3
CorrosionRate.ParseCorrosionType (well-formedness),Passed,00:00:00.0280250,64847,3
InverseNormal.InverseCdfSign (well-formedness),Passed,00:00:00.0278236,70003,3
InverseNormal.InverseCdfSign (correctness),Passed,00:00:00.0277857,76284,3
VelocityProperties.BoundedFromRadius (correctness),Passed,00:00:00.0276821,46129,3
InverseNormal.HornerFive (correctness),Passed,00:00:00.0274252,62094,3
InverseNormal.TailRoot (correctness),Passed,00:00:00.0258551,61121,3
ResidualAreaProperties.SelectedBelow (well-formedness),Passed,00:00:00.0248572,31003,3
PyMath.SqrtProduct (correctness),Passed,00:00:00.0247398,39767,3
InverseNormal.CentralSign (well-formedness),Passed,00:00:00.0242602,69921,3
ResidualAreaProperties.BarRadiusRestoresArea (correctness),Passed,00:00:00.0238380,42689,3
MassLossProperties.OutcomeBounded (correctness),Passed,00:00:00.0237929,57516,3
InverseNormal.UpperTailSign (well-formedness),Passed,00:00:00.0235541,69965,3
MassLossProperties.OutcomeBounded (well-formedness),Passed,00:00:00.0229591,11261,3
ResidualArea.AveragePitDepth (well-formedness),Passed,00:00:00.0218787,4020,3
InverseNormal.DivNegate (correctness),Passed,00:00:00.0214400,33385,3
InverseNormal.TailDenominatorAtLeastOne (correctness),Passed,00:00:00.0200540,18364,3
MassLossProperties.RootOfRemainder (correctness),Passed,00:00:00.0198004,37255,3
InverseNormal.CentralQuotientSign (correctness),Passed,00:00:00.0196829,53632,3
ResidualAreaProperties.SelectedOrdered (well-formedness),Passed,00:00:00.0195428,33593,3
ResidualAreaProperties.SelectedOrdered (correctness),Passed,00:00:00.0187884,35298,3
VelocityProperties.BoundedFromRadius (well-formedness),Passed,00:00:00.0185466,33678,3
InverseNormal.TailRoot (well-formedness),Passed,00:00:00.0185400,44092,3
InverseNormal.DenominatorFive (correctness),Passed,00:00:00.0159709,10453,3
ResidualAreaProperties.SelectedBelow (correctness),Passed,00:00:00.0159547,31588,3
ResidualArea.VelocityTimeArea (well-formedness),Passed,00:00:00.0159486,40601,3
MassLossProperties.PittedFraction (correctness),Passed,00:00:00.0156528,17321,3
VelocityProperties.MonotoneFromRadius (well-formedness),Passed,00:00:00.0156232,35100,3
InverseNormal.QuotientSign (correctness),Passed,00:00:00.0155588,27799,3
InverseNormal.QuotientOfProductSign (well-formedness),Passed,00:00:00.0154475,27928,3
PyMath.SqrtMonotone (correctness),Passed,00:00:00.0153979,35474,3
VelocityProperties.SixteenMillimetreBar (correctness),Passed,00:00:00.0153251,32902,3
InverseNormal.CentralQuotientSign (well-formedness),Passed,00:00:00.0150552,39122,3
InverseNormal.QuotientSign (well-formedness),Passed,00:00:00.0147703,27830,3
CorrosionRate.Table (well-formedness),Passed,00:00:00.0147215,19729,3
ResidualAreaProperties.Selected (well-formedness),Passed,00:00:00.0146095,30965,3
PyMath.Div (well-formedness),Passed,00:00:00.0145398,28850,3
InverseNormal.CentralRange (correctness),Passed,00:00:00.0144207,52885,3
ResidualAreaProperties.CircleAreaStrict (correctness),Passed,00:00:00.0141768,9549,3
InverseNormal.TailNumeratorNegative (correctness),Passed,00:00:00.0134771,17576,3
InverseNormal.CentralNumeratorPositive (correctness),Passed,00:00:00.0130091,15161,3
InverseNormal.Mirrors (well-formedness),Passed,00:00:00.0126142,26071,3
InverseNormal.HornerFive (well-formedness),Passed,00:00:00.0125074,9979,3
InverseNormal.HornerSix (well-formedness),Passed,00:00:00.0122511,10352,3
PyMath.SqrtUnique (correctness),Passed,00:00:00.0122202,27189,3
MassLossProperties.OutcomeUniform (correctness),Passed,00:00:00.0121077,14400,3
MassLossProperties.OutcomeMonotone (correctness),Passed,00:00:00.0121034,17687,3
InverseNormal.TailNumeratorPolynomialNegative (correctness),Passed,00:00:00.0113791,13819,3
InverseNormal.DenominatorFour (correctness),Passed,00:00:00.0113637,10173,3
InverseNormal.CentralNumeratorPolynomialPositive (correctness),Passed,00:00:00.0113087,15231,3
InverseNormal.CentralNumeratorPolynomialPositive (well-formedness),Passed,00:00:00.0111408,11241,3
CorrosionRate.DefaultExposureClass (well-formedness),Passed,00:00:00.0109895,15033,3
InverseNormal.QuotientOfProductSign (correctness),Passed,00:00:00.0107854,28752,3
MassLossProperties.OutcomeMonotone (well-formedness),Passed,00:00:00.0104731,10497,3
InverseNormal.TailDenominatorPolynomialAtLeastOne (well-formedness),Passed,00:00:00.0100999,9293,3
InverseNormal.TailDenominatorPolynomialAtLeastOne (correctness),Passed,00:00:00.0096612,18234,3
DesignCode.Resolve (well-formedness),Passed,00:00:00.0091941,10666,3
MassLossProperties.OutcomeUniform (well-formedness),Passed,00:00:00.0088172,10748,3
InverseNormal.CentralDenominatorPolynomialPositive (correctness),Passed,00:00:00.0088143,16606,3
InverseNormal.TailNumeratorPolynomialNegative (well-formedness),Passed,00:00:00.0087229,10796,3
PyMath.SquareMonotone (correctness),Passed,00:00:00.0084900,4285,3
InverseNormal.DenominatorFour (well-formedness),Passed,00:00:00.0082978,9606,3
InverseNormal.Horner (well-formedness),Passed,00:00:00.0082957,9804,3
ResidualArea.SquaredRadius (well-formedness),Passed,00:00:00.0080762,3967,3
PyMath.SquareStrictlyMonotone (correctness),Passed,00:00:00.0080529,5689,3
MassLossProperties.FractionBelowRoot (correctness),Passed,00:00:00.0080104,4989,3
ResidualArea.CircleArea (well-formedness),Passed,00:00:00.0079723,5007,3
InverseNormal.HornerFour (well-formedness),Passed,00:00:00.0079169,9606,3
VelocityProperties.PitWidened (correctness),Passed,00:00:00.0077105,4207,3
PyMath.ScaleMonotone (correctness),Passed,00:00:00.0075718,4074,3
MassLossProperties.FractionAntitone (correctness),Passed,00:00:00.0075166,4234,3
InverseNormal.CentralDenominatorPolynomialPositive (well-formedness),Passed,00:00:00.0073369,10515,3
PyMath.ProductSign (correctness),Passed,00:00:00.0068845,3302,3
Outcomes.Result.PropagateFailure (well-formedness),Passed,00:00:00.0067332,6856,3
PyMath.NonNegativeProduct (correctness),Passed,00:00:00.0066043,3500,3
Outcomes.Result.Extract (well-formedness),Passed,00:00:00.0064460,6802,3
ResidualAreaProperties.CircleAreaMonotone (correctness),Passed,00:00:00.0063766,5247,3
