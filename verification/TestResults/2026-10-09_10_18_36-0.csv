TestResult.DisplayName,TestResult.Outcome,TestResult.Duration,TestResult.ResourceCount,RandomSeed
InverseNormal.CentralQuotientOdd (correctness),Passed,00:00:01.1638760,353603,1
InverseNormal.CentralDenominatorPositive (correctness),Passed,00:00:00.6999309,125336,1
CorrosionRate.VelocityOrderedByFractile (correctness),Passed,00:00:00.2558350,764451,1
MassLossProperties.MassLossBounded (correctness),Passed,00:00:00.2091648,651151,1
MassLossProperties.MassLossPit (correctness),Passed,00:00:00.1863575,72134,1
MassLossProperties.UniformRadius (correctness),Passed,00:00:00.1780285,83410,1
VelocityProperties.MonotoneFromRadius (correctness),Passed,00:00:00.1699075,394058,1
CorrosionRate.VelocityNearOneSigma (correctness),Passed,00:00:00.1674430,513055,1
MassLossProperties.MonotoneFromRoots (correctness),Passed,00:00:00.1565529,283751,1
CorrosionRate.VelocityMirror (correctness),Passed,00:00:00.1510777,570105,1
MassLossProperties.MassLossNone (correctness),Passed,00:00:00.1487575,202810,1
CorrosionRate.VelocityOfCorrosion (well-formedness),Passed,00:00:00.1308369,186162,1
CorrosionRate.VelocityExposureCheck (correctness),Passed,00:00:00.1296961,299437,1
ResidualAreaProperties.AreaRangeChecks (well-formedness),Passed,00:00:00.1264841,78237,1
ResidualAreaProperties.AreaArgumentCombinations (correctness),Passed,00:00:00.1249049,86826,1
MassLossProperties.MassLossMonotone (correctness),Passed,00:00:00.1212626,187640,1
CorrosionRate.VelocityOrderedByFractile (well-formedness),Passed,00:00:00.1184318,123843,1
MassLossProperties.ResidualScaled (correctness),Passed,00:00:00.1169031,42096,1
CorrosionRate.VelocityRefusedExactlyWhenNonPositive (correctness),Passed,00:00:00.1158068,342253,1
CorrosionRate.VelocityFractileCheck (correctness),Passed,00:00:00.1127677,361782,1
VelocityProperties.VelocityFromRadius (correctness),Passed,00:00:00.1125200,58129,1
MassLossProperties.MassLossMonotone (well-formedness),Passed,00:00:00.1101197,78863,1
MassLossProperties.MassLossNineTenthsDoublePittingRefused (correctness),Passed,00:00:00.1086209,169507,1
MassLossProperties.PittedFraction (correctness),Passed,00:00:00.1076613,17332,1
CorrosionRate.VelocityDefaultExposure (correctness),Passed,00:00:00.1046310,191828,1
CorrosionRate.VelocityAllDefaults (correctness),Passed,00:00:00.0968859,228460,1
VelocityProperties.VelocityFromRadius (well-formedness),Passed,00:00:00.0965141,33742,1
CorrosionRate.VelocityNearOneSigma (well-formedness),Passed,00:00:00.0950378,125932,1
VelocityProperties.MinimumAreaVelocity (correctness),Passed,00:00:00.0917500,86475,1
MassLossProperties.MassLossHalfDoublePitting (correctness),Passed,00:00:00.0913687,142855,1
ResidualArea.MassLossArea (well-formedness),Passed,00:00:00.0912045,63167,1
InverseNormal.TailRoot (well-formedness),Passed,00:00:00.0895221,44079,1
CorrosionRate.VelocityAtMedian (correctness),Passed,00:00:00.0854389,264353,1
VelocityProperties.VelocityMonotoneInTime (well-formedness),Passed,00:00:00.0818078,78728,1
VelocityProperties.MinimumAreaVelocity (well-formedness),Passed,00:00:00.0747028,70571,1
ResidualAreaProperties.SelectedBelow (correctness),Passed,00:00:00.0744647,31593,1
MassLossProperties.MassLossUniform (correctness),Passed,00:00:00.0734765,84093,1
MassLossProperties.MassLossTotal (correctness),Passed,00:00:00.0733196,142429,1
CorrosionRate.ValidNamesAreAllowedClasses (correctness),Passed,00:00:00.0714832,372912,1
ResidualAreaProperties.MassLossMode (correctness),Passed,00:00:00.0696230,115644,1
InverseNormal.InverseCdfTotal (correctness),Passed,00:00:00.0657320,190781,1
CorrosionRate.VelocityRefusedExactlyWhenNonPositive (well-formedness),Passed,00:00:00.0634877,124326,1
InverseNormal.HornerSix (correctness),Passed,00:00:00.0633172,221657,1
InverseNormal.CentralSign (well-formedness),Passed,00:00:00.0631222,69900,1
InverseNormal.InverseCdfSign (correctness),Passed,00:00:00.0612841,76263,1
ResidualAreaProperties.VelocityMode (correctness),Passed,00:00:00.0607426,99660,1
ResidualAreaProperties.MassLossMode (well-formedness),Passed,00:00:00.0601239,79753,1
InverseNormal.InverseCdfOdd (correctness),Passed,00:00:00.0596860,136540,1
InverseNormal.InverseCdfNearOneSigma (correctness),Passed,00:00:00.0595992,177351,1
InverseNormal.TailDenominatorAtLeastOne (correctness),Passed,00:00:00.0586239,54630,1
InverseNormal.LowerTailOdd (correctness),Passed,00:00:00.0581732,138935,1
InverseNormal.UpperTailSign (correctness),Passed,00:00:00.0572925,143437,1
VelocityProperties.SixteenMillimetreBarCorroded (correctness),Passed,00:00:00.0571405,97939,1
ResidualAreaProperties.AreaRangeChecks (correctness),Passed,00:00:00.0568990,106980,1
CorrosionRate.ShelteredCarbonationLowFractileRejected (correctness),Passed,00:00:00.0566009,170058,1
InverseNormal.InverseCdfAtLowBreakPoint (correctness),Passed,00:00:00.0560191,167104,1
MassLossProperties.MonotoneFromRoots (well-formedness),Passed,00:00:00.0558129,86037,1
ResidualAreaProperties.VelocityMode (well-formedness),Passed,00:00:00.0536009,79503,1
CorrosionRate.ParseExposureClass (well-formedness),Passed,00:00:00.0526407,169661,1
MassLossProperties.MassLossBounded (well-formedness),Passed,00:00:00.0523390,71271,1
MassLossProperties.MinimumAreaMassLoss (correctness),Passed,00:00:00.0508868,85971,1
ResidualArea.MinimumAreaAfterCorrosion (well-formedness),Passed,00:00:00.0508552,136419,1
CorrosionRate.VelocityMirror (well-formedness),Passed,00:00:00.0471935,125349,1
VelocityProperties.VelocityBounded (correctness),Passed,00:00:00.0454813,97261,1
InverseNormal.LowerTailSign (correctness),Passed,00:00:00.0449417,107963,1
VelocityProperties.VelocityMonotoneInTime (correctness),Passed,00:00:00.0446422,104639,1
CorrosionRate.VelocityAtMedian (well-formedness),Passed,00:00:00.0440434,123135,1
VelocityProperties.VelocityNoCorrosion (correctness),Passed,00:00:00.0440397,112144,1
InverseNormal.CentralOdd (correctness),Passed,00:00:00.0438937,103530,1
VelocityProperties.SixteenMillimetreBarRefused (correctness),Passed,00:00:00.0426149,94182,1
MassLossProperties.MassLossClosedForm (correctness),Passed,00:00:00.0400522,64106,1
InverseNormal.InverseCdf (well-formedness),Passed,00:00:00.0384342,101468,1
InverseNormal.InverseCdfSign (well-formedness),Passed,00:00:00.0347901,69982,1
MassLossProperties.MassLossFromRadii (correctness),Passed,00:00:00.0343371,73545,1
VelocityProperties.VelocityBounded (well-formedness),Passed,00:00:00.0339095,77577,1
VelocityProperties.SixteenMillimetreBar (correctness),Passed,00:00:00.0334242,32892,1
InverseNormal.CentralSign (correctness),Passed,00:00:00.0307127,87946,1
InverseNormal.LowerTailSign (well-formedness),Passed,00:00:00.0286770,69942,1
InverseNormal.TailRoot (correctness),Passed,00:00:00.0286442,60664,1
InverseNormal.CentralQuotientSign (correctness),Passed,00:00:00.0278083,55818,1
InverseNormal.UpperTailSign (well-formedness),Passed,00:00:00.0273181,69944,1
InverseNormal.InverseCdfNearOneSigma (well-formedness),Passed,00:00:00.0263410,69634,1
InverseNormal.InverseCdfAtLowBreakPoint (well-formedness),Passed,00:00:00.0263396,69564,1
ResidualAreaProperties.BarRadiusRestoresArea (correctness),Passed,00:00:00.0259878,42776,1
VelocityProperties.MonotoneFromRadius (well-formedness),Passed,00:00:00.0256901,35085,1
InverseNormal.QuotientSign (correctness),Passed,00:00:00.0243684,27805,1
ResidualAreaProperties.SelectedOrdered (well-formedness),Passed,00:00:00.0238976,33598,1
PyMath.Sqrt (well-formedness),Passed,00:00:00.0236327,52219,1
CorrosionRate.ParseCorrosionType (well-formedness),Passed,00:00:00.0235575,64830,1
InverseNormal.DivNegate (correctness),Passed,00:00:00.0223602,33520,1
ResidualAreaProperties.SelectedBelow (well-formedness),Passed,00:00:00.0220994,31007,1
VelocityProperties.BoundedFromRadius (well-formedness),Passed,00:00:00.0217195,33663,1
ResidualAreaProperties.Selected (well-formedness),Passed,00:00:00.0214074,30954,1
VelocityProperties.BoundedFromRadius (correctness),Passed,00:00:00.0206612,46012,1
ResidualAreaProperties.SelectedOrdered (correctness),Passed,00:00:00.0204393,35288,1
ResidualArea.VelocityTimeArea (well-formedness),Passed,00:00:00.0203405,40625,1
MassLossProperties.RootOfRemainder (correctness),Passed,00:00:00.0197620,37241,1
InverseNormal.CentralQuotientSign (well-formedness),Passed,00:00:00.0197149,39119,1
ResidualArea.Residual (well-formedness),Passed,00:00:00.0184148,31799,1
InverseNormal.HornerFour (correctness),Passed,00:00:00.0182865,37478,1
PyMath.SqrtMonotone (correctness),Passed,00:00:00.0174691,36655,1
PyMath.Div (well-formedness),Passed,00:00:00.0165429,28904,1
InverseNormal.HornerFive (correctness),Passed,00:00:00.0164363,62057,1
PyMath.SqrtProduct (correctness),Passed,00:00:00.0160956,40111,1
ResidualArea.AveragePitDepth (well-formedness),Passed,00:00:00.0152882,4020,1
MassLossProperties.OutcomeUniform (correctness),Passed,00:00:00.0145154,14324,1
MassLossProperties.OutcomeMonotone (well-formedness),Passed,00:00:00.0143268,10492,1
InverseNormal.QuotientOfProductSign (correctness),Passed,00:00:00.0138982,28766,1
CorrosionRate.ValidNamesAreAllowedClasses (well-formedness),Passed,00:00:00.0138899,39273,1
MassLossProperties.OutcomeBounded (correctness),Passed,00:00:00.0137152,48374,1
InverseNormal.CentralRange (correctness),Passed,00:00:00.0128569,52857,1
PyMath.SqrtUnique (correctness),Passed,00:00:00.0114159,27526,1
InverseNormal.Horner (well-formedness),Passed,00:00:00.0114057,9803,1
InverseNormal.CentralNumeratorPositive (correctness),Passed,00:00:00.0113874,18111,1
InverseNormal.TailDenominatorPolynomialAtLeastOne (correctness),Passed,00:00:00.0113174,18228,1
InverseNormal.QuotientSign (well-formedness),Passed,00:00:00.0109524,27825,1
InverseNormal.Mirrors (well-formedness),Passed,00:00:00.0107680,26076,1
InverseNormal.TailNumeratorPolynomialNegative (correctness),Passed,00:00:00.0102862,13816,1
InverseNormal.QuotientOfProductSign (well-formedness),Passed,00:00:00.0098716,27923,1
CorrosionRate.Table (well-formedness),Passed,00:00:00.0097552,19709,1
MassLossProperties.OutcomeMonotone (correctness),Passed,00:00:00.0095912,16664,1
MassLossProperties.OutcomeBounded (well-formedness),Passed,00:00:00.0095656,11267,1
DesignCode.Resolve (well-formedness),Passed,00:00:00.0094487,10662,1
InverseNormal.TailNumeratorNegative (correctness),Passed,00:00:00.0094042,14735,1
MassLossProperties.FractionBelowRoot (correctness),Passed,00:00:00.0094022,4990,1
InverseNormal.CentralNumeratorPolynomialPositive (correctness),Passed,00:00:00.0093088,15714,1
InverseNormal.TailNumeratorPolynomialNegative (well-formedness),Passed,00:00:00.0092387,10796,1
InverseNormal.CentralDenominatorPolynomialPositive (correctness),Passed,00:00:00.0085589,13933,1
MassLossProperties.OutcomeUniform (well-formedness),Passed,00:00:00.0085348,10754,1
Outcomes.Result.PropagateFailure (well-formedness),Passed,00:00:00.0085216,6856,1
InverseNormal.TailDenominatorPolynomialAtLeastOne (well-formedness),Passed,00:00:00.0084506,9295,1
InverseNormal.HornerFour (well-formedness),Passed,00:00:00.0081648,9608,1
Outcomes.Result.Extract (well-formedness),Passed,00:00:00.0081392,6802,1
CorrosionRate.DefaultExposureClass (well-formedness),Passed,00:00:00.0080708,15047,1
InverseNormal.HornerFive (well-formedness),Passed,00:00:00.0080620,9981,1
InverseNormal.CentralNumeratorPolynomialPositive (well-formedness),Passed,00:00:00.0077704,11237,1
ResidualArea.CircleArea (well-formedness),Passed,00:00:00.0076196,5008,1
InverseNormal.DenominatorFour (well-formedness),Passed,00:00:00.0076092,9608,1
InverseNormal.DenominatorFour (correctness),Passed,00:00:00.0073166,10174,1
ResidualAreaProperties.CircleAreaStrict (correctness),Passed,00:00:00.0072848,9716,1
InverseNormal.CentralDenominatorPolynomialPositive (well-formedness),Passed,00:00:00.0071641,10517,1
VelocityProperties.PitWidened (correctness),Passed,00:00:00.0070813,4207,1
InverseNormal.DenominatorFive (well-formedness),Passed,00:00:00.0070706,9981,1
PyMath.SquareStrictlyMonotone (correctness),Passed,00:00:00.0069596,5693,1
PyMath.SquareMonotone (correctness),Passed,00:00:00.0069276,4279,1
InverseNormal.HornerSix (well-formedness),Passed,00:00:00.0066824,10352,1
PyMath.NonNegativeProduct (correctness),Passed,00:00:00.0061589,3500,1
InverseNormal.DenominatorFive (correctness),Passed,00:00:00.0060779,10456,1
PyMath.ProductSign (correctness),Passed,00:00:00.0059994,3301,1
MassLossProperties.FractionAntitone (correctness),Passed,00:00:00.0059161,4250,1
ResidualAreaProperties.CircleAreaMonotone (correctness),Passed,00:00:00.0059096,5247,1
ResidualArea.SquaredRadius (well-formedness),Passed,00:00:00.0058208,3965,1
PyMath.ScaleMonotone (correctness),Passed,00:00:00.0052695,4074,1
