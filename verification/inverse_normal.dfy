/** Acklam's rational approximation of the inverse standard normal CDF, the
    helper `inverse_normal_cdf` nested in `calculate_velocity_of_corrosion`.

    A probability `p` in (0, 1) falls in the lower tail (`p < PLow`), the
    upper tail (`p > PHigh`) or the central region. The central region is a
    rational function of `p - 0.5` and is modelled exactly; the tails go
    through `math.log` and `math.sqrt`, which a `MathLib` supplies. */
module InverseNormal {
  import opened Outcomes
  import opened PyMath

  /** Central region, numerator coefficients (the list `a`). */
  const A: seq<real> := [
    -39.69683028665376, 220.9460984245205, -275.9285104469687,
    138.3577518672690, -30.66479806614716, 2.506628277459239]

  /** Central region, denominator coefficients (the list `b`); the
      denominator's constant term is 1. */
  const B: seq<real> := [
    -54.47609879822406, 161.5858368580409, -155.6989798598866,
    66.80131188771972, -13.28068155288572]

  /** Tails, numerator coefficients (the list `c`). */
  const C: seq<real> := [
    -0.007784894002430293, -0.3223964580411365, -2.400758277161838,
    -2.549732539343734, 4.374664141464968, 2.938163982698783]

  /** Tails, denominator coefficients (the list `d`); the denominator's
      constant term is 1. */
  const D: seq<real> := [
    0.007784695709041462, 0.3224671290700398, 2.445134137142996,
    3.754408661907416]

  /** The break-points between the tails and the central region. */
  const PLow: real := 0.02425
  const PHigh: real := 1.0 - PLow

  /** The largest `r = (p - 0.5)^2` the central region evaluates. */
  const CentralReach: real := (0.5 - PLow) * (0.5 - PLow)

  /** Horner evaluation `(...((cs[0] * x + cs[1]) * x + cs[2]) ...) * x + cs[n-1]`,
      the nesting the approximation writes out for each coefficient list. */
  function Horner(cs: seq<real>, x: real): real
    decreases |cs|
  {
    if |cs| == 0 then 0.0 else Horner(cs[..|cs| - 1], x) * x + cs[|cs| - 1]
  }

  function CentralNumerator(r: real): real {
    Horner(A, r)
  }

  function CentralDenominator(r: real): real {
    Horner(B, r) * r + 1.0
  }

  function TailNumerator(q: real): real {
    Horner(C, q)
  }

  function TailDenominator(q: real): real {
    Horner(D, q) * q + 1.0
  }

  /** `inverse_normal_cdf(p)`: the standard normal quantile of `p`. */
  function InverseCdf(m: MathLib, p: real): (z: Result<real>)
    ensures z == Err(ProbabilityOutOfRange) <==> p <= 0.0 || p >= 1.0
    ensures z.Err? ==> z.error in {ProbabilityOutOfRange, MathDomainError, ZeroDivision}
    ensures p == 0.5 ==> z == Ok(0.0)
  {
    if p <= 0.0 || p >= 1.0 then
      Err(ProbabilityOutOfRange)
    else if p < PLow then
      var q :- Sqrt(m, -2.0 * m.log(p));
      Div(TailNumerator(q), TailDenominator(q))
    else if p > PHigh then
      var q :- Sqrt(m, -2.0 * m.log(1.0 - p));
      Div(-TailNumerator(q), TailDenominator(q))
    else
      CentralQuotient(p - 0.5)
  }

  /** The central formula at `q = p - 0.5`, with `r = q * q`. */
  function CentralQuotient(q: real): Result<real> {
    var r := q * q;
    Div(CentralNumerator(r) * q, CentralDenominator(r))
  }

  /** Horner evaluation of four coefficients, written out. */
  lemma HornerFour(cs: seq<real>, x: real)
    requires |cs| == 4
    ensures Horner(cs, x) == ((cs[0] * x + cs[1]) * x + cs[2]) * x + cs[3]
  {
    var c1, c2, c3 := cs[..1], cs[..2], cs[..3];
    assert c1[..0] == [];
    assert Horner(c1, x) == cs[0];
    assert c2[..1] == c1;
    assert Horner(c2, x) == cs[0] * x + cs[1];
    assert c3[..2] == c2;
    assert Horner(c3, x) == (cs[0] * x + cs[1]) * x + cs[2];
  }

  /** Horner evaluation of five coefficients, written out. */
  lemma HornerFive(cs: seq<real>, x: real)
    requires |cs| == 5
    ensures Horner(cs, x) == (((cs[0] * x + cs[1]) * x + cs[2]) * x + cs[3]) * x + cs[4]
  {
    HornerFour(cs[..4], x);
  }

  /** Horner evaluation of six coefficients, written out. */
  lemma HornerSix(cs: seq<real>, x: real)
    requires |cs| == 6
    ensures Horner(cs, x) == ((((cs[0] * x + cs[1]) * x + cs[2]) * x + cs[3]) * x + cs[4]) * x + cs[5]
  {
    HornerFive(cs[..5], x);
  }

  /** A denominator `Horner(cs, x) * x + 1` of four coefficients, written out. */
  lemma DenominatorFour(cs: seq<real>, x: real)
    requires |cs| == 4
    ensures Horner(cs, x) * x + 1.0 == (((cs[0] * x + cs[1]) * x + cs[2]) * x + cs[3]) * x + 1.0
  {
    HornerFour(cs, x);
  }

  /** A denominator `Horner(cs, x) * x + 1` of five coefficients, written out. */
  lemma DenominatorFive(cs: seq<real>, x: real)
    requires |cs| == 5
    ensures Horner(cs, x) * x + 1.0 == ((((cs[0] * x + cs[1]) * x + cs[2]) * x + cs[3]) * x + cs[4]) * x + 1.0
  {
    HornerFive(cs, x);
  }

  /** The central denominator never vanishes where it is evaluated. */
  lemma CentralDenominatorPositive(r: real)
    requires 0.0 <= r <= CentralReach
    ensures CentralDenominator(r) > 0.0
  {
    DenominatorFive(B, r);
    CentralDenominatorPolynomialPositive(r);
  }

  /** The written-out central denominator is positive on the central range. */
  lemma CentralDenominatorPolynomialPositive(r: real)
    requires 0.0 <= r <= CentralReach
    ensures ((((B[0] * r + B[1]) * r + B[2]) * r + B[3]) * r + B[4]) * r + 1.0 > 0.0
  {
  }

  /** The central numerator is positive where it is evaluated, so the
      central quotient has the sign of `p - 0.5`. */
  lemma CentralNumeratorPositive(r: real)
    requires 0.0 <= r <= CentralReach
    ensures CentralNumerator(r) > 0.0
  {
    HornerSix(A, r);
    CentralNumeratorPolynomialPositive(r);
  }

  /** The written-out central numerator is positive on the central range. */
  lemma CentralNumeratorPolynomialPositive(r: real)
    requires 0.0 <= r <= CentralReach
    ensures ((((A[0] * r + A[1]) * r + A[2]) * r + A[3]) * r + A[4]) * r + A[5] > 0.0
  {
  }

  /** For a non-negative `q` every term of the tail denominator is
      non-negative, so it is at least 1. */
  lemma TailDenominatorAtLeastOne(q: real)
    requires 0.0 <= q
    ensures TailDenominator(q) >= 1.0
  {
    DenominatorFour(D, q);
    TailDenominatorPolynomialAtLeastOne(q);
  }

  /** The written-out tail denominator is at least 1 for a non-negative `q`. */
  lemma TailDenominatorPolynomialAtLeastOne(q: real)
    requires 0.0 <= q
    ensures (((D[0] * q + D[1]) * q + D[2]) * q + D[3]) * q + 1.0 >= 1.0
  {
    var t1 := D[0] * q + D[1];
    assert t1 >= 0.0;
    var t2 := t1 * q + D[2];
    assert t1 * q >= 0.0;
    var t3 := t2 * q + D[3];
    assert t2 * q >= 0.0;
    assert t3 * q >= 0.0;
  }

  /** In the tails `q = sqrt(-2 ln p)` is at least 1.39, where the tail
      numerator is already negative. */
  lemma TailNumeratorNegative(q: real)
    requires 1.39 <= q
    ensures TailNumerator(q) < 0.0
  {
    HornerSix(C, q);
    TailNumeratorPolynomialNegative(q);
  }

  /** The written-out tail numerator is negative from `q = 1.39` on. */
  lemma TailNumeratorPolynomialNegative(q: real)
    requires 1.39 <= q
    ensures ((((C[0] * q + C[1]) * q + C[2]) * q + C[3]) * q + C[4]) * q + C[5] < 0.0
  {
  }

  /** The `q` of either tail: `sqrt(-2 ln x)` for `0 < x < PLow`. It exists,
      and it is at least 1.39 because `ln x <= x - 1 < -0.97`. */
  lemma TailRoot(m: MathLib, x: real)
    requires Sound(m)
    requires 0.0 < x < PLow
    ensures Sqrt(m, -2.0 * m.log(x)).Ok?
    ensures 1.39 <= Sqrt(m, -2.0 * m.log(x)).value
  {
    var l := m.log(x);
    assert l <= x - 1.0;
    var q := m.sqrt(-2.0 * l);
    assert 0.0 <= q && q * q == -2.0 * l;
    if q < 1.39 {
      SquareStrictlyMonotone(q, 1.39);
    }
  }

  /** With a sound math library the approximation is defined on the whole
      open interval: no domain error and no division by zero. */
  lemma {:induction false} InverseCdfTotal(m: MathLib, p: real)
    requires Sound(m)
    requires 0.0 < p < 1.0
    ensures InverseCdf(m, p).Ok?
  {
    if p < PLow {
      TailRoot(m, p);
      TailDenominatorAtLeastOne(Sqrt(m, -2.0 * m.log(p)).value);
    } else if p > PHigh {
      TailRoot(m, 1.0 - p);
      TailDenominatorAtLeastOne(Sqrt(m, -2.0 * m.log(1.0 - p)).value);
    } else {
      CentralRange(p);
      CentralQuotientSign(p - 0.5);
    }
  }

  /** `a` is `b` negated: both succeed with opposite values, or both fail
      with the same error. */
  predicate Mirrors(a: Result<real>, b: Result<real>) {
    && (a.Ok? <==> b.Ok?)
    && (a.Ok? ==> a.value == -b.value)
    && (a.Err? ==> a.error == b.error)
  }

  /** Negating the dividend negates the quotient and keeps a failure. */
  lemma DivNegate(x: real, y: real)
    ensures Mirrors(Div(-x, y), Div(x, y))
  {
  }

  /** The approximation is odd about one half: `z(1 - p) == -z(p)`, failures
      included, because the upper tail mirrors the lower one and the central
      quotient is odd in `p - 0.5`. */
  lemma {:induction false} InverseCdfOdd(m: MathLib, p: real)
    requires 0.0 < p < 1.0
    ensures Mirrors(InverseCdf(m, 1.0 - p), InverseCdf(m, p))
  {
    if p < PLow {
      LowerTailOdd(m, p);
    } else if p > PHigh {
      LowerTailOdd(m, 1.0 - p);
      assert 1.0 - (1.0 - p) == p;
    } else {
      CentralOdd(m, p);
    }
  }

  /** A lower-tail probability and its upper-tail mirror image share `q`. */
  lemma LowerTailOdd(m: MathLib, p: real)
    requires 0.0 < p < PLow
    ensures Mirrors(InverseCdf(m, 1.0 - p), InverseCdf(m, p))
    ensures Mirrors(InverseCdf(m, p), InverseCdf(m, 1.0 - p))
  {
    assert 1.0 - (1.0 - p) == p;
    var q := Sqrt(m, -2.0 * m.log(p));
    if q.Ok? {
      assert InverseCdf(m, p) == Div(TailNumerator(q.value), TailDenominator(q.value));
      assert InverseCdf(m, 1.0 - p) == Div(-TailNumerator(q.value), TailDenominator(q.value));
      DivNegate(TailNumerator(q.value), TailDenominator(q.value));
    }
  }

  /** A central probability and its mirror image have opposite `q` and the
      same `r`. */
  lemma CentralOdd(m: MathLib, p: real)
    requires PLow <= p <= PHigh
    ensures Mirrors(InverseCdf(m, 1.0 - p), InverseCdf(m, p))
  {
    assert (1.0 - p) - 0.5 == -(p - 0.5);
    CentralQuotientOdd(p - 0.5);
    assert InverseCdf(m, 1.0 - p) == CentralQuotient(-(p - 0.5));
  }

  /** The central quotient at `-q` is the central quotient at `q`, negated. */
  lemma CentralQuotientOdd(q: real)
    ensures Mirrors(CentralQuotient(-q), CentralQuotient(q))
  {
    var r := q * q;
    assert (-q) * (-q) == r;
    var c := CentralNumerator(r);
    assert c * (-q) == -(c * q);
    DivNegate(c * q, CentralDenominator(r));
  }

  /** With a sound math library the quantile has the sign of `p - 0.5`:
      negative below one half, positive above. */
  lemma {:induction false} InverseCdfSign(m: MathLib, p: real)
    requires Sound(m)
    requires 0.0 < p < 1.0
    ensures InverseCdf(m, p).Ok?
    ensures InverseCdf(m, p).value < 0.0 <==> p < 0.5
    ensures InverseCdf(m, p).value > 0.0 <==> p > 0.5
  {
    if p < PLow {
      LowerTailSign(m, p);
    } else if p > PHigh {
      UpperTailSign(m, p);
    } else {
      CentralSign(m, p);
    }
  }

  /** The quantile of 0.8413, the fractile the library treats as one standard
      deviation above the mean, is within 0.0002 of 1. */
  lemma InverseCdfNearOneSigma(m: MathLib)
    ensures InverseCdf(m, 0.8413).Ok?
    ensures 0.9998 < InverseCdf(m, 0.8413).value < 0.9999
  {
    var r := 0.3413 * 0.3413;
    assert (0.8413 - 0.5) * (0.8413 - 0.5) == r;
    HornerSix(A, r);
    DenominatorFive(B, r);
    assert InverseCdf(m, 0.8413) == CentralQuotient(0.3413);
  }

  /** At the lower break-point, the smallest fractile the central formula
      handles, the quantile is below -1.97. */
  lemma InverseCdfAtLowBreakPoint(m: MathLib)
    ensures InverseCdf(m, PLow).Ok?
    ensures InverseCdf(m, PLow).value < -1.97
  {
    var q := PLow - 0.5;
    var r := q * q;
    HornerSix(A, r);
    DenominatorFive(B, r);
    assert InverseCdf(m, PLow) == CentralQuotient(q);
  }

  /** Lower tail: the quotient of a negative numerator by a denominator of
      at least 1. */
  lemma LowerTailSign(m: MathLib, p: real)
    requires Sound(m)
    requires 0.0 < p < PLow
    ensures InverseCdf(m, p).Ok? && InverseCdf(m, p).value < 0.0
  {
    TailRoot(m, p);
    var q := Sqrt(m, -2.0 * m.log(p)).value;
    TailDenominatorAtLeastOne(q);
    TailNumeratorNegative(q);
    QuotientSign(TailNumerator(q), TailDenominator(q));
  }

  /** Upper tail: the negated tail quotient is positive. */
  lemma UpperTailSign(m: MathLib, p: real)
    requires Sound(m)
    requires PHigh < p < 1.0
    ensures InverseCdf(m, p).Ok? && InverseCdf(m, p).value > 0.0
  {
    TailRoot(m, 1.0 - p);
    var q := Sqrt(m, -2.0 * m.log(1.0 - p)).value;
    TailDenominatorAtLeastOne(q);
    TailNumeratorNegative(q);
    QuotientSign(-TailNumerator(q), TailDenominator(q));
  }

  /** Central region: a positive numerator times `p - 0.5` over a positive
      denominator. */
  lemma CentralSign(m: MathLib, p: real)
    requires PLow <= p <= PHigh
    ensures InverseCdf(m, p).Ok?
    ensures InverseCdf(m, p).value < 0.0 <==> p < 0.5
    ensures InverseCdf(m, p).value > 0.0 <==> p > 0.5
  {
    CentralRange(p);
    CentralQuotientSign(p - 0.5);
  }

  /** Within the central reach the central quotient has the sign of `q`. */
  lemma CentralQuotientSign(q: real)
    requires q * q <= CentralReach
    ensures CentralQuotient(q).Ok?
    ensures CentralQuotient(q).value < 0.0 <==> q < 0.0
    ensures CentralQuotient(q).value > 0.0 <==> q > 0.0
  {
    var r := q * q;
    CentralDenominatorPositive(r);
    CentralNumeratorPositive(r);
    QuotientOfProductSign(CentralNumerator(r), q, CentralDenominator(r));
  }

  /** A positive factor over a positive divisor: the quotient has the sign of
      the other factor. */
  lemma QuotientOfProductSign(n: real, q: real, d: real)
    requires n > 0.0 && d > 0.0
    ensures Div(n * q, d).Ok?
    ensures Div(n * q, d).value < 0.0 <==> q < 0.0
    ensures Div(n * q, d).value > 0.0 <==> q > 0.0
  {
    ProductSign(n, q);
    QuotientSign(n * q, d);
  }

  /** The central region's `r = (p - 0.5)^2` stays within `CentralReach`. */
  lemma CentralRange(p: real)
    requires PLow <= p <= PHigh
    ensures 0.0 <= (p - 0.5) * (p - 0.5) <= CentralReach
  {
    var q := p - 0.5;
    var a := if q < 0.0 then -q else q;
    assert a * a == q * q;
    var c := 0.5 - PLow;
    assert c * c == CentralReach;
    if a < c {
      SquareStrictlyMonotone(a, c);
    } else {
      assert a == c;
    }
    if 0.0 < a {
      SquareStrictlyMonotone(0.0, a);
    }
  }

  /** Dividing by a positive number keeps the sign of the dividend. */
  lemma QuotientSign(x: real, y: real)
    requires y > 0.0
    ensures Div(x, y).Ok?
    ensures Div(x, y).value < 0.0 <==> x < 0.0
    ensures Div(x, y).value > 0.0 <==> x > 0.0
  {
  }
}
