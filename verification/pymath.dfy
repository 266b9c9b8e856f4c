/** The parts of Python's `math` module the corrosion calculations use.

    `math.sqrt` and `math.log` are transcendental and are not computed here:
    a `MathLib` supplies them, and `Sound` states the only facts the proofs
    rely on. `math.pi` is the double 3.141592653589793, taken as an exact
    rational. The wrappers reproduce Python's failure behaviour where an argument
    can fall outside the domain: a square root of a negative number raises a
    math domain error, and a division by zero raises ZeroDivisionError.
    `math.log` is only ever applied to a number in (0, 1), so it is used
    directly. */
module PyMath {
  import opened Outcomes

  /** `math.pi`. */
  const Pi: real := 3.141592653589793

  /** The square root and natural logarithm the calculations call. */
  datatype MathLib = MathLib(sqrt: real -> real, log: real -> real)

  /** The facts about `sqrt` and `log` that the proofs use: the square root
      of a non-negative number is its non-negative square root, and the
      natural logarithm lies on or below its tangent at 1, `ln x <= x - 1`. */
  ghost predicate Sound(m: MathLib) {
    && (forall x: real :: 0.0 <= x ==> 0.0 <= m.sqrt(x) && m.sqrt(x) * m.sqrt(x) == x)
    && (forall x: real :: 0.0 < x ==> m.log(x) <= x - 1.0)
  }

  /** `math.sqrt(x)`: a domain error for a negative argument. */
  function Sqrt(m: MathLib, x: real): (r: Result<real>)
    ensures r.Err? <==> x < 0.0
    ensures r.Err? ==> r.error == MathDomainError
    ensures Sound(m) && r.Ok? ==> 0.0 <= r.value && r.value * r.value == x
  {
    if x < 0.0 then Err(MathDomainError) else Ok(m.sqrt(x))
  }

  /** The float division `x / y`: ZeroDivisionError when `y` is zero. */
  function Div(x: real, y: real): (r: Result<real>)
    ensures r.Err? <==> y == 0.0
    ensures r.Err? ==> r.error == ZeroDivision
    ensures r.Ok? ==> r.value * y == x
  {
    if y == 0.0 then Err(ZeroDivision) else Ok(x / y)
  }

  /** A non-negative number whose square is `x` is the square root of `x`. */
  lemma SqrtUnique(m: MathLib, x: real, y: real)
    requires Sound(m)
    requires 0.0 <= y && y * y == x
    ensures m.sqrt(x) == y
  {
    var s := m.sqrt(x);
    assert 0.0 <= s && s * s == x;
    if s < y {
      SquareStrictlyMonotone(s, y);
    } else if y < s {
      SquareStrictlyMonotone(y, s);
    }
  }

  /** Squaring is strictly monotone on the non-negative numbers. */
  lemma SquareStrictlyMonotone(a: real, b: real)
    requires 0.0 <= a < b
    ensures a * a < b * b
  {
    var d, e := b - a, b + a;
    ProductSign(d, e);
    assert d * e == b * b - a * a;
  }

  /** Squaring is monotone on the non-negative numbers. */
  lemma SquareMonotone(a: real, b: real)
    requires 0.0 <= a <= b
    ensures a * a <= b * b
  {
    if a < b {
      SquareStrictlyMonotone(a, b);
    }
  }

  /** A positive factor keeps the sign of the other factor. */
  lemma ProductSign(n: real, q: real)
    requires n > 0.0
    ensures n * q < 0.0 <==> q < 0.0
    ensures n * q > 0.0 <==> q > 0.0
  {
  }

  /** A product of non-negative numbers is non-negative. */
  lemma NonNegativeProduct(x: real, y: real)
    requires x >= 0.0 && y >= 0.0
    ensures x * y >= 0.0
  {
  }

  /** Multiplying by a non-negative number is monotone. */
  lemma ScaleMonotone(k: real, x: real, y: real)
    requires k >= 0.0 && x <= y
    ensures k * x <= k * y
  {
    var d := y - x;
    NonNegativeProduct(k, d);
    assert k * y == k * x + k * d;
  }

  /** The square root is monotone on the non-negative numbers. */
  lemma SqrtMonotone(m: MathLib, a: real, b: real)
    requires Sound(m)
    requires 0.0 <= a <= b
    ensures m.sqrt(a) <= m.sqrt(b)
  {
    var sa, sb := m.sqrt(a), m.sqrt(b);
    assert 0.0 <= sa && sa * sa == a;
    assert 0.0 <= sb && sb * sb == b;
    if sb < sa {
      SquareStrictlyMonotone(sb, sa);
    }
  }

  /** The square root of a product of non-negative numbers is the product of
      their square roots. */
  lemma SqrtProduct(m: MathLib, a: real, b: real)
    requires Sound(m)
    requires 0.0 <= a && 0.0 <= b
    ensures m.sqrt(a * b) == m.sqrt(a) * m.sqrt(b)
  {
    var sa, sb := m.sqrt(a), m.sqrt(b);
    assert 0.0 <= sa && sa * sa == a;
    assert 0.0 <= sb && sb * sb == b;
    assert (sa * sb) * (sa * sb) == (sa * sa) * (sb * sb);
    SqrtUnique(m, a * b, sa * sb);
  }
}
