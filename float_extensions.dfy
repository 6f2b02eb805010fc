/**
 * The floating-point helpers of the picker, over exact reals: C's floor, ceil and fabs,
 * Swift's rounding toward zero and truncatingRemainder(dividingBy:), and the two
 * CGFloat extensions isIntegral and integerBelow.
 */
module FloatExtensions {
  import opened Wrappers

  function Fabs(x: real): (r: real)
    ensures r >= 0.0 && (r == x || r == -x)
  {
    if x < 0.0 then -x else x
  }

  /** floor(x) converted to Int: the greatest integer not above x. */
  function Floor(x: real): (r: int)
    ensures r as real <= x < r as real + 1.0
  {
    x.Floor
  }

  /** ceil(x) converted to Int: the least integer not below x. */
  function Ceil(x: real): (r: int)
    ensures x <= r as real < x + 1.0
  {
    -((-x).Floor)
  }

  /** Rounding toward zero, as the quotient of a truncating division. */
  function Trunc(q: real): (r: int)
    ensures 0.0 <= q ==> 0 <= r && r as real <= q < r as real + 1.0
    ensures q < 0.0 ==> r <= 0 && r as real - 1.0 < q <= r as real
  {
    if q >= 0.0 then Floor(q) else -Floor(-q)
  }

  /**
   * x.truncatingRemainder(dividingBy: y), that is x - y * trunc(x / y).
   * Dividing by zero gives NaN, written here as None. Otherwise x minus the remainder
   * is a whole multiple of y, the remainder is smaller than y in size, and it is zero
   * or has the sign of x.
   */
  function TruncatingRemainder(x: real, y: real): (r: Option<real>)
    ensures r.None? <==> y == 0.0
    ensures r.Some? ==> IsWhole((x - r.value) / y)
    ensures r.Some? ==> Fabs(r.value) < Fabs(y)
    ensures r.Some? ==> r.value == 0.0 || (r.value > 0.0 <==> x > 0.0)
  {
    if y == 0.0 then None
    else
      var n := Trunc(x / y);
      var rem := x - y * n as real;
      RemainderProperties(x, y, n, rem);
      Some(rem)
  }

  /** A real with no fractional part. */
  predicate IsWhole(v: real)
  {
    Floor(v) as real == v
  }

  /** Multiplying by a factor below 1 in size shrinks a non-zero value. */
  lemma MulShrinks(a: real, b: real)
    requires 0.0 <= a < 1.0 && b > 0.0
    ensures 0.0 <= a * b < b
  {
    assert (1.0 - a) * b > 0.0;
  }

  /** The size of a product is the product of the sizes. */
  lemma FabsMul(a: real, b: real)
    ensures Fabs(a * b) == Fabs(a) * Fabs(b)
  {
    if a < 0.0 && b < 0.0 {
      assert a * b == (-a) * (-b);
    } else if a < 0.0 {
      assert a * b == -((-a) * b);
    } else if b < 0.0 {
      assert a * b == -(a * (-b));
    }
  }

  /** A product is positive iff its factors have the same strict sign. */
  lemma MulPositive(a: real, b: real)
    ensures a * b > 0.0 <==> (a > 0.0 && b > 0.0) || (a < 0.0 && b < 0.0)
  {
    FabsMul(a, b);
    if a > 0.0 && b < 0.0 {
      assert a * b == -(a * (-b));
    } else if a < 0.0 && b > 0.0 {
      assert a * b == -((-a) * b);
    } else if a < 0.0 && b < 0.0 {
      assert a * b == (-a) * (-b);
    }
  }

  /** What truncation cuts off is below 1 in size and is zero or has the sign of q. */
  lemma TruncFraction(q: real)
    ensures var d := q - Trunc(q) as real;
      Fabs(d) < 1.0 && (d == 0.0 || ((d > 0.0 <==> q > 0.0) && (d < 0.0 <==> q < 0.0)))
  {
  }

  /** Scaling such a fraction by y keeps it below y in size and gives it the sign of y * q. */
  lemma ScaledFraction(y: real, d: real, q: real)
    requires y != 0.0 && Fabs(d) < 1.0
    requires d == 0.0 || ((d > 0.0 <==> q > 0.0) && (d < 0.0 <==> q < 0.0))
    ensures Fabs(y * d) < Fabs(y)
    ensures y * d == 0.0 || (y * d > 0.0 <==> y * q > 0.0)
  {
    FabsMul(y, d);
    MulShrinks(Fabs(d), Fabs(y));
    assert Fabs(d) * Fabs(y) == Fabs(y) * Fabs(d);
    MulPositive(y, d);
    MulPositive(y, q);
  }

  /** A whole multiple of y divided by y is whole. */
  lemma MultipleIsWhole(a: real, y: real, n: int)
    requires y != 0.0 && a == y * n as real
    ensures IsWhole(a / y)
  {
    assert a / y == n as real;
  }

  /** The facts about r = x - y * n, n = trunc(x / y), that TruncatingRemainder promises. */
  lemma RemainderProperties(x: real, y: real, n: int, r: real)
    requires y != 0.0 && n == Trunc(x / y) && r == x - y * n as real
    ensures IsWhole((x - r) / y)
    ensures Fabs(r) < Fabs(y)
    ensures r == 0.0 || (r > 0.0 <==> x > 0.0)
  {
    var q := x / y;
    assert x == y * q;
    assert r == y * (q - n as real);
    MultipleIsWhole(x - r, y, n);
    TruncFraction(q);
    ScaledFraction(y, q - n as real, q);
  }

  /** With f > 0, bounds lo * f <= x < hi * f give bounds on x / f. */
  lemma DivBounds(x: real, f: real, lo: real, hi: real)
    requires f > 0.0 && lo * f <= x < hi * f
    ensures lo <= x / f < hi
  {
    var q := x / f;
    assert q * f == x;
    MulPositive(q - lo, f);
    MulPositive(hi - q, f);
    assert (q - lo) * f == x - lo * f;
    assert (hi - q) * f == hi * f - x;
  }

  /** Dividing a non-zero number by itself gives 1. */
  lemma DivSelf(x: real)
    requires x != 0.0
    ensures x / x == 1.0
  {
  }

  /** Flipping both signs leaves a quotient unchanged. */
  lemma DivNeg(x: real, f: real)
    requires f != 0.0
    ensures x / f == (-x) / (-f)
  {
  }

  /**
   * CGFloat.isIntegral: zero, or the remainder of x by floor(x) is zero.
   * For 0 < x < 1 the divisor floor(x) is zero, the remainder is NaN and
   * NaN compares unequal to 0, so the result is false.
   */
  function IsIntegral(x: real): (r: bool)
    ensures x == 0.0 ==> r
    ensures 0.0 < x < 1.0 ==> !r
  {
    x == 0.0 || TruncatingRemainder(x, Floor(x) as real) == Some(0.0)
  }

  /** CGFloat.integerBelow: Int(floor(x)). */
  function IntegerBelow(x: real): (r: int)
    ensures r as real <= x < r as real + 1.0
  {
    Floor(x)
  }

  /** isIntegral holds exactly of the whole numbers, negative ones included. */
  lemma IsIntegralIffWhole(x: real)
    ensures IsIntegral(x) <==> x == Floor(x) as real
  {
    var f := Floor(x) as real;
    if x == 0.0 {
    } else if f == 0.0 {
      assert TruncatingRemainder(x, f) == None;
    } else if x == f {
      DivSelf(x);
      assert Trunc(x / f) == 1;
      assert TruncatingRemainder(x, f) == Some(0.0);
    } else if f > 0.0 {
      // 1 <= f < x < f + 1 <= 2 f, so 1 < x / f < 2
      DivBounds(x, f, 1.0, 2.0);
      assert Trunc(x / f) == 1;
      assert TruncatingRemainder(x, f) == Some(x - f);
    } else {
      // f <= -1 and f < x < 0, so 0 < x / f < 1
      DivNeg(x, f);
      DivBounds(-x, -f, 0.0, 1.0);
      assert Trunc(x / f) == 0;
      assert TruncatingRemainder(x, f) == Some(x);
    }
  }

  /** isIntegral(x) holds exactly when integerBelow(x) gives x back. */
  lemma IsIntegralIffIntegerBelow(x: real)
    ensures IsIntegral(x) <==> IntegerBelow(x) as real == x
  {
    IsIntegralIffWhole(x);
  }

  /** Every integer, zero and negatives included, is integral. */
  lemma IsIntegralOfInteger(n: int)
    ensures IsIntegral(n as real)
  {
    IsIntegralIffWhole(n as real);
  }

  /** integerBelow is monotone. */
  lemma IntegerBelowMonotone(x: real, y: real)
    requires x <= y
    ensures IntegerBelow(x) <= IntegerBelow(y)
  {
  }

  /** A value and its integer part fall in the same unit cell: floor is the unique such integer. */
  lemma IntegerBelowUnique(x: real, k: int)
    requires k as real <= x < k as real + 1.0
    ensures IntegerBelow(x) == k
  {
  }
}
