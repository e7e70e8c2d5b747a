/** Exact integer fractions: `frac_simplify`, `fraction_addition` and
    `fraction_subtraction` of matiq.py. A fraction is a pair (numerator,
    denominator); nothing normalises the sign of the denominator. */
module Fractions {
  import opened Wrappers
  import opened Divisibility
  import opened Euclid

  /** A divisor of `p` scaled by `g` divides `g * p`. */
  lemma ScaledDivisor(h: nat, g: nat, p: int, a: int)
    requires a == g * p && Divides(h, p)
    ensures Divides(h * g, a)
  {
    var k := if h == 0 then 0 else p / h;
    DividesQuotient(h, p);
    assert a == (h * g) * k by {
      assert a == g * (h * k);
    }
    DividesMultiple(h * g, a, k);
  }

  lemma UnitFactor(h: nat, g: nat)
    requires g > 0 && h > 0 && Divides(h * g, g)
    ensures h == 1
  {
    DividesBound(h * g, g);
    MulSign(g, h - 1);
    assert g * h == g * (h - 1) + g;
  }

  /** A common divisor of the quotients, scaled by the gcd, still divides
      the gcd. */
  lemma CommonDivisorScaled(a: int, b: int, g: nat, p: int, q: int, h: nat)
    requires g == Gcd(a, b) && a == g * p && b == g * q
    requires Divides(h, p) && Divides(h, q)
    ensures Divides(h * g, g)
  {
    ScaledDivisor(h, g, p, a);
    ScaledDivisor(h, g, q, b);
    GcdGreatest(a, b, h * g);
  }

  /** Dividing both parts by their gcd leaves parts whose gcd is 1. */
  lemma ReducedCoprime(a: int, b: int, g: nat, p: int, q: int)
    requires g == Gcd(a, b) && g > 0
    requires a == g * p && b == g * q
    ensures Gcd(p, q) == 1
  {
    var h := Gcd(p, q);
    assert h > 0 by {
      assert a != 0 || b != 0;
    }
    CommonDivisorScaled(a, b, g, p, q, h);
    UnitFactor(h, g);
  }

  /** Equal cross products give equal ratios over the reals. */
  lemma CrossRatio(p: int, q: int, x: int, y: int)
    requires q != 0 && y != 0 && p * y == x * q
    ensures p as real / q as real == x as real / y as real
  {
    assert (p * y) as real == (p as real) * (y as real);
    assert (x * q) as real == (x as real) * (q as real);
  }

  /** Parts divided by a common positive factor keep the ratio and the signs. */
  lemma ReducedParts(a: int, b: int, g: int, p: int, q: int)
    requires g > 0 && a == g * p && b == g * q
    ensures p * b == a * q
    ensures (q < 0 <==> b < 0) && (q == 0 <==> b == 0)
    ensures (p < 0 <==> a < 0) && (p == 0 <==> a == 0)
  {
    MulSign(g, p);
    MulSign(g, q);
    assert p * b == p * (g * q) == (g * p) * q;
  }

  /** `frac_simplify(a, b)`: both parts floor-divided by `gcd(a, b)`, which
      raises ZeroDivisionError when both are zero. The divisions are exact,
      so Dafny's `/` gives Python's `//` here. */
  function FracSimplify(a: int, b: int): (r: Result<(int, int)>)
    ensures r.Err? <==> a == 0 && b == 0
    ensures r.Err? ==> r.error == ZeroDivisionError
    ensures r.Ok? ==> r.value.0 * b == a * r.value.1
    ensures r.Ok? ==> Gcd(r.value.0, r.value.1) == 1
    ensures r.Ok? ==> (r.value.1 < 0 <==> b < 0) && (r.value.1 == 0 <==> b == 0)
    ensures r.Ok? ==> (r.value.0 < 0 <==> a < 0) && (r.value.0 == 0 <==> a == 0)
  {
    var g := Gcd(a, b);
    if g == 0 then
      Err(ZeroDivisionError)
    else
      DividesQuotient(g, a);
      DividesQuotient(g, b);
      ReducedCoprime(a, b, g, a / g, b / g);
      ReducedParts(a, b, g, a / g, b / g);
      Ok((a / g, b / g))
  }

  /** With a non-zero denominator the simplified pair denotes the same
      rational number. */
  lemma FracSimplifyValue(a: int, b: int)
    requires b != 0
    ensures FracSimplify(a, b).Ok?
    ensures var (p, q) := FracSimplify(a, b).value;
      q != 0 && p as real / q as real == a as real / b as real
  {
    var (p, q) := FracSimplify(a, b).value;
    CrossRatio(p, q, a, b);
  }

  /** Simplifying a pair that is already in lowest terms changes nothing. */
  lemma FracSimplifyIdempotent(p: int, q: int)
    requires Gcd(p, q) == 1
    ensures FracSimplify(p, q) == Ok((p, q))
  {
  }

  /** `fraction_addition(a, b, c, d)`: a/b + c/d by cross-multiplication,
      then simplified. */
  function FractionAddition(a: int, b: int, c: int, d: int): (r: Result<(int, int)>)
    ensures r.Err? <==> a * d + b * c == 0 && b * d == 0
    ensures r.Err? ==> r.error == ZeroDivisionError
    ensures r.Ok? ==> Gcd(r.value.0, r.value.1) == 1
    ensures r.Ok? ==> r.value.0 * (b * d) == (a * d + b * c) * r.value.1
    ensures r.Ok? ==> (r.value.1 < 0 <==> b * d < 0) && (r.value.1 == 0 <==> b * d == 0)
    ensures r.Ok? ==> (r.value.0 < 0 <==> a * d + b * c < 0) && (r.value.0 == 0 <==> a * d + b * c == 0)
    ensures r.Ok? && b != 0 && d != 0 ==>
      r.value.1 != 0 &&
      r.value.0 as real / r.value.1 as real == a as real / b as real + c as real / d as real
  {
    var r := FracSimplify(a * d + b * c, b * d);
    if b != 0 && d != 0 then
      FracSimplifyValue(a * d + b * c, b * d);
      SumOfRatios(a, b, c, d);
      r
    else
      r
  }

  /** `fraction_subtraction(a, b, c, d)`: a/b - c/d by cross-multiplication,
      then simplified. */
  function FractionSubtraction(a: int, b: int, c: int, d: int): (r: Result<(int, int)>)
    ensures r.Err? <==> a * d - b * c == 0 && b * d == 0
    ensures r.Err? ==> r.error == ZeroDivisionError
    ensures r.Ok? ==> Gcd(r.value.0, r.value.1) == 1
    ensures r.Ok? ==> r.value.0 * (b * d) == (a * d - b * c) * r.value.1
    ensures r.Ok? ==> (r.value.1 < 0 <==> b * d < 0) && (r.value.1 == 0 <==> b * d == 0)
    ensures r.Ok? ==> (r.value.0 < 0 <==> a * d - b * c < 0) && (r.value.0 == 0 <==> a * d - b * c == 0)
    ensures r.Ok? && b != 0 && d != 0 ==>
      r.value.1 != 0 &&
      r.value.0 as real / r.value.1 as real == a as real / b as real - c as real / d as real
  {
    var r := FracSimplify(a * d - b * c, b * d);
    if b != 0 && d != 0 then
      FracSimplifyValue(a * d - b * c, b * d);
      DifferenceOfRatios(a, b, c, d);
      r
    else
      r
  }

  /** The cross-multiplied pair denotes the sum of the two ratios. */
  lemma SumOfRatios(a: int, b: int, c: int, d: int)
    requires b != 0 && d != 0
    ensures b * d != 0
    ensures (a * d + b * c) as real / (b * d) as real == a as real / b as real + c as real / d as real
  {
    var B, D := b as real, d as real;
    assert (b * d) as real == B * D;
    assert (a * d + b * c) as real == (a as real) * D + B * (c as real);
  }

  /** The cross-multiplied pair denotes the difference of the two ratios. */
  lemma DifferenceOfRatios(a: int, b: int, c: int, d: int)
    requires b != 0 && d != 0
    ensures b * d != 0
    ensures (a * d - b * c) as real / (b * d) as real == a as real / b as real - c as real / d as real
  {
    var B, D := b as real, d as real;
    assert (b * d) as real == B * D;
    assert (a * d - b * c) as real == (a as real) * D - B * (c as real);
  }
}
