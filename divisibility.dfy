/** Divisibility over the integers, read as Python's `x % d == 0`. */
module Divisibility {

  function Abs(x: int): nat { if x < 0 then -x else x }

  /** `d` divides `x`; zero divides only zero. */
  predicate Divides(d: nat, x: int) {
    if d == 0 then x == 0 else x % d == 0
  }

  lemma MulPositive(a: int, b: int)
    requires a > 0 && b > 0
    ensures a * b > 0
  {
  }

  /** Sign facts about a product with a positive factor. */
  lemma MulSign(d: int, t: int)
    ensures d > 0 && t >= 1 ==> d * t >= d
    ensures d > 0 && t <= 0 ==> d * t <= 0
    ensures d > 0 && t <= -1 ==> d * t <= -d
  {
    if d > 0 && t > 1 {
      MulPositive(d, t - 1);
      assert d * t == d * (t - 1) + d;
    }
    if d > 0 && t < -1 {
      MulPositive(d, -t - 1);
      assert d * t == -(d * (-t - 1)) - d;
    }
    if d > 0 && t < 0 {
      MulPositive(d, -t);
    }
  }

  /** Products of non-negative factors grow with the factors. */
  lemma MulMonotone(a: int, b: int, c: int, d: int)
    ensures 0 <= a <= c && 0 <= b <= d ==> a * b <= c * d
  {
    if 0 <= a <= c && 0 <= b <= d {
      MulSign(c, d - b);
      MulSign(b, c - a);
      assert c * d == c * (d - b) + c * b;
      assert c * b == b * (c - a) + a * b;
    }
  }

  lemma SquareAtLeastDouble(i: int)
    requires i >= 2
    ensures i * i >= 2 * i
  {
    MulSign(i, i - 1);
    assert i * i == i * (i - 1) + i;
  }

  lemma DividesMultiple(d: nat, x: int, k: int)
    requires x == d * k
    ensures Divides(d, x)
  {
    if d != 0 {
      var q, r := x / d, x % d;
      assert x == d * q + r && 0 <= r < d;
      assert d * (k - q) == r by {
        assert d * (k - q) == d * k - d * q;
      }
      MulSign(d, k - q);
    }
  }

  lemma DividesQuotient(d: nat, x: int)
    requires Divides(d, x)
    ensures x == d * (if d == 0 then 0 else x / d)
  {
  }

  lemma DividesLinear(d: nat, x: int, y: int, a: int, b: int)
    requires Divides(d, x) && Divides(d, y)
    ensures Divides(d, a * x + b * y)
  {
    if d != 0 {
      var p, q := x / d, y / d;
      DividesQuotient(d, x);
      DividesQuotient(d, y);
      assert a * x == d * (a * p) by {
        assert a * x == a * (d * p);
      }
      assert b * y == d * (b * q) by {
        assert b * y == b * (d * q);
      }
      assert a * x + b * y == d * (a * p + b * q);
      DividesMultiple(d, a * x + b * y, a * p + b * q);
    }
  }

  lemma DividesAbs(d: nat, x: int)
    ensures Divides(d, x) <==> Divides(d, Abs(x))
  {
    if Divides(d, x) {
      DividesLinear(d, x, x, -1, 0);
    }
    if Divides(d, Abs(x)) {
      DividesLinear(d, Abs(x), Abs(x), -1, 0);
    }
  }

  /** A common divisor of `x` and `y` divides `x % y`, and a divisor of `y`
      and of `x % y` divides `x` (the step of Euclid's algorithm). */
  lemma DividesMod(d: nat, x: int, y: int)
    requires y > 0 && Divides(d, y)
    ensures Divides(d, x) <==> Divides(d, x % y)
  {
    var q, r := x / y, x % y;
    assert x == y * q + r;
    if Divides(d, x) {
      DividesLinear(d, x, y, 1, -q);
      assert x % y == 1 * x + (-q) * y;
    }
    if Divides(d, r) {
      DividesLinear(d, r, y, 1, q);
      assert x == 1 * r + q * y;
    }
  }

  /** A positive number is at least as large as each of its divisors. */
  lemma DividesBound(d: nat, x: int)
    requires x > 0 && Divides(d, x)
    ensures 0 < d <= x
  {
    var q := x / d;
    DividesQuotient(d, x);
    MulSign(d, q);
  }

  lemma DividesTransitive(a: nat, b: nat, c: int)
    requires Divides(a, b) && Divides(b, c)
    ensures Divides(a, c)
  {
    if a != 0 && b != 0 {
      DividesQuotient(a, b);
      DividesQuotient(b, c);
      var p, q := b / a, c / b;
      assert c == a * (p * q) by {
        assert c == (a * p) * q;
      }
      DividesMultiple(a, c, p * q);
    }
  }

  /** Two non-negative numbers that divide each other are equal. */
  lemma DividesAntisymmetric(a: nat, b: nat)
    requires Divides(a, b) && Divides(b, a)
    ensures a == b
  {
    if a != 0 && b != 0 {
      DividesBound(a, b);
      DividesBound(b, a);
    }
  }
}
