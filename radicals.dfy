/** Radical simplification: `sqrt_simplify` of matiq.py, which writes
    sqrt(n) as a * sqrt(m) by dividing out square factors. */
module Radicals {
  import opened Wrappers
  import opened Divisibility

  /** The four renderings chosen at the end of `sqrt_simplify`. */
  datatype Form =
    | ZeroText    // "0": nothing is left under the root
    | Whole       // "a": the radicand reduced to 1
    | BareRoot    // "sqrt(m)": no square factor was found
    | ScaledRoot  // "a sqrt(m)"

  /** coefficient * sqrt(radicand), with the rendering chosen for it. */
  datatype Surd = Surd(coefficient: nat, radicand: nat, form: Form)

  /** No square of an integer from 2 up divides `m`. */
  ghost predicate SquareFree(m: int) {
    m >= 1 && forall j :: j >= 2 ==> m % (j * j) != 0
  }

  function FormOf(a: nat, m: nat): Form {
    if m == 0 then ZeroText
    else if m == 1 then Whole
    else if a == 1 then BareRoot
    else ScaledRoot
  }

  /** Dividing out a square factor keeps the radicand free of the smaller
      squares already ruled out, and makes it strictly smaller. */
  lemma StripSquare(m: int, i: int, q: int)
    requires i >= 2 && m > 0 && m == (i * i) * q
    requires forall j :: 2 <= j < i ==> m % (j * j) != 0
    ensures 0 < q < m
    ensures forall j :: 2 <= j < i ==> q % (j * j) != 0
  {
    SquareAtLeastDouble(i);
    MulSign(i * i, q);
    MulSign(q, i * i - 1);
    assert m == q * (i * i - 1) + q;
    forall j | 2 <= j < i
      ensures q % (j * j) != 0
    {
      if q % (j * j) == 0 {
        DividesLinear(j * j, q, 0, i * i, 0);
      }
    }
  }

  /** Below `i * i` every square from `i` on is too large to divide `m`. */
  lemma NoLargeSquare(m: int, i: int)
    requires 1 <= m < i * i && i >= 2
    requires forall j :: 2 <= j < i ==> m % (j * j) != 0
    ensures SquareFree(m)
  {
    forall j | j >= 2
      ensures m % (j * j) != 0
    {
      MulMonotone(i, i, j, j);
      if j >= i {
        assert m < j * j;
      }
    }
  }

  lemma MovedFactor(a: int, i: int, m: int, q: int)
    requires m == (i * i) * q
    ensures (a * i) * (a * i) * q == a * a * m
  {
    assert (a * i) * (a * i) * q == (a * a) * ((i * i) * q);
  }

  lemma CoefficientFacts(a: int, m: int, n: int)
    requires a >= 1 && m >= 0 && a * a * m == n
    ensures m == 0 <==> n == 0
  {
    MulSign(a, a);
    MulSign(a * a, m);
  }

  /** `sqrt_simplify(n)`: ValueError for negative `n`; otherwise, for
      i = 2, 3, ... while i * i <= n, divide i * i out of n as often as it
      goes, multiplying the coefficient by i each time. */
  method SqrtSimplify(n: int) returns (r: Result<Surd>)
    ensures r.Err? <==> n < 0
    ensures r.Err? ==> r.error == ValueError
    ensures r.Ok? ==> r.value.coefficient >= 1
    ensures r.Ok? ==> r.value.coefficient * r.value.coefficient * r.value.radicand == n
    ensures r.Ok? && n > 0 ==> SquareFree(r.value.radicand)
    ensures r.Ok? ==> (r.value.form == ZeroText <==> n == 0)
    ensures r.Ok? ==> (r.value.form == Whole <==> r.value.radicand == 1)
    ensures r.Ok? ==> (r.value.form == BareRoot <==> r.value.radicand >= 2 && r.value.coefficient == 1)
    ensures r.Ok? ==> (r.value.form == ScaledRoot <==> r.value.radicand >= 2 && r.value.coefficient >= 2)
  {
    if n < 0 {
      return Err(ValueError);
    }
    var i, a, m := 2, 1, n;
    while i * i <= m
      invariant i >= 2 && a >= 1 && m >= 0
      invariant a * a * m == n
      invariant forall j :: 2 <= j < i ==> m % (j * j) != 0
      decreases m - i
    {
      SquareAtLeastDouble(i);
      if m % (i * i) == 0 {
        var q := m / (i * i);
        StripSquare(m, i, q);
        MovedFactor(a, i, m, q);
        a := a * i;
        m := q;
      } else {
        i := i + 1;
      }
    }
    if m >= 1 {
      NoLargeSquare(m, i);
    }
    CoefficientFacts(a, m, n);
    return Ok(Surd(a, m, FormOf(a, m)));
  }

  /** A square-free radicand is already simplified: the only way to write it
      as a * a * r with a >= 1 is a = 1, r = m. */
  lemma SquareFreeFixed(m: int, a: int, r: int)
    requires SquareFree(m) && a >= 1 && a * a * r == m
    ensures a == 1 && r == m
  {
    DividesMultiple(a * a, m, r);
  }
}
