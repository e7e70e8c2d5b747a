/** The variadic greatest common divisor `gcd` of matiq.py: Euclid's
    algorithm on absolute values, folded left to right over extra arguments. */
module Euclid {
  import opened Divisibility

  function Min(a: nat, b: nat): nat { if a < b then a else b }

  /** Pairwise gcd. Both arguments are made non-negative, the larger becomes
      the dividend, and the recursion is on (smaller, larger % smaller).
      All remainders here have a positive divisor, where Dafny's `%` and
      Python's `%` agree. */
  function Gcd(m: int, n: int): (r: nat)
    ensures Divides(r, m) && Divides(r, n)
    ensures r == 0 <==> m == 0 && n == 0
    ensures n == 0 ==> r == Abs(m)
    decreases Min(Abs(m), Abs(n))
  {
    var a, b := Abs(m), Abs(n);
    var hi, lo := if a < b then b else a, if a < b then a else b;
    DividesAbs(hi, m);
    DividesAbs(hi, n);
    DividesAbs(lo, m);
    DividesAbs(lo, n);
    DividesMultiple(hi, hi, 1);
    DividesMultiple(lo, lo, 1);
    if lo == 0 then
      hi
    else if hi % lo == 0 then
      lo
    else
      var g := Gcd(lo, hi % lo);
      DividesMod(g, hi, lo);
      DividesAbs(g, m);
      DividesAbs(g, n);
      g
  }

  /** Every common divisor of `m` and `n` divides `Gcd(m, n)`: the result is
      the greatest common divisor, not just a common one. */
  lemma {:induction false} GcdGreatest(m: int, n: int, d: nat)
    requires Divides(d, m) && Divides(d, n)
    ensures Divides(d, Gcd(m, n))
    decreases Min(Abs(m), Abs(n))
  {
    DividesAbs(d, m);
    DividesAbs(d, n);
    var a, b := Abs(m), Abs(n);
    var hi, lo := if a < b then b else a, if a < b then a else b;
    if lo != 0 && hi % lo != 0 {
      DividesMod(d, hi, lo);
      GcdGreatest(lo, hi % lo, d);
    }
  }

  /** The argument order does not matter. */
  lemma GcdCommutative(m: int, n: int)
    ensures Gcd(m, n) == Gcd(n, m)
  {
    GcdGreatest(m, n, Gcd(n, m));
    GcdGreatest(n, m, Gcd(m, n));
    DividesAntisymmetric(Gcd(m, n), Gcd(n, m));
  }

  /** `gcd(m, n, *rest)`: the pairwise gcd of the first two arguments
      replaces them, until no extra argument is left. */
  function GcdAll(m: int, n: int, rest: seq<int>): (r: nat)
    ensures Divides(r, m) && Divides(r, n)
    ensures forall i :: 0 <= i < |rest| ==> Divides(r, rest[i])
    decreases |rest|
  {
    if rest == [] then
      Gcd(m, n)
    else
      var g := Gcd(m, n);
      var r := GcdAll(g, rest[0], rest[1..]);
      DividesTransitive(r, g, m);
      DividesTransitive(r, g, n);
      assert forall i :: 1 <= i < |rest| ==> rest[i] == rest[1..][i - 1];
      r
  }

  /** Every common divisor of all arguments divides the variadic gcd. */
  lemma {:induction false} GcdAllGreatest(m: int, n: int, rest: seq<int>, d: nat)
    requires Divides(d, m) && Divides(d, n)
    requires forall i :: 0 <= i < |rest| ==> Divides(d, rest[i])
    ensures Divides(d, GcdAll(m, n, rest))
    decreases |rest|
  {
    GcdGreatest(m, n, d);
    if rest != [] {
      GcdAllGreatest(Gcd(m, n), rest[0], rest[1..], d);
    }
  }

  /** Left fold of the pairwise gcd over a list, starting from an accumulator. */
  function FoldGcd(acc: int, xs: seq<int>): nat
    decreases |xs|
  {
    if xs == [] then Abs(acc) else FoldGcd(Gcd(acc, xs[0]), xs[1..])
  }

  lemma GcdZeroLeft(m: int)
    ensures Gcd(0, m) == Abs(m)
  {
  }

  lemma GcdAbsLeft(m: int, n: int)
    ensures Gcd(Abs(m), n) == Gcd(m, n)
  {
  }

  lemma {:induction false} GcdAllFoldFrom(m: int, n: int, rest: seq<int>)
    ensures GcdAll(m, n, rest) == FoldGcd(Gcd(m, n), rest)
    decreases |rest|
  {
    if rest != [] {
      GcdAllFoldFrom(Gcd(m, n), rest[0], rest[1..]);
    }
  }

  /** The variadic gcd is the left-to-right fold of the pairwise gcd over all
      of its arguments, starting from 0 (the identity, since gcd(0, x) = |x|). */
  lemma GcdAllIsFold(m: int, n: int, rest: seq<int>)
    ensures GcdAll(m, n, rest) == FoldGcd(0, [m, n] + rest)
  {
    var all := [m, n] + rest;
    GcdZeroLeft(m);
    GcdAbsLeft(m, n);
    assert all[1..] == [n] + rest;
    assert ([n] + rest)[1..] == rest;
    assert FoldGcd(0, all) == FoldGcd(Abs(m), [n] + rest);
    assert FoldGcd(Abs(m), [n] + rest) == FoldGcd(Gcd(m, n), rest);
    GcdAllFoldFrom(m, n, rest);
  }
}
