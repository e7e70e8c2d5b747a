/** Primality and divisors: `is_prime`, `nth_prime`, `factors` and
    `prime_factors` of matiq.py. */
module Primes {
  import opened Divisibility

  /** A prime is at least 2 and has no divisor strictly between 1 and itself. */
  predicate Prime(n: int) {
    n >= 2 && forall d :: 2 <= d < n ==> n % d != 0
  }

  /** Elements strictly ascending (so also free of duplicates). */
  predicate Increasing(s: seq<int>) {
    forall i, j :: 0 <= i < j < |s| ==> s[i] < s[j]
  }

  /** If `d >= i` divides `n < i * i`, its cofactor is a divisor below `i`. */
  lemma CofactorBelow(n: int, d: int, i: int)
    requires 2 <= d < n && n % d == 0 && n < i * i && d >= i >= 2
    ensures 2 <= n / d < i && n % (n / d) == 0
  {
    var e := n / d;
    assert n == d * e;
    MulSign(d, e);
    MulSign(d, e - 1);
    assert e >= 2 by {
      assert d * e != d * 1;
    }
    MulMonotone(i, i, d, e);
    DividesMultiple(e, n, d);
  }

  /** Trial division up to the square root decides primality. */
  lemma TrialDivisionSuffices(n: int, i: int)
    requires n >= 2 && i >= 2 && n < i * i
    requires forall d :: 2 <= d < i ==> n % d != 0
    ensures Prime(n)
  {
    forall d | 2 <= d < n
      ensures n % d != 0
    {
      if n % d == 0 && d >= i {
        CofactorBelow(n, d, i);
      }
    }
  }

  /** `is_prime(n)`: false for n <= 1, otherwise trial division by every
      `i` with `i * i <= n`. */
  method IsPrime(n: int) returns (b: bool)
    ensures b == Prime(n)
  {
    if n <= 1 {
      return false;
    }
    var i := 2;
    while i * i <= n
      invariant 2 <= i
      invariant forall d :: 2 <= d < i ==> n % d != 0
      decreases n - i
    {
      SquareAtLeastDouble(i);
      if n % i == 0 {
        return false;
      }
      i := i + 1;
    }
    TrialDivisionSuffices(n, i);
    return true;
  }

  /** The number of primes strictly below `n`. */
  ghost function PrimeCount(n: int): nat
    decreases n
  {
    if n <= 2 then 0 else PrimeCount(n - 1) + (if Prime(n - 1) then 1 else 0)
  }

  lemma {:induction false} PrimeCountMonotone(a: int, b: int)
    requires a <= b
    ensures PrimeCount(a) <= PrimeCount(b)
    decreases b - a
  {
    if a < b {
      PrimeCountMonotone(a, b - 1);
    }
  }

  /** Between two primes the count of smaller primes strictly grows, so a
      prime is determined by how many primes lie below it. */
  lemma PrimeCountDetermines(p: int, q: int)
    requires Prime(p) && Prime(q) && PrimeCount(p) == PrimeCount(q)
    ensures p == q
  {
    if p < q {
      PrimeCountMonotone(p + 1, q);
    } else if q < p {
      PrimeCountMonotone(q + 1, p);
    }
  }

  /** The prime with no prime below it is 2. */
  lemma FirstPrime(p: int)
    requires Prime(p) && PrimeCount(p) == 0
    ensures p == 2
  {
    assert Prime(2);
    PrimeCountDetermines(p, 2);
  }

  /** Every number from 2 up has a prime divisor. */
  lemma {:induction false} PrimeDivisor(n: int) returns (p: int)
    requires n >= 2
    ensures Prime(p) && n % p == 0 && p <= n
    decreases n
  {
    if Prime(n) {
      p := n;
      DividesMultiple(n, n, 1);
    } else {
      var d :| 2 <= d < n && n % d == 0;
      p := PrimeDivisor(d);
      DividesTransitive(p, d, n);
    }
  }

  function Factorial(n: nat): (r: nat)
    ensures r >= 1
  {
    if n == 0 then 1 else n * Factorial(n - 1)
  }

  lemma {:induction false} FactorialDivisible(n: nat, d: int)
    requires 1 <= d <= n
    ensures Factorial(n) % d == 0
  {
    if d == n {
      DividesMultiple(d, Factorial(n), Factorial(n - 1));
    } else {
      FactorialDivisible(n - 1, d);
      DividesLinear(d, Factorial(n - 1), 0, n, 0);
    }
  }

  /** Euclid's theorem: there is a prime beyond every bound. */
  lemma PrimeAbove(m: nat) returns (p: int)
    ensures Prime(p) && p > m
  {
    var f := Factorial(m);
    p := PrimeDivisor(f + 1);
    if p <= m {
      FactorialDivisible(m, p);
      DividesLinear(p, f + 1, f, 1, -1);
    }
  }

  /** `nth_prime(k)`: starting from 1, `k` times step to the next prime.
      For k <= 0 the loop does not run and the result is 1. */
  method NthPrime(k: int) returns (p: int)
    ensures k <= 0 ==> p == 1
    ensures k >= 1 ==> Prime(p) && PrimeCount(p) == k - 1
  {
    p := 1;
    if k <= 0 {
      return;
    }
    for j := 0 to k
      invariant p >= 1
      invariant PrimeCount(p + 1) == j
      invariant j > 0 ==> Prime(p)
    {
      p := p + 1;
      ghost var bound := PrimeAbove(p - 1);
      var isPrime := IsPrime(p);
      while !isPrime
        invariant p <= bound
        invariant isPrime == Prime(p)
        invariant PrimeCount(p) == j
        decreases bound - p
      {
        p := p + 1;
        isPrime := IsPrime(p);
      }
    }
  }

  /** `factors(n)`: every `i` in 1..n with `n % i == 0`, in scan order. */
  method Factors(n: int) returns (fs: seq<int>)
    ensures Increasing(fs)
    ensures forall x :: x in fs <==> 1 <= x <= n && n % x == 0
  {
    fs := [];
    var i := 1;
    while i <= n
      invariant 1 <= i && (n >= 0 ==> i <= n + 1)
      invariant Increasing(fs)
      invariant forall k :: 0 <= k < |fs| ==> fs[k] < i
      invariant forall x :: x in fs <==> 1 <= x < i && x <= n && n % x == 0
    {
      if n % i == 0 {
        fs := fs + [i];
      }
      i := i + 1;
    }
  }

  /** `prime_factors(n)`: the elements of `factors(n)` that are prime, kept
      in order; each distinct prime divisor appears once. */
  method PrimeFactors(n: int) returns (ps: seq<int>)
    ensures Increasing(ps)
    ensures forall x :: x in ps <==> 1 <= x <= n && n % x == 0 && Prime(x)
  {
    var fs := Factors(n);
    ps := [];
    for k := 0 to |fs|
      invariant Increasing(ps)
      invariant forall i :: 0 <= i < |ps| ==> ps[i] in fs[..k]
      invariant forall x :: x in ps <==> x in fs[..k] && Prime(x)
    {
      assert forall i :: 0 <= i < |ps| ==> ps[i] < fs[k];
      var b := IsPrime(fs[k]);
      if b {
        ps := ps + [fs[k]];
      }
      assert fs[..k + 1] == fs[..k] + [fs[k]];
    }
    assert fs[..|fs|] == fs;
  }
}
