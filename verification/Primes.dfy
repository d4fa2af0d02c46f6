/** Elementary facts about primes: least divisors and Euclid's theorem. */
module Primes {
  import opened Division

  ghost predicate IsPrime(p: nat) {
    p >= 2 && forall d: nat | 2 <= d < p :: p % d != 0
  }

  /** Every number from 2 up has a prime divisor: its least divisor. */
  lemma PrimeDivisor(n: nat) returns (p: nat)
    requires n >= 2
    ensures IsPrime(p) && p <= n && n % p == 0
  {
    p := LeastDivisor(n, 2);
    forall d: nat | 2 <= d < p
      ensures p % d != 0
    {
      if p % d == 0 {
        DividesTrans(d, p, n);
      }
    }
  }

  lemma LeastDivisor(n: nat, from: nat) returns (p: nat)
    requires 2 <= from <= n && forall d: nat | 2 <= d < from :: n % d != 0
    ensures from <= p <= n && n % p == 0 && forall d: nat | 2 <= d < p :: n % d != 0
    decreases n - from
  {
    if n % from == 0 {
      p := from;
    } else {
      Remainder(n, n, 1, 0);
      p := LeastDivisor(n, from + 1);
    }
  }

  /** Trial division may stop at the square root. */
  lemma NoSmallDivisor(n: nat, i: nat)
    requires n >= 2 && i >= 2 && n < i * i
    requires forall d: nat | 2 <= d < i && d < n :: n % d != 0
    ensures IsPrime(n)
  {
    forall d: nat | 2 <= d < n
      ensures n % d != 0
    {
      if n % d == 0 && d >= i {
        var e := SmallCofactor(n, i, d);
      }
    }
  }

  /** A divisor from `i` up has a cofactor below `i`. */
  lemma SmallCofactor(n: nat, i: nat, d: nat) returns (e: nat)
    requires i >= 2 && n < i * i && i <= d < n && n % d == 0
    ensures 2 <= e < i && e < n && n % e == 0
  {
    e := n / d;
    assert n == e * d;
    CofactorBounds(n, d, e);
    MultipleOf(e, d);
    if e >= i {
      ProductAtLeast(e, d, i);
    }
  }

  lemma CofactorBounds(n: nat, d: nat, e: nat)
    requires n == e * d && 2 <= d < n
    ensures 2 <= e < n
  {
    if e >= 1 {
      assert e * d == 2 * e + (d - 2) * e;
    }
  }

  // ---------------------------------------------------------------- Euclid

  function Factorial(n: nat): (f: nat)
    ensures f >= 1
  {
    if n == 0 then 1 else n * Factorial(n - 1)
  }

  lemma {:induction false} DividesFactorial(d: nat, n: nat)
    requires 1 <= d <= n
    ensures Factorial(n) % d == 0
  {
    if d == n {
      MultipleOf(d, Factorial(n - 1));
    } else {
      DividesFactorial(d, n - 1);
      var q := Factorial(n - 1) / d;
      assert Factorial(n) == (n * q) * d;
      MultipleOf(d, n * q);
    }
  }

  /** There is a prime at or above every number. */
  lemma Euclid(n: nat) returns (p: nat)
    ensures p >= n && IsPrime(p)
  {
    p := PrimeDivisor(Factorial(n) + 1);
    if p < n {
      DividesFactorial(p, n);
      ConsecutiveCoprime(p, Factorial(n));
      assert false;
    }
  }
}
