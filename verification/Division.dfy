/** Quotients, remainders and powers of natural numbers. */
module Division {
  lemma MultipleOf(d: nat, k: nat)
    requires d > 0
    ensures k * d % d == 0 && d * k % d == 0
  {
    if k > 0 {
      MultipleOf(d, k - 1);
      assert k * d == (k - 1) * d + d;
      assert (k * d) % d == ((k - 1) * d + d) % d;
      AddDivisor((k - 1) * d, d);
    }
  }

  lemma AddDivisor(n: nat, d: nat)
    requires d > 0
    ensures (n + d) % d == n % d
  {
    var q, r := n / d, n % d;
    assert n + d == (q + 1) * d + r;
    Remainder(n + d, d, q + 1, r);
  }

  lemma Remainder(n: nat, d: nat, q: nat, r: nat)
    requires d > 0 && r < d && n == q * d + r
    ensures n % d == r && n / d == q
  {
    var q', r' := n / d, n % d;
    assert n == q' * d + r';
    if q < q' {
      GapAtLeast(q, q', d);
    } else if q' < q {
      GapAtLeast(q', q, d);
    }
  }

  lemma ModAdd(m: nat, q: nat, s: nat)
    requires m > 0
    ensures (m * q + s) % m == s % m
  {
    assert m * q + s == (q + s / m) * m + s % m;
    Remainder(m * q + s, m, q + s / m, s % m);
  }

  lemma AddMultiple(m: nat, n: nat, r: nat, k: nat)
    requires m > 0 && n == m * k + r
    ensures n % m == r % m
  {
    ModAdd(m, k, r);
  }

  lemma SmallMod(x: nat, m: nat)
    requires x < m
    ensures x % m == x
  {
  }

  lemma Commutes(a: nat, b: nat)
    ensures a * b == b * a && (a > 0 && b > 0 ==> a * b > 0)
  {
  }

  lemma GapAtLeast(a: nat, b: nat, d: nat)
    requires a < b
    ensures b * d >= a * d + d
  {
    assert b * d == a * d + (b - a) * d;
    assert (b - a) * d == (b - a - 1) * d + d;
  }

  lemma ProductAtLeast(a: nat, b: nat, i: nat)
    requires a >= i && b >= i
    ensures a * b >= i * i
  {
    assert a * b == i * i + (a - i) * i + a * (b - i);
  }

  lemma DividesTrans(a: nat, b: nat, n: nat)
    requires a > 0 && b > 0 && b % a == 0 && n % b == 0
    ensures n % a == 0
  {
    var i, j := b / a, n / b;
    assert n == j * (i * a) == (j * i) * a;
    MultipleOf(a, j * i);
  }

  /** A divisor of `n` and of `n + 1` is 1. */
  lemma ConsecutiveCoprime(d: nat, n: nat)
    requires d >= 2 && n % d == 0
    ensures (n + 1) % d != 0
  {
    assert n + 1 == n / d * d + 1;
    Remainder(n + 1, d, n / d, 1);
  }

  // ---------------------------------------------------------------- powers

  function Power(base: nat, n: nat): (r: nat)
    ensures base > 0 ==> r > 0
  {
    if n == 0 then 1 else base * Power(base, n - 1)
  }

  lemma {:induction false} PowerSum(base: nat, m: nat, n: nat, p: nat, q: nat)
    requires Power(base, m) == p && Power(base, n) == q
    ensures Power(base, m + n) == p * q
    decreases m
  {
    if m > 0 {
      PowerSum(base, m - 1, n, Power(base, m - 1), q);
      MulAssoc(base, Power(base, m - 1), q);
    }
  }

  lemma MulAssoc(a: nat, b: nat, c: nat)
    ensures a * (b * c) == a * b * c
  {
  }

  lemma PowerOne(base: nat)
    ensures Power(base, 1) == base
  {
    assert Power(base, 0) == 1;
  }
}
