/** Primality from a certificate: a divisor at or below the square root would give some power of a
    base an order that the factors of `n - 1` rule out. */
module PrimeCertificate {
  import opened Division
  import opened Permutations
  import opened Primes

  // ---------------------------------------------------------------- congruence

  lemma ModOfMod(x: nat, p: nat, n: nat)
    requires p > 0 && n > 0 && n % p == 0
    ensures x % n % p == x % p
  {
    var q, k := x / n, n / p;
    assert x == q * n + x % n && n == k * p;
    assert q * n == p * (q * k) by {
      MulAssoc(q, k, p);
      Commutes(q * k, p);
    }
    AddMultiple(p, x, x % n, q * k);
  }

  lemma ModTimes(x: nat, y: nat, n: nat)
    requires n > 0
    ensures x * y % n == x % n * y % n
  {
    var q, r := x / n, x % n;
    assert x == n * q + r;
    assert x * y == n * (q * y) + r * y by {
      MulAssoc(n, q, y);
    }
    AddMultiple(n, x * y, r * y, q * y);
  }

  lemma ModProduct(x: nat, y: nat, n: nat)
    requires n > 0
    ensures x * y % n == (x % n) * (y % n) % n
  {
    ModTimes(x, y, n);
    Commutes(x % n, y);
    ModTimes(y, x % n, n);
    Commutes(y % n, x % n);
  }

  /** A factor that is 1 modulo `p` does not matter. */
  lemma TimesOne(x: nat, y: nat, p: nat)
    requires p >= 2 && x % p == 1
    ensures x * y % p == y % p
  {
    ModTimes(x, y, p);
  }

  // ---------------------------------------------------------------- powers

  lemma PowersAdd(a: nat, m: nat, n: nat)
    ensures Power(a, m + n) == Power(a, m) * Power(a, n)
  {
    PowerSum(a, m, n, Power(a, m), Power(a, n));
  }

  lemma {:induction false} PowerOfOne(a: nat, m: nat, k: nat, t: nat, p: nat)
    requires p >= 2 && Power(a, m) % p == 1 && t == k * m
    ensures Power(a, t) % p == 1
    decreases k
  {
    if k == 0 {
      assert t == 0 && Power(a, 0) == 1;
    } else {
      hide Power;
      OneMore(k - 1, m);
      var rest := t - m;
      PowerOfOne(a, m, k - 1, rest, p);
      PowersAdd(a, m, rest);
      TimesOne(Power(a, m), Power(a, rest), p);
    }
  }

  lemma OneMore(k: nat, m: nat)
    ensures (k + 1) * m == m + k * m && k * m >= 0
  {
  }

  lemma PowerNothing(a: nat, n: nat)
    requires n >= 2
    ensures PowerIs(a, n, 0, 1)
  {
    SmallMod(1, n);
  }

  predicate PowerIs(a: nat, n: nat, e: nat, x: nat) {
    n > 0 && Power(a, e) % n == x
  }

  /** Two more bits of the exponent, `c`: the fourth power times two to the `c` leaves `y` modulo `n`. */
  predicate Leaves(n: nat, x: nat, c: nat, quotient: nat, y: nat) {
    c < 4 && x * x * x * x * (if c == 0 then 1 else if c == 1 then 2 else if c == 2 then 4 else 8) == quotient * n + y
    && y < n
  }

  lemma Fourth(n: nat, e: nat, x: nat, c: nat, quotient: nat, y: nat) returns (e': nat, x': nat)
    requires PowerIs(2, n, e, x) && Leaves(n, x, c, quotient, y)
    ensures PowerIs(2, n, e', x') && e' == 4 * e + c && x' == y
  {
    e', x' := 4 * e + c, y;
    hide Power;
    PowersAdd(2, e, e);
    PowersAdd(2, e + e, e + e);
    PowersAdd(2, 4 * e, c);
    SmallPowers();
    var p, t := Power(2, e), Power(2, c);
    assert x * x * x * x * t == quotient * n + y;
    hide Leaves;
    Remainder(x * x * x * x * t, n, quotient, y);
    FourFactors(p, x, t, n);
    assert Power(2, 4 * e) == p * p * (p * p) == p * p * p * p by {
      MulAssoc(p * p, p, p);
    }
  }

  lemma FourFactors(p: nat, x: nat, t: nat, n: nat)
    requires n > 0 && p % n == x
    ensures p * p * p * p * t % n == x * x * x * x * t % n
  {
    ReducedFactor(p, x, p, x, n);
    ReducedFactor(p * p, x * x, p, x, n);
    ReducedFactor(p * p * p, x * x * x, p, x, n);
    ReducedFactor(p * p * p * p, x * x * x * x, t, t, n);
  }

  lemma ReducedFactor(p: nat, x: nat, q: nat, y: nat, n: nat)
    requires n > 0 && p % n == x % n && q % n == y % n
    ensures p * q % n == x * y % n
  {
    ModProduct(p, q, n);
    ModProduct(x, y, n);
  }

  lemma SmallPowers()
    ensures Power(2, 0) == 1 && Power(2, 1) == 2 && Power(2, 2) == 4 && Power(2, 3) == 8
  {
    assert Power(2, 3) == 2 * Power(2, 2) && Power(2, 2) == 2 * Power(2, 1);
  }

  // ---------------------------------------------------------------- an exponent that gives 1

  lemma SameTwice(s: seq<nat>, n: nat) returns (i: nat, j: nat)
    requires |s| == n + 1 && forall k | 0 <= k <= n :: s[k] < n
    ensures i < j <= n && s[i] == s[j]
  {
    if Distinct(s) {
      DistinctCount(s);
      DistinctCount(Identity(n));
      forall x | x in Members(s)
        ensures x in Members(Identity(n))
      {
        assert Identity(n)[x] == x;
      }
      SubsetCount(Members(s), Members(Identity(n)));
      assert false;
    }
    i, j :| 0 <= i < j < |s| && s[i] == s[j];
  }

  function Powers(a: nat, p: nat): (r: seq<nat>)
    requires p > 0
    ensures |r| == p + 1 && forall k | 0 <= k <= p :: r[k] == Power(a, k) % p && r[k] < p
  {
    seq(p + 1, k requires 0 <= k <= p => Power(a, k) % p)
  }

  lemma Complement(n: nat, i: nat) returns (e: nat)
    requires n >= 2
    ensures i + e == i * (n - 1)
  {
    e := i * (n - 2);
    OneMore(n - 2, i);
    Commutes(n - 1, i);
    Commutes(n - 2, i);
  }

  /** Modulo any divisor `p` of `n`, some exponent from 1 to `p` gives 1. */
  lemma SmallOrder(n: nat, a: nat, p: nat) returns (d: nat)
    requires n >= 2 && Power(a, n - 1) % n == 1 && p >= 2 && n % p == 0
    ensures 0 < d <= p && Power(a, d) % p == 1
  {
    hide Power;
    var i, j := SameTwice(Powers(a, p), p);
    assert Power(a, i) % p == Power(a, j) % p;
    d := j - i;
    OneModDivisor(Power(a, n - 1), n, p);
    PowerOfOne(a, n - 1, i, i * (n - 1), p);
    var e := Complement(n, i);
    PowersAdd(a, i, e);
    PowersAdd(a, d, i);
    MovedFactor(Power(a, d), Power(a, i), Power(a, j), Power(a, e), p);
  }

  lemma OneModDivisor(x: nat, n: nat, p: nat)
    requires p >= 2 && n > 0 && n % p == 0 && x % n == 1
    ensures x % p == 1
  {
    ModOfMod(x, p, n);
  }

  /** `x` is 1, if `x * y` is congruent to `y` and `y` has an inverse. */
  lemma MovedFactor(x: nat, y: nat, z: nat, inverse: nat, p: nat)
    requires p >= 2 && z == x * y && z % p == y % p && y * inverse % p == 1
    ensures x % p == 1
  {
    ModTimes(z, inverse, p);
    ModTimes(y, inverse, p);
    assert z * inverse % p == 1;
    MulAssoc(x, y, inverse);
    Commutes(x, y * inverse);
    TimesOne(y * inverse, x, p);
  }

  // ---------------------------------------------------------------- Bezout

  lemma DividesSum(c: nat, x: nat, y: nat)
    requires c > 0 && x % c == 0 && y % c == 0
    ensures (x + y) % c == 0
  {
    var i, j := x / c, y / c;
    assert x == i * c && y == j * c;
    assert x + y == (i + j) * c;
    MultipleOf(c, i + j);
  }

  ghost predicate Coprime(x: nat, y: nat) {
    forall c: nat | c >= 2 :: !(x % c == 0 && y % c == 0)
  }

  /** A multiple of `x` that is one more than a multiple of `y`. */
  lemma {:induction false} Bezout(x: nat, y: nat) returns (u: nat, v: nat)
    requires x > 0 && y > 0 && Coprime(x, y)
    ensures u * x == 1 + v * y
    decreases x + y
  {
    if x == 1 {
      u, v := 1, 0;
    } else if y == 1 {
      u, v := 1, x - 1;
    } else if y < x {
      CoprimeRest(x, y);
      u, v := Bezout(x - y, y);
      assert u * x == u * (x - y) + u * y;
      v := v + u;
    } else if x < y {
      CoprimeRest(y, x);
      u, v := Bezout(x, y - x);
      assert v * y == v * (y - x) + v * x;
      u := u + v;
    } else {
      assert x % x == 0 by {
        MultipleOf(x, 1);
      }
      assert false;
    }
  }

  lemma CoprimeRest(x: nat, y: nat)
    requires 0 < y < x && (Coprime(x, y) || Coprime(y, x))
    ensures Coprime(x - y, y) && Coprime(y, x - y)
  {
    forall c: nat | c >= 2
      ensures !((x - y) % c == 0 && y % c == 0)
    {
      if (x - y) % c == 0 && y % c == 0 {
        DividesSum(c, x - y, y);
      }
    }
  }

  lemma PrimeCoprime(f: nat, d: nat)
    requires IsPrime(f) && d > 0 && d % f != 0
    ensures Coprime(f, d)
  {
    forall c: nat | c >= 2
      ensures !(f % c == 0 && d % c == 0)
    {
      if c > f {
        Remainder(f, c, 0, f);
      }
    }
  }

  /** Two different primes that divide a number divide it together. */
  lemma BothDivide(f: nat, g: nat, d: nat)
    requires IsPrime(f) && IsPrime(g) && f % g != 0 && d > 0 && d % f == 0 && d % g == 0
    ensures f * g <= d
  {
    PrimeCoprime(g, f);
    var u, v := Bezout(g, f);
    var k, l := d / f, d / g;
    assert d == k * f && d == l * g;
    CofactorDivides(f, g, d, k, l, u, v);
    var m := k / g;
    assert k == m * g;
    Regroup(m, g, f);
    if m > 1 {
      GapAtLeast(1, m, g * f);
    }
  }

  lemma Regroup(m: nat, g: nat, f: nat)
    ensures m * g * f == m * (g * f) && g * f == f * g
  {
  }

  /** The cofactor of one of the two is a multiple of the other. */
  lemma CofactorDivides(f: nat, g: nat, d: nat, k: nat, l: nat, u: nat, v: nat)
    requires g > 0 && d == k * f && d == l * g && u * g == 1 + v * f
    ensures k % g == 0
  {
    Cofactors(f, g, k, l, u, v);
    var x, y := k * u, v * l;
    assert k == x * g - y * g == (x - y) * g;
    NonNegative(x - y, g, k);
    MultipleOf(g, x - y);
  }

  lemma NonNegative(x: int, g: nat, k: nat)
    requires g > 0 && k == x * g
    ensures x >= 0
  {
  }

  lemma Cofactors(f: nat, g: nat, k: nat, l: nat, u: nat, v: nat)
    requires k * f == l * g && u * g == 1 + v * f
    ensures k == k * u * g - v * l * g
  {
    assert k * (u * g) == k + k * (v * f);
    MulAssoc(k, u, g);
    MulAssoc(k, v, f);
    Commutes(k, v);
    MulAssoc(v, k, f);
    MulAssoc(v, l, g);
  }

  // ---------------------------------------------------------------- certificates

  /** What is checked by computing: `a` to the `n - 1` is 1 modulo `n`, and `a` to the `r` less 1
      has an inverse. */
  predicate Witness(n: nat, a: nat, f: nat, r: nat, x: nat, inverse: nat) {
    && n >= 2 && n - 1 == f * r && PowerIs(a, n, n - 1, 1)
    && PowerIs(a, n, r, x) && (x + (n - 1)) * inverse % n == 1
  }

  /** Two exponents that give 1, one of them `f * r`, the other coprime to `f`: so does `r`. */
  lemma PowerAtCofactor(a: nat, n: nat, f: nat, r: nat, u: nat, v: nat, d: nat, p: nat)
    requires p >= 2 && n >= 2 && Power(a, n - 1) % p == 1 && Power(a, d) % p == 1
    requires n - 1 == f * r && u * f == 1 + v * d
    ensures Power(a, r) % p == 1
  {
    hide Power;
    var whole, part := u * (n - 1), r * v * d;
    PowerOfOne(a, n - 1, u, whole, p);
    PowerOfOne(a, d, r * v, part, p);
    SameExponent(f, r, u, v, d, n);
    PowersAdd(a, part, r);
    Known(Power(a, part), Power(a, r), Power(a, whole), p);
  }

  lemma Known(x: nat, y: nat, z: nat, p: nat)
    requires p >= 2 && x % p == 1 && z % p == 1 && z == x * y
    ensures y % p == 1
  {
    TimesOne(x, y, p);
  }

  /** Then `f` divides every exponent that gives 1 modulo a divisor of `n`. */
  lemma FactorDividesOrder(n: nat, a: nat, f: nat, r: nat, x: nat, inverse: nat, p: nat, d: nat)
    requires Witness(n, a, f, r, x, inverse) && IsPrime(f)
    requires p >= 2 && n % p == 0 && d > 0 && Power(a, d) % p == 1
    ensures d % f == 0
  {
    hide Power, IsPrime, Coprime;
    OneModDivisor(Power(a, n - 1), n, p);
    if d % f != 0 {
      PrimeCoprime(f, d);
      var u, v := Bezout(f, d);
      PowerAtCofactor(a, n, f, r, u, v, d, p);
      NoInverse(n, Power(a, r), inverse, p, x);
    }
  }

  lemma SameExponent(f: nat, r: nat, u: nat, v: nat, d: nat, n: nat)
    requires n >= 2 && n - 1 == f * r && u * f == 1 + v * d
    ensures u * (n - 1) == r * v * d + r
  {
    MulAssoc(u, f, r);
    Commutes(u * f, r);
    assert r * (u * f) == r + r * (v * d);
    MulAssoc(r, v, d);
  }

  lemma LessOne(n: nat, y: nat, p: nat)
    requires n > 0 && p >= 2 && n % p == 0 && y % p == 1
    ensures (y + (n - 1)) % p == 0
  {
    var k, l := n / p, y / p;
    assert n == k * p && y == l * p + 1;
    assert y + (n - 1) == (k + l) * p;
    MultipleOf(p, k + l);
  }

  lemma NoUnit(z: nat, inverse: nat, p: nat)
    requires p >= 2 && z % p == 0
    ensures z * inverse % p == 0
  {
    ModTimes(z, inverse, p);
    assert 0 * inverse == 0;
  }

  /** What is 1 modulo a divisor of `n` is, less 1, no unit modulo `n`. */
  lemma NoInverse(n: nat, x: nat, inverse: nat, p: nat, y: nat)
    requires n >= 2 && p >= 2 && n % p == 0 && x % p == 1 && y == x % n
    ensures (y + (n - 1)) * inverse % n != 1
  {
    ModOfMod(x, p, n);
    var z := y + (n - 1);
    LessOne(n, y, p);
    NoUnit(z, inverse, p);
    var w := z * inverse;
    if w % n == 1 {
      OneModDivisor(w, n, p);
    }
  }

  /** A prime factor of `n - 1` above the square root of `n` proves `n` prime. */
  lemma LargeFactor(n: nat, a: nat, f: nat, r: nat, x: nat, inverse: nat)
    requires Witness(n, a, f, r, x, inverse) && IsPrime(f) && n < f * f
    ensures IsPrime(n)
  {
    forall p: nat | 2 <= p < f && p < n
      ensures n % p != 0
    {
      if n % p == 0 {
        var d := SmallOrder(n, a, p);
        FactorDividesOrder(n, a, f, r, x, inverse, p, d);
        Remainder(d, f, 0, d);
      }
    }
    NoSmallDivisor(n, f);
  }

  /** So do two prime factors whose product is above it. */
  lemma TwoFactors(n: nat, a: nat, f: nat, r: nat, x: nat, inverse: nat, g: nat, s: nat, x': nat, inverse': nat)
    requires Witness(n, a, f, r, x, inverse) && Witness(n, a, g, s, x', inverse')
    requires IsPrime(f) && IsPrime(g) && f % g != 0 && n < (f * g) * (f * g)
    ensures IsPrime(n)
  {
    forall p: nat | 2 <= p < f * g && p < n
      ensures n % p != 0
    {
      if n % p == 0 {
        var d := SmallOrder(n, a, p);
        FactorDividesOrder(n, a, f, r, x, inverse, p, d);
        FactorDividesOrder(n, a, g, s, x', inverse', p, d);
        BothDivide(f, g, d);
      }
    }
    assert f * g >= 2 by {
      ProductAtLeast(f, g, 2);
    }
    NoSmallDivisor(n, f * g);
  }

  // ---------------------------------------------------------------- trial division

  /** No number from `d` below `limit` divides `n`. */
  ghost predicate NoneDivides(n: nat, d: nat, limit: nat) {
    forall k: nat | 0 < d <= k < limit :: n % k != 0
  }

  lemma NoneFrom(n: nat, limit: nat)
    ensures NoneDivides(n, limit, limit)
  {
  }

  lemma NoneLess(n: nat, d: nat, limit: nat)
    requires 0 < d && NoneDivides(n, d + 5, limit)
    requires n % d != 0 && n % (d + 1) != 0 && n % (d + 2) != 0 && n % (d + 3) != 0 && n % (d + 4) != 0
    ensures NoneDivides(n, d, limit)
  {
    forall k: nat | d <= k < limit
      ensures n % k != 0
    {
      if k < d + 5 {
        assert k == d || k == d + 1 || k == d + 2 || k == d + 3 || k == d + 4;
      }
    }
  }

  lemma SmallPrime(n: nat, limit: nat)
    requires n >= 2 && limit >= 2 && n < limit * limit && NoneDivides(n, 2, limit)
    ensures IsPrime(n)
  {
    NoSmallDivisor(n, limit);
  }
}
