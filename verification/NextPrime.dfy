/** The prime search behind the hash tables: trial division by a table of small primes and then
    by the numbers of a 210-wheel. */
module NextPrime {
  import opened Division
  import opened LargestPrime
  import opened Primes
  import opened Wrappers

  const SMALL_PRIMES: seq<nat> :=
    [0, 2, 3, 5, 7, 11, 13, 17]
    + [19, 23, 29, 31, 37, 41, 43, 47]
    + [53, 59, 61, 67, 71, 73, 79, 83]
    + [89, 97, 101, 103, 107, 109, 113, 127]
    + [131, 137, 139, 149, 151, 157, 163, 167]
    + [173, 179, 181, 191, 193, 197, 199, 211]

  /** The residues modulo 210 that 2, 3, 5 and 7 do not divide. */
  const INDICES: seq<nat> :=
    [1, 11, 13, 17, 19, 23, 29, 31]
    + [37, 41, 43, 47, 53, 59, 61, 67]
    + [71, 73, 79, 83, 89, 97, 101, 103]
    + [107, 109, 113, 121, 127, 131, 137, 139]
    + [143, 149, 151, 157, 163, 167, 169, 173]
    + [179, 181, 187, 191, 193, 197, 199, 209]

  /** The 48 increments of the unrolled trial-division loop. */
  const WHEEL: seq<nat> :=
    [10, 2, 4, 2, 4, 6, 2, 6]
    + [4, 2, 4, 6, 6, 2, 6, 4]
    + [2, 6, 4, 6, 8, 4, 2, 4]
    + [2, 4, 8, 6, 4, 6, 2, 4]
    + [6, 2, 6, 6, 4, 2, 4, 6]
    + [2, 6, 4, 2, 4, 2, 10, 2]

  predicate Coprime210(n: nat) {
    n % 2 != 0 && n % 3 != 0 && n % 5 != 0 && n % 7 != 0
  }

  /** `std::lower_bound`: the first index from `i` on whose element is not below `v`. */
  function LowerBound(s: seq<nat>, v: nat, i: nat): (r: nat)
    requires i <= |s|
    ensures i <= r <= |s| && (r < |s| ==> s[r] >= v) && forall k | i <= k < r :: s[k] < v
    decreases |s| - i
  {
    if i == |s| || s[i] >= v then i else LowerBound(s, v, i + 1)
  }

  // ---------------------------------------------------------------- the small primes

  /** Not divisible by a prime up to 13, or one of these. */
  predicate Sieved(n: nat) {
    n == 2 || n == 3 || n == 5 || n == 7 || n == 11 || n == 13
    || (Coprime210(n) && n % 11 != 0 && n % 13 != 0)
  }

  /** Below 17 squared, sieving by the primes up to 13 is exact. */
  lemma SievedIsPrime(n: nat)
    requires 2 <= n < 289
    ensures IsPrime(n) <==> Sieved(n)
  {
    if n < 17 {
      SmallCases(n);
    } else if Sieved(n) {
      forall d: nat | 2 <= d < 17
        ensures n % d != 0
      {
        if n % d == 0 {
          SmallMultiple(n, d);
        }
      }
      NoSmallDivisor(n, 17);
    }
  }

  lemma SmallCases(n: nat)
    requires 2 <= n < 17
    ensures IsPrime(n) <==> Sieved(n)
  {
    if Sieved(n) {
      forall d: nat | 2 <= d < n
        ensures n % d != 0
      {
      }
    } else {
      assert n % 2 == 0 || n % 3 == 0;
    }
  }

  lemma SmallMultiple(n: nat, d: nat)
    requires 2 <= d < 17 && n % d == 0
    ensures n % 2 == 0 || n % 3 == 0 || n % 5 == 0 || n % 7 == 0 || n % 11 == 0 || n % 13 == 0
  {
    if d % 2 == 0 {
      DividesTrans(2, d, n);
    } else if d % 3 == 0 {
      DividesTrans(3, d, n);
    } else if d == 5 || d == 7 || d == 11 || d == 13 {
    }
  }

  /** Entry `j` of the table is sieved, and no sieved number lies between it and the next. */
  predicate PrimesOk(j: nat)
    requires 1 <= j < 48
  {
    var p, next := SMALL_PRIMES[j], if j < 47 then SMALL_PRIMES[j + 1] else SMALL_PRIMES[j] + 1;
    && Sieved(p) && 2 <= p < next <= p + 14 && next <= 212 && (p == 2 ==> next == 3) && (p > 2 ==> p % 2 == 1)
    && Gap(p, 2, next) && Gap(p, 4, next) && Gap(p, 6, next)
    && Gap(p, 8, next) && Gap(p, 10, next) && Gap(p, 12, next)
  }

  predicate Gap(p: nat, n: nat, next: nat) {
    p + n < next ==> !Sieved(p + n)
  }

  lemma GapBetween(p: nat, next: nat, m: nat)
    requires p < m < next <= p + 14 && (p % 2 == 1 || next == p + 1)
    requires Gap(p, 2, next) && Gap(p, 4, next) && Gap(p, 6, next)
    requires Gap(p, 8, next) && Gap(p, 10, next) && Gap(p, 12, next)
    ensures !Sieved(m) || m <= 2
  {
    var n := m - p;
    if n == 2 || n == 4 || n == 6 || n == 8 || n == 10 || n == 12 {
      assert Gap(p, n, next);
    } else if p % 2 == 1 {
      OddSum(p, n);
    }
  }

  lemma SmallPrimes0()
    ensures PrimesOk(1) && PrimesOk(2) && PrimesOk(3)
  {
  }

  lemma SmallPrimes4()
    ensures PrimesOk(4) && PrimesOk(5) && PrimesOk(6) && PrimesOk(7)
  {
  }

  lemma SmallPrimes8()
    ensures PrimesOk(8) && PrimesOk(9) && PrimesOk(10) && PrimesOk(11)
  {
  }

  lemma SmallPrimes12()
    ensures PrimesOk(12) && PrimesOk(13) && PrimesOk(14) && PrimesOk(15)
  {
  }

  lemma SmallPrimes16()
    ensures PrimesOk(16) && PrimesOk(17) && PrimesOk(18) && PrimesOk(19)
  {
  }

  lemma SmallPrimes20()
    ensures PrimesOk(20) && PrimesOk(21) && PrimesOk(22) && PrimesOk(23)
  {
  }

  lemma SmallPrimes24()
    ensures PrimesOk(24) && PrimesOk(25) && PrimesOk(26) && PrimesOk(27)
  {
  }

  lemma SmallPrimes28()
    ensures PrimesOk(28) && PrimesOk(29) && PrimesOk(30) && PrimesOk(31)
  {
  }

  lemma SmallPrimes32()
    ensures PrimesOk(32) && PrimesOk(33) && PrimesOk(34) && PrimesOk(35)
  {
  }

  lemma SmallPrimes36()
    ensures PrimesOk(36) && PrimesOk(37) && PrimesOk(38) && PrimesOk(39)
  {
  }

  lemma SmallPrimes40()
    ensures PrimesOk(40) && PrimesOk(41) && PrimesOk(42) && PrimesOk(43)
  {
  }

  lemma SmallPrimes44()
    ensures PrimesOk(44) && PrimesOk(45) && PrimesOk(46) && PrimesOk(47)
  {
  }

  lemma TableAt(j: nat)
    requires 1 <= j < 48
    ensures PrimesOk(j)
  {
    hide *;
    match j / 4
    case 0 => SmallPrimes0();
    case 1 => SmallPrimes4();
    case 2 => SmallPrimes8();
    case 3 => SmallPrimes12();
    case 4 => SmallPrimes16();
    case 5 => SmallPrimes20();
    case 6 => SmallPrimes24();
    case 7 => SmallPrimes28();
    case 8 => SmallPrimes32();
    case 9 => SmallPrimes36();
    case 10 => SmallPrimes40();
    case _ => SmallPrimes44();
  }

  /** The table lists primes, and between neighbours there is none. */
  lemma TableEntry(j: nat)
    requires 1 <= j < 48
    ensures IsPrime(SMALL_PRIMES[j]) && SMALL_PRIMES[j] <= 211
    ensures j < 47 ==> SMALL_PRIMES[j] < SMALL_PRIMES[j + 1]
    ensures j < 47 ==> forall m: nat | SMALL_PRIMES[j] < m < SMALL_PRIMES[j + 1] :: !IsPrime(m)
  {
    TableAt(j);
    var p := SMALL_PRIMES[j];
    SievedIsPrime(p);
    if j < 47 {
      forall m: nat | p < m < SMALL_PRIMES[j + 1]
        ensures !IsPrime(m)
      {
        GapBetween(p, SMALL_PRIMES[j + 1], m);
        SievedIsPrime(m);
      }
    }
  }

  // ---------------------------------------------------------------- the wheel

  /** Entry `w` of the wheel starts at a coprime residue and skips none up to the next entry. */
  ghost predicate EntryOk(w: nat)
    requires w < 48
  {
    var r, next := INDICES[w], INDICES[w] + WHEEL[w];
    && Coprime210(r) && r < next <= r + 10
    && next == (if w < 47 then INDICES[w + 1] else 211)
    && Skipped(r, 2, next) && Skipped(r, 4, next) && Skipped(r, 6, next) && Skipped(r, 8, next)
  }

  predicate Skipped(r: nat, n: nat, next: nat) {
    r + n < next ==> !Coprime210(r + n)
  }

  lemma OddSum(r: nat, n: nat)
    requires r % 2 == 1 && (n == 1 || n == 3 || n == 5 || n == 7 || n == 9 || n == 11 || n == 13)
    ensures (r + n) % 2 == 0
  {
  }

  lemma SkippedBetween(r: nat, next: nat, s: nat)
    requires r < s < next <= r + 10 && r % 2 == 1
    requires Skipped(r, 2, next) && Skipped(r, 4, next) && Skipped(r, 6, next) && Skipped(r, 8, next)
    ensures !Coprime210(s)
  {
    var n := s - r;
    if n == 2 || n == 4 || n == 6 || n == 8 {
      assert Skipped(r, n, next);
    } else {
      OddSum(r, n);
    }
  }

  // The table is checked row by row.

  lemma WheelRow0()
    ensures EntryOk(0) && EntryOk(1) && EntryOk(2) && EntryOk(3)
    ensures EntryOk(4) && EntryOk(5) && EntryOk(6) && EntryOk(7)
  {
  }

  lemma WheelRow1()
    ensures EntryOk(8) && EntryOk(9) && EntryOk(10) && EntryOk(11)
    ensures EntryOk(12) && EntryOk(13) && EntryOk(14) && EntryOk(15)
  {
  }

  lemma WheelRow2()
    ensures EntryOk(16) && EntryOk(17) && EntryOk(18) && EntryOk(19)
    ensures EntryOk(20) && EntryOk(21) && EntryOk(22) && EntryOk(23)
  {
  }

  lemma WheelRow3()
    ensures EntryOk(24) && EntryOk(25) && EntryOk(26) && EntryOk(27)
    ensures EntryOk(28) && EntryOk(29) && EntryOk(30) && EntryOk(31)
  {
  }

  lemma WheelRow4()
    ensures EntryOk(32) && EntryOk(33) && EntryOk(34) && EntryOk(35)
    ensures EntryOk(36) && EntryOk(37) && EntryOk(38) && EntryOk(39)
  {
  }

  lemma WheelRow5()
    ensures EntryOk(40) && EntryOk(41) && EntryOk(42) && EntryOk(43)
    ensures EntryOk(44) && EntryOk(45) && EntryOk(46) && EntryOk(47)
  {
  }

  lemma WheelIs(w: nat)
    requires w < 48
    ensures EntryOk(w)
  {
    hide *;
    match w / 8
    case 0 => WheelRow0();
    case 1 => WheelRow1();
    case 2 => WheelRow2();
    case 3 => WheelRow3();
    case 4 => WheelRow4();
    case _ => WheelRow5();
  }

  lemma ResidueCoprime(k: nat, s: nat)
    ensures Coprime210(210 * k + s) <==> Coprime210(s)
  {
    ModAdd(2, 105 * k, s);
    ModAdd(3, 70 * k, s);
    ModAdd(5, 42 * k, s);
    ModAdd(7, 30 * k, s);
  }

  lemma SkippedFrom(k: nat, r: nat, next: nat, m: nat)
    requires next <= r + 10 && r % 2 == 1 && 210 * k + r < m < 210 * k + next
    requires Skipped(r, 2, next) && Skipped(r, 4, next) && Skipped(r, 6, next) && Skipped(r, 8, next)
    ensures !Coprime210(m)
  {
    hide Coprime210, Skipped;
    var s: nat := m - 210 * k;
    SkippedBetween(r, next, s);
    ResidueCoprime(k, s);
  }

  lemma NoneBetween(k: nat, w: nat, m: nat)
    requires w < 48 && EntryOk(w) && 210 * k + INDICES[w] < m < 210 * k + INDICES[w] + WHEEL[w]
    ensures !Coprime210(m)
  {
    SkippedFrom(k, INDICES[w], INDICES[w] + WHEEL[w], m);
  }

  lemma WheelFirst()
    ensures INDICES[0] == 1
  {
  }

  /** From one potential prime to the next, no number coprime to 210 is skipped. */
  lemma WheelEntry(k: nat, w: nat)
    requires w < 48
    ensures INDICES[w] < 210 && 0 < WHEEL[w] <= 10 && Coprime210(210 * k + INDICES[w])
    ensures INDICES[w] + WHEEL[w] == if w < 47 then INDICES[w + 1] else 210 + INDICES[0]
    ensures forall m: nat | 210 * k + INDICES[w] < m < 210 * k + INDICES[w] + WHEEL[w] :: !Coprime210(m)
  {
    hide Coprime210, Skipped;
    WheelIs(w);
    WheelFirst();
    ResidueCoprime(k, INDICES[w]);
    hide EntryOk;
    forall m: nat | 210 * k + INDICES[w] < m < 210 * k + INDICES[w] + WHEEL[w]
      ensures !Coprime210(m)
    {
      NoneBetween(k, w, m);
    }
  }

  // ---------------------------------------------------------------- the search

  /** `r` is the least prime at or above `n`, or 0 for 0. */
  ghost predicate LeastPrimeFrom(n: nat, r: nat) {
    if n == 0 then r == 0
    else IsPrime(r) && r >= n && forall m: nat | n <= m < r :: !IsPrime(m)
  }

  ghost predicate NoDivisorBelow(n: nat, i: nat) {
    forall d: nat | 2 <= d < i :: n % d != 0
  }

  lemma FromTable(n: nat)
    requires n <= 211
    ensures LowerBound(SMALL_PRIMES, n, 0) < 48
    ensures LeastPrimeFrom(n, SMALL_PRIMES[LowerBound(SMALL_PRIMES, n, 0)])
  {
    var i := LowerBound(SMALL_PRIMES, n, 0);
    TableEnds();
    if n > 0 {
      assert i > 0;
      TableEntry(i);
      if i > 1 {
        TableEntry(i - 1);
      }
    }
  }

  lemma TableEnds()
    ensures SMALL_PRIMES[0] == 0 && SMALL_PRIMES[1] == 2 && SMALL_PRIMES[5] == 11 && SMALL_PRIMES[47] == 211
  {
  }

  /** A number coprime to 210 has no divisor below 11. */
  lemma CoprimeStart(n: nat)
    requires Coprime210(n)
    ensures NoDivisorBelow(n, 11)
  {
    hide Coprime210;
    forall d: nat | 2 <= d < 11
      ensures n % d != 0
    {
      if n % d == 0 {
        CoprimePasses(n, d);
        SmallNotCoprime(d);
      }
    }
  }

  lemma SmallNotCoprime(d: nat)
    requires 2 <= d < 11
    ensures !Coprime210(d)
  {
    assert d == 2 || d == 3 || d == 4 || d == 5 || d == 6 || d == 7 || d == 8 || d == 9 || d == 10;
  }

  /** Trying the primes of the table one after the other leaves out no divisor. */
  lemma TableStep(n: nat, j: nat)
    requires 1 <= j < 47 && NoDivisorBelow(n, SMALL_PRIMES[j]) && n % SMALL_PRIMES[j] != 0
    ensures NoDivisorBelow(n, SMALL_PRIMES[j + 1])
  {
    TableEntry(j);
    var p, next := SMALL_PRIMES[j], SMALL_PRIMES[j + 1];
    forall d: nat | 2 <= d < next
      ensures n % d != 0
    {
      if n % d == 0 {
        var f := PrimeDivisor(d);
        DividesTrans(f, d, n);
      }
    }
  }

  /** Trying the numbers of the wheel one after the other leaves out no divisor. */
  lemma WheelStep(n: nat, i: nat, next: nat)
    requires 2 <= i < next && Coprime210(n) && NoDivisorBelow(n, i) && n % i != 0
    requires forall m: nat | i < m < next :: !Coprime210(m)
    ensures NoDivisorBelow(n, next)
  {
    forall d: nat | i < d < next
      ensures n % d != 0
    {
      if n % d == 0 {
        CoprimePasses(n, d);
      }
    }
  }

  /** Divisors of a number coprime to 210 are coprime to 210. */
  lemma CoprimePasses(n: nat, d: nat)
    requires d > 0 && n % d == 0 && Coprime210(n)
    ensures Coprime210(d)
  {
    if d % 2 == 0 {
      DividesTrans(2, d, n);
    } else if d % 3 == 0 {
      DividesTrans(3, d, n);
    } else if d % 5 == 0 {
      DividesTrans(5, d, n);
    } else if d % 7 == 0 {
      DividesTrans(7, d, n);
    }
  }

  lemma NotCoprimeIsComposite(m: nat)
    requires m > 7 && !Coprime210(m)
    ensures !IsPrime(m)
  {
    var c: nat := if m % 2 == 0 then 2 else if m % 3 == 0 then 3 else if m % 5 == 0 then 5 else 7;
    assert m % c == 0;
  }

  /** Stopping when the quotient drops below the divisor proves primality. */
  lemma StopIsPrime(n: nat, i: nat)
    requires n >= 2 && i >= 2 && NoDivisorBelow(n, i) && n / i < i
    ensures IsPrime(n)
  {
    var q := n / i;
    assert n < (q + 1) * i;
    GapAtLeast(q, i, i);
    NoSmallDivisor(n, i);
  }

  /** An exact quotient at or above the divisor proves compositeness. */
  lemma ExactIsComposite(n: nat, i: nat)
    requires i >= 2 && n / i >= i && n == n / i * i
    ensures !IsPrime(n)
  {
    MultipleOf(i, n / i);
    GapAtLeast(1, n / i, i);
  }

  /** The residues between the chosen candidates hold no prime above 7. */
  lemma SkippedAreComposite(k: nat, w: nat, n: nat)
    requires w < 48 && k > 0
    ensures forall m: nat | 210 * k + INDICES[w] < m < 210 * k + INDICES[w] + WHEEL[w] :: !IsPrime(m)
  {
    WheelEntry(k, w);
    forall m: nat | 210 * k + INDICES[w] < m < 210 * k + INDICES[w] + WHEEL[w]
      ensures !IsPrime(m)
    {
      NotCoprimeIsComposite(m);
    }
  }

  /** `L * k0 + indices[ind]`. */
  function Candidate(k: nat, w: nat): nat
    requires w < 48
  {
    210 * k + INDICES[w]
  }

  lemma MultipleIsComposite(k: nat)
    requires k > 0
    ensures !IsPrime(210 * k)
  {
    assert 210 * k % 2 == 0;
    assert !Coprime210(210 * k);
    hide IsPrime, Coprime210;
    NotCoprimeIsComposite(210 * k);
  }

  /** The candidate search starts at the first potential prime at or above `n`. */
  lemma StartOfSearch(n: nat, k: nat, w: nat)
    requires n > 211 && k == n / 210 && w == LowerBound(INDICES, n - k * 210, 0)
    ensures w < 48 && k > 0 && Candidate(k, w) >= n
    ensures forall m: nat | n <= m < Candidate(k, w) :: !IsPrime(m)
  {
    hide IsPrime, Coprime210;
    var r := n - k * 210;
    WheelLast();
    if w > 0 {
      SkippedAreComposite(k, w - 1, n);
      WheelEntry(k, w - 1);
    } else {
      WheelFirst();
      if r == 0 {
        MultipleIsComposite(k);
      }
    }
  }

  lemma WheelLast()
    ensures INDICES[47] == 209
  {
  }

  lemma CandidateStep(k: nat, w: nat)
    requires w < 48 && k > 0
    ensures Candidate(k, w) >= 211 && Coprime210(Candidate(k, w)) && WHEEL[w] > 0
    ensures Candidate(k, w) + WHEEL[w] == if w < 47 then Candidate(k, w + 1) else Candidate(k + 1, 0)
  {
    WheelEntry(k, w);
    FirstIndex(w);
    hide Coprime210, EntryOk;
  }

  lemma FirstIndex(w: nat)
    requires w < 48
    ensures INDICES[w] > 0
  {
    WheelIs(w);
    hide Skipped;
  }

  lemma SkippedUpTo(k: nat, w: nat, next: nat)
    requires w < 48 && k > 0 && next == Candidate(k, w) + WHEEL[w]
    ensures forall m: nat | Candidate(k, w) < m < next :: !IsPrime(m)
  {
    hide IsPrime;
    SkippedAreComposite(k, w, next);
  }

  /** Moving to the next candidate passes over no prime but the current candidate. */
  lemma NextCandidate(k: nat, w: nat)
    requires w < 48 && k > 0
    ensures var n, next := Candidate(k, w), if w < 47 then Candidate(k, w + 1) else Candidate(k + 1, 0);
            n < next && Coprime210(n) && n >= 211 && forall m: nat | n < m < next :: !IsPrime(m)
  {
    hide Coprime210, IsPrime;
    CandidateStep(k, w);
    hide Candidate;
    SkippedUpTo(k, w, Candidate(k, w) + WHEEL[w]);
  }

  lemma SearchStops(n0: nat, n: nat, limit: nat)
    requires IsPrime(limit) && n0 <= limit && forall m: nat | n0 <= m < n :: !IsPrime(m)
    ensures n <= limit
  {
  }

  /** The limit that the function tests for is the last request that a 64-bit prime answers. */
  lemma LimitIsExact(n0: nat)
    ensures n0 > LARGEST <==> forall p: nat | n0 <= p < 0x1_0000_0000_0000_0000 :: !IsPrime(p)
  {
    LargestIsPrime();
    hide IsPrime;
    forall p: nat | LARGEST < p < 0x1_0000_0000_0000_0000
      ensures !IsPrime(p)
    {
      NoneAbove(p);
    }
  }

  lemma LeastIsBelow(n0: nat, n: nat)
    requires n0 <= LARGEST && LeastPrimeFrom(n0, n)
    ensures n <= LARGEST
  {
    LargestIsPrime();
    hide IsPrime;
  }

  /** `__next_prime`: 0 for 0, else the least prime not below `n0`; `None` when that would not
      fit in 64 bits. */
  method NextPrime(n0: nat) returns (r: Option<nat>)
    ensures r.None? <==> n0 > LARGEST
    ensures r.None? <==> forall p: nat | n0 <= p < 0x1_0000_0000_0000_0000 :: !IsPrime(p)
    ensures r.Some? ==> LeastPrimeFrom(n0, r.value) && r.value <= LARGEST
  {
    LimitIsExact(n0);
    hide IsPrime;
    if n0 <= 211 {
      FromTable(n0);
      LeastIsBelow(n0, SMALL_PRIMES[LowerBound(SMALL_PRIMES, n0, 0)]);
      return Some(SMALL_PRIMES[LowerBound(SMALL_PRIMES, n0, 0)]);
    }
    if n0 > LARGEST {
      return None;
    }
    var n := Search(n0);
    LeastIsBelow(n0, n);
    return Some(n);
  }

  /** The search over the numbers coprime to 210. */
  method Search(n0: nat) returns (n: nat)
    requires n0 > 211
    ensures LeastPrimeFrom(n0, n)
  {
    var k0 := n0 / 210;
    var ind := LowerBound(INDICES, n0 - k0 * 210, 0);
    StartOfSearch(n0, k0, ind);
    hide IsPrime, Coprime210, LowerBound;
    hide Candidate;
    n := Candidate(k0, ind);
    ghost var limit := Euclid(n0);
    while true
      invariant k0 > 0 && ind < 48 && n == Candidate(k0, ind) >= n0
      invariant forall m: nat | n0 <= m < n :: !IsPrime(m)
      decreases limit - n
    {
      SearchStops(n0, n, limit);
      NextCandidate(k0, ind);
      var prime := TrialDivision(n);
      if prime {
        return;
      }
      ind := ind + 1;
      if ind == 48 {
        k0 := k0 + 1;
        ind := 0;
      }
      n := Candidate(k0, ind);
    }
  }

  /** The body of the candidate loop: is this potential prime a prime? */
  method TrialDivision(n: nat) returns (prime: bool)
    requires n >= 211 && Coprime210(n)
    ensures prime <==> IsPrime(n)
  {
    CoprimeStart(n);
    TableEnds();
    var j := 5;
    while j < 47
      invariant 5 <= j <= 47 && NoDivisorBelow(n, SMALL_PRIMES[j])
    {
      TableEntry(j);
      var p := SMALL_PRIMES[j];
      var q := n / p;
      if q < p {
        StopIsPrime(n, p);
        return true;
      }
      if n == q * p {
        ExactIsComposite(n, p);
        return false;
      }
      NotExact(n, p);
      TableStep(n, j);
      j := j + 1;
    }
    var i, w := 211, 0;
    ghost var k := 1;
    WheelFirst();
    while true
      invariant w < 48 && k > 0 && i == 210 * k + INDICES[w]
      invariant NoDivisorBelow(n, i)
      decreases n + 10 - i
    {
      var q := n / i;
      if q < i {
        StopIsPrime(n, i);
        return true;
      }
      if n == q * i {
        ExactIsComposite(n, i);
        return false;
      }
      NotExact(n, i);
      WheelEntry(k, w);
      WheelStep(n, i, i + WHEEL[w]);
      i := i + WHEEL[w];
      w := w + 1;
      if w == 48 {
        w := 0;
        k := k + 1;
      }
    }
  }

  lemma NotExact(n: nat, i: nat)
    requires i >= 2 && n / i >= i && n != n / i * i
    ensures n % i != 0 && i <= n
  {
    GapAtLeast(1, n / i, i);
  }
}
