/** What the formatter prints: numbers, fields, and whole format strings as plain text. */
module PrintfSpec {
  import opened Division

  /** Size of the scratch buffer for one number. */
  const SCRATCH: nat := 32
  const WORD32: nat := 0x1_0000_0000
  const WORD64: nat := 0x1_0000_0000_0000_0000

  datatype Flags = Flags(zeroPad: bool, left: bool, plus: bool, space: bool, hash: bool, upper: bool,
                         char8: bool, short: bool, long: bool, longLong: bool, precision: bool)

  const NO_FLAGS: Flags :=
    Flags(false, false, false, false, false, false, false, false, false, false, false)

  // ---------------------------------------------------------------- digits

  function DigitChar(d: nat, upper: bool): char
    requires d < 16
  {
    if d < 10 then ('0' as nat + d) as char
    else if upper then ('A' as nat + (d - 10)) as char
    else ('a' as nat + (d - 10)) as char
  }

  function DigitValue(c: char): nat {
    if '0' <= c <= '9' then c as nat - '0' as nat
    else if 'A' <= c <= 'F' then c as nat - 'A' as nat + 10
    else if 'a' <= c <= 'f' then c as nat - 'a' as nat + 10
    else 0
  }

  lemma DigitsInOrder(k: nat)
    requires k < 16
    ensures DigitValue("0123456789abcdef"[k]) == DigitValue("0123456789ABCDEF"[k]) == k
  {
  }

  lemma DigitRoundTrip(d: nat, upper: bool)
    requires d < 16
    ensures DigitValue(DigitChar(d, upper)) == d
  {
  }

  function LastDigit(value: nat, base: nat): (r: nat)
    requires base > 0
    ensures r < base
  {
    value % base
  }

  function Quotient(value: nat, base: nat): (r: nat)
    requires base > 0
    ensures base >= 2 && r != 0 ==> r < value
  {
    assert base >= 2 && value / base != 0 ==> value / base < value by {
      if base >= 2 && value / base != 0 {
        QuotientSmaller(value, base);
      }
    }
    value / base
  }

  lemma QuotientSmaller(value: nat, base: nat)
    requires base >= 2 && value / base != 0
    ensures value / base < value
  {
    GapAtLeast(1, base, value / base);
  }

  /** Digits of a value, the least significant first, as the scratch buffer holds them. */
  function Digits(value: nat, base: nat, upper: bool): (r: string)
    requires 2 <= base <= 16
    ensures |r| > 0
    decreases value
  {
    [DigitChar(LastDigit(value, base), upper)]
    + if Quotient(value, base) == 0 then "" else Digits(Quotient(value, base), base, upper)
  }

  /** A number with one more digit behind. */
  function Join(high: nat, base: nat, digit: nat): nat {
    base * high + digit
  }

  /** What such a buffer is worth. */
  function Value(buf: string, base: nat): nat {
    if |buf| == 0 then 0 else Join(Value(buf[1..], base), base, DigitValue(buf[0]))
  }

  /** The printed digits parse back to the value. */
  lemma {:induction false} DigitsParseBack(value: nat, base: nat, upper: bool)
    requires 2 <= base <= 16
    ensures Value(Digits(value, base, upper), base) == value
    decreases value
  {
    hide Digits, Value, Join, Quotient, LastDigit;
    DigitsStep(value, base, upper);
    DivMod(value, base);
    if Quotient(value, base) != 0 {
      DigitsParseBack(Quotient(value, base), base, upper);
    }
  }

  lemma DivMod(value: nat, base: nat)
    requires base > 0
    ensures value == Join(Quotient(value, base), base, LastDigit(value, base))
  {
  }

  function RestOf(value: nat, base: nat, upper: bool): string
    requires 2 <= base <= 16
  {
    if Quotient(value, base) == 0 then "" else Digits(Quotient(value, base), base, upper)
  }

  lemma DigitsStep(value: nat, base: nat, upper: bool)
    requires 2 <= base <= 16
    ensures Digits(value, base, upper) == [DigitChar(LastDigit(value, base), upper)] + RestOf(value, base, upper)
    ensures Value(Digits(value, base, upper), base)
            == Join(Value(RestOf(value, base, upper), base), base, LastDigit(value, base))
    ensures Quotient(value, base) == 0 ==> Value(RestOf(value, base, upper), base) == 0
  {
    hide DigitChar, DigitValue, Join, Quotient, LastDigit;
    DigitRoundTrip(LastDigit(value, base), upper);
    ValueCons(DigitChar(LastDigit(value, base), upper), RestOf(value, base, upper), base);
  }

  lemma ValueCons(c: char, rest: string, base: nat)
    ensures Value([c] + rest, base) == Join(Value(rest, base), base, DigitValue(c))
  {
    hide DigitValue, Join;
    assert ([c] + rest)[1..] == rest;
  }

  /** A value has at most `n` digits exactly if it is below the n-th power of the base. */
  lemma {:induction false} DigitCount(value: nat, base: nat, upper: bool, n: nat)
    requires 2 <= base <= 16 && n > 0
    ensures |Digits(value, base, upper)| <= n <==> value < Power(base, n)
    decreases n
  {
    QuotientBelow(value, base, n);
    DigitsStep(value, base, upper);
    hide Quotient, LastDigit, Digits, Value, Power, DigitChar, Join;
    if n > 1 && Quotient(value, base) != 0 {
      DigitCount(Quotient(value, base), base, upper, n - 1);
    }
  }

  lemma QuotientBelow(value: nat, base: nat, n: nat)
    requires base >= 2 && n > 0
    ensures Quotient(value, base) < Power(base, n - 1) <==> value < Power(base, n)
    ensures Power(base, 0) == 1 && Power(base, n - 1) > 0
  {
    QuotientLess(value, base, Quotient(value, base), LastDigit(value, base), Power(base, n - 1));
  }

  lemma QuotientLess(value: nat, base: nat, q: nat, r: nat, p: nat)
    requires r < base && value == q * base + r
    ensures q < p <==> value < base * p
  {
    if q < p {
      GapAtLeast(q, p, base);
    } else if p < q {
      GapAtLeast(p, q, base);
    }
  }

  // ---------------------------------------------------------------- numbers

  function Min(a: nat, b: nat): nat {
    if a < b then a else b
  }

  function Repeat(c: char, n: int): (r: string)
    ensures |r| == (if n > 0 then n else 0) && forall i | 0 <= i < |r| :: r[i] == c
  {
    seq(if n > 0 then n else 0, _ => c)
  }

  function Reversed(s: string): (r: string)
    ensures |r| == |s|
  {
    if |s| == 0 then "" else Reversed(s[1..]) + [s[0]]
  }

  /** Appending to the scratch buffer, which ignores what does not fit. */
  function Put(buf: string, c: char): (r: string) {
    if |buf| < SCRATCH then buf + [c] else buf
  }

  function Capped(s: string): (r: string)
    ensures |r| <= SCRATCH
  {
    s[..Min(|s|, SCRATCH)]
  }

  /** Leading zeros up to `n` places, as far as they fit. */
  function ZeroTo(buf: string, n: nat): (r: string)
    ensures |r| == if |buf| < Min(n, SCRATCH) then Min(n, SCRATCH) else |buf|
  {
    buf + Repeat('0', Min(n, SCRATCH) - |buf|)
  }

  /** Room made for the base prefix when padding has filled the field. */
  function MakeRoom(buf: string, base: nat, prec: nat, width: nat, flags: Flags): string {
    if !flags.precision && |buf| > 0 && (|buf| == prec || |buf| == width) then
      var c := buf[..|buf| - 1];
      if |c| > 0 && base == 16 then c[..|c| - 1] else c
    else buf
  }

  /** The `0x`, `0b` or `0` of the alternate form, written backwards. */
  function Hashed(buf: string, base: nat, prec: nat, width: nat, flags: Flags): string {
    if !flags.hash then buf
    else
      var b := MakeRoom(buf, base, prec, width, flags);
      Put(if base == 16 then Put(b, if flags.upper then 'X' else 'x') else if base == 2 then Put(b, 'b') else b, '0')
  }

  function WithSign(buf: string, negative: bool, flags: Flags): string {
    if negative then Put(buf, '-') else if flags.plus then Put(buf, '+') else if flags.space then Put(buf, ' ') else buf
  }

  /** A sign takes one place of a zero-padded field. */
  function FieldWidth(width: nat, negative: bool, flags: Flags): nat {
    if !flags.left && width != 0 && flags.zeroPad && (negative || flags.plus || flags.space) then width - 1 else width
  }

  function Padded(buf: string, prec: nat, width: nat, flags: Flags): string {
    if flags.left then buf else if flags.zeroPad then ZeroTo(ZeroTo(buf, prec), width) else ZeroTo(buf, prec)
  }

  /** The scratch buffer before it is printed backwards. */
  function Scratch(buf: string, negative: bool, base: nat, prec: nat, width: nat, flags: Flags): string {
    var w := FieldWidth(width, negative, flags);
    WithSign(Hashed(Padded(buf, prec, w, flags), base, prec, w, flags), negative, flags)
  }

  /** The buffer printed backwards in a field. */
  function Field(buf: string, width: nat, flags: Flags): string {
    (if !flags.left && !flags.zeroPad then Repeat(' ', width - |buf|) else "") + Reversed(buf)
    + (if flags.left then Repeat(' ', width - |buf|) else "")
  }

  function NumberFlags(value: nat, flags: Flags): Flags {
    if value == 0 then flags.(hash := false) else flags
  }

  function NumberDigits(value: nat, base: nat, flags: Flags): string
    requires 2 <= base <= 16
  {
    if !flags.precision || value != 0 then Capped(Digits(value, base, flags.upper)) else ""
  }

  function Number(value: nat, negative: bool, base: nat, prec: nat, width: nat, flags: Flags): string
    requires 2 <= base <= 16
  {
    var fl := NumberFlags(value, flags);
    Field(Scratch(NumberDigits(value, base, fl), negative, base, prec, width, fl), FieldWidth(width, negative, fl), fl)
  }

  // ---------------------------------------------------------------- what numbers promise

  lemma PowersOf2()
    ensures Power(2, SCRATCH) == 4294967296
  {
    hide Power;
    PowerOne(2);
    PowerSum(2, 1, 1, 2, 2);
    PowerSum(2, 2, 2, 4, 4);
    PowerSum(2, 4, 4, 16, 16);
    PowerSum(2, 8, 8, 256, 256);
    PowerSum(2, 16, 16, 65536, 65536);
  }

  lemma PowersOf8()
    ensures Power(8, SCRATCH) == 79228162514264337593543950336
  {
    hide Power;
    PowerOne(8);
    PowerSum(8, 1, 1, 8, 8);
    PowerSum(8, 2, 2, 64, 64);
    PowerSum(8, 4, 4, 4096, 4096);
    PowerSum(8, 8, 8, 16777216, 16777216);
    PowerSum(8, 16, 16, 281474976710656, 281474976710656);
  }

  lemma PowersOf10()
    ensures Power(10, SCRATCH) == 100000000000000000000000000000000
  {
    hide Power;
    PowerOne(10);
    PowerSum(10, 1, 1, 10, 10);
    PowerSum(10, 2, 2, 100, 100);
    PowerSum(10, 4, 4, 10000, 10000);
    PowerSum(10, 8, 8, 100000000, 100000000);
    PowerSum(10, 16, 16, 10000000000000000, 10000000000000000);
  }

  lemma PowersOf16()
    ensures Power(16, SCRATCH) == 340282366920938463463374607431768211456
  {
    hide Power;
    PowerOne(16);
    PowerSum(16, 1, 1, 16, 16);
    PowerSum(16, 2, 2, 256, 256);
    PowerSum(16, 4, 4, 65536, 65536);
    PowerSum(16, 8, 8, 4294967296, 4294967296);
    PowerSum(16, 16, 16, 18446744073709551616, 18446744073709551616);
  }

  lemma PowersOfBases()
    ensures WORD64 <= Power(8, SCRATCH) && WORD64 <= Power(10, SCRATCH) && WORD64 <= Power(16, SCRATCH)
    ensures Power(2, SCRATCH) == WORD32
  {
    hide Power;
    PowersOf2();
    PowersOf8();
    PowersOf10();
    PowersOf16();
  }

  /** The digits of every octal, decimal and hexadecimal value fit the scratch buffer; binary ones
      do exactly below two to the 32. */
  lemma DigitsFit(value: nat, base: nat, upper: bool)
    requires value < WORD64 && (base == 2 || base == 8 || base == 10 || base == 16)
    ensures |Digits(value, base, upper)| <= SCRATCH <==> base != 2 || value < WORD32
  {
    PowersOfBases();
    DigitCount(value, base, upper, SCRATCH);
    hide Digits, Power;
  }

  lemma CutValue(value: nat, base: nat, upper: bool, n: nat)
    requires 2 <= base <= 16 && 0 < n <= |Digits(value, base, upper)|
    ensures |RestOf(value, base, upper)| == |Digits(value, base, upper)| - 1
    ensures Value(Digits(value, base, upper)[..n], base)
            == Join(Value(RestOf(value, base, upper)[..n - 1], base), base, LastDigit(value, base))
  {
    hide Join, Digits, DigitChar, DigitValue, Value, RestOf, Quotient, LastDigit;
    DigitsStep(value, base, upper);
    var d, low := Digits(value, base, upper), RestOf(value, base, upper)[..n - 1];
    assert d[..n] == [DigitChar(LastDigit(value, base), upper)] + low;
    DigitRoundTrip(LastDigit(value, base), upper);
    ValueCons(DigitChar(LastDigit(value, base), upper), low, base);
  }

  /** The value modulo the n-th power of the base. */
  function Low(value: nat, base: nat, n: nat): nat
    requires base > 0
  {
    value % Power(base, n)
  }

  lemma LowNothing(value: nat, base: nat, n: nat)
    requires base > 0
    ensures Low(value, base, 0) == 0 && Low(0, base, n) == 0
  {
    assert value % 1 == 0;
    SmallMod(0, Power(base, n));
  }

  lemma LowStep(value: nat, base: nat, n: nat)
    requires base >= 2 && n > 0
    ensures Low(value, base, n) == Join(Low(Quotient(value, base), base, n - 1), base, LastDigit(value, base))
  {
    var q, r, p := Quotient(value, base), LastDigit(value, base), Power(base, n - 1);
    DivMod(value, base);
    ModOfProduct(value, r, base, q, p, q / p, q % p);
  }

  lemma ModOfProduct(value: nat, r: nat, base: nat, q: nat, p: nat, k: nat, s: nat)
    requires r < base && s < p && value == base * q + r && q == p * k + s
    ensures base * p > 0 && value % (base * p) == base * s + r
  {
    Regrouped(value, r, base, q, p, k, s);
    GapAtLeast(s, p, base);
    Commutes(base, p);
    Commutes(base, s);
    Remainder(value, base * p, k, base * s + r);
  }

  lemma Regrouped(value: nat, r: nat, base: nat, q: nat, p: nat, k: nat, s: nat)
    requires value == base * q + r && q == p * k + s
    ensures value == k * (base * p) + (base * s + r)
  {
    assert base * q == base * s + base * (p * k);
    MulAssoc(base, p, k);
    Commutes(base * p, k);
  }

  /** The first `n` digits are worth the value modulo the n-th power of the base. */
  lemma {:induction false} DigitsCut(value: nat, base: nat, upper: bool, n: nat)
    requires 2 <= base <= 16 && n <= |Digits(value, base, upper)|
    ensures Value(Digits(value, base, upper)[..n], base) == Low(value, base, n)
    decreases n
  {
    hide Digits, Value, Low, Join, DigitChar, Quotient, LastDigit;
    EmptyValue(base);
    LowNothing(value, base, 0);
    if n > 0 {
      CutValue(value, base, upper, n);
      LowStep(value, base, n);
      if Quotient(value, base) == 0 {
        LowNothing(0, base, n - 1);
      } else {
        DigitsCut(Quotient(value, base), base, upper, n - 1);
      }
    }
  }

  lemma {:induction false} ZerosAddNothing(buf: string, n: nat, base: nat)
    ensures Value(buf + Repeat('0', n), base) == Value(buf, base)
    decreases |buf|, n
  {
    if |buf| > 0 {
      assert (buf + Repeat('0', n))[1..] == buf[1..] + Repeat('0', n);
      ZerosAddNothing(buf[1..], n, base);
    } else if n > 0 {
      assert "" + Repeat('0', n) == ['0'] + ("" + Repeat('0', n - 1));
      ZerosAddNothing("", n - 1, base);
      ValueCons('0', "" + Repeat('0', n - 1), base);
    } else {
      assert "" + Repeat('0', 0) == "";
    }
  }

  /** What the scratch buffer can hold of a value: of a binary one the low 32 bits. */
  function Kept(value: nat, base: nat): nat {
    if base == 2 then value % WORD32 else value
  }

  lemma DigitsKept(value: nat, base: nat, flags: Flags)
    requires value < WORD64 && (base == 2 || base == 8 || base == 10 || base == 16)
    ensures Value(NumberDigits(value, base, flags), base) == Kept(value, base)
  {
    hide Digits, Value, Power, Low, Capped, Kept;
    EmptyValue(base);
    CappedKept(value, base, flags.upper);
    NothingKept(base);
  }

  lemma NothingKept(base: nat)
    ensures Kept(0, base) == 0
  {
  }

  lemma CappedKept(value: nat, base: nat, upper: bool)
    requires value < WORD64 && (base == 2 || base == 8 || base == 10 || base == 16)
    ensures Value(Capped(Digits(value, base, upper)), base) == Kept(value, base)
  {
    hide Digits, Value, Power, Low;
    var d := Digits(value, base, upper);
    DigitsFit(value, base, upper);
    if |d| <= SCRATCH {
      DigitsParseBack(value, base, upper);
      assert Capped(d) == d;
    } else {
      DigitsCut(value, base, upper, SCRATCH);
      LowWord(value);
    }
  }

  lemma LowWord(value: nat)
    ensures Low(value, 2, SCRATCH) == value % WORD32
  {
    PowersOfBases();
  }

  /** Without sign and prefix flags, precision and zero padding do not change the value. */
  lemma PaddingKeepsValue(value: nat, base: nat, prec: nat, width: nat, flags: Flags)
    requires value < WORD64 && (base == 2 || base == 8 || base == 10 || base == 16)
    requires !flags.hash && !flags.plus && !flags.space
    ensures Value(Scratch(NumberDigits(value, base, flags), false, base, prec, width, flags), base)
            == Kept(value, base)
  {
    var buf := NumberDigits(value, base, flags);
    DigitsKept(value, base, flags);
    hide NumberDigits, Value, Kept;
    ZeroToKeepsValue(buf, prec, base);
    ZeroToKeepsValue(ZeroTo(buf, prec), FieldWidth(width, false, flags), base);
    hide ZeroTo;
  }

  lemma EmptyValue(base: nat)
    ensures Value("", base) == 0
  {
  }

  lemma ZeroToKeepsValue(buf: string, n: nat, base: nat)
    ensures Value(ZeroTo(buf, n), base) == Value(buf, base)
  {
    var k := Min(n, SCRATCH) - |buf|;
    if k > 0 {
      ZerosAddNothing(buf, k, base);
    } else {
      assert buf + Repeat('0', k) == buf;
    }
  }

  /** Reading printed digits from left to right. */
  function Parse(text: string, base: nat): nat {
    if |text| == 0 then 0 else Join(Parse(text[..|text| - 1], base), base, DigitValue(text[|text| - 1]))
  }

  lemma ParseNothing(base: nat)
    ensures Parse("", base) == 0
  {
  }

  lemma ParseLast(s: string, c: char, base: nat)
    ensures Parse(s + [c], base) == Join(Parse(s, base), base, DigitValue(c))
  {
    hide DigitValue, Join;
    assert (s + [c])[..|s|] == s;
  }

  lemma {:induction false} ReversedParses(buf: string, base: nat)
    ensures Parse(Reversed(buf), base) == Value(buf, base)
  {
    hide DigitValue, Join, Parse;
    if |buf| > 0 {
      ReversedParses(buf[1..], base);
      ParseLast(Reversed(buf[1..]), buf[0], base);
    } else {
      ParseNothing(base);
    }
  }

  /** Flags that bear neither on what is printed nor on where. */
  predicate Unflagged(flags: Flags) {
    !flags.zeroPad && !flags.left && !flags.plus && !flags.space && !flags.hash && !flags.precision
  }

  /** An unflagged number prints its digits, and they parse back to it. */
  lemma PlainNumberParsesBack(value: nat, base: nat, flags: Flags)
    requires value < WORD64 && (base == 2 || base == 8 || base == 10 || base == 16)
    requires Unflagged(flags)
    ensures Parse(Number(value, false, base, 0, 0, flags), base) == Kept(value, base)
  {
    assert NumberFlags(value, flags) == flags;
    PaddingKeepsValue(value, base, 0, 0, flags);
    var s := Scratch(NumberDigits(value, base, flags), false, base, 0, 0, flags);
    ReversedParses(s, base);
    hide Scratch, NumberDigits, Parse, Value, Kept;
    assert Field(s, 0, flags) == Reversed(s) by {
      assert Repeat(' ', 0 - |s|) + Reversed(s) + "" == Reversed(s);
    }
  }

  lemma {:induction false} ReversedLast(s: string, c: char)
    ensures Reversed(s + [c]) == [c] + Reversed(s)
  {
    if |s| == 0 {
      assert s + [c] == [c];
    } else {
      ReversedLast(s[1..], c);
      assert (s + [c])[1..] == s[1..] + [c];
    }
  }

  /** An unflagged negative number prints a minus sign and the digits of its magnitude. */
  lemma NegativeParsesBack(value: nat, flags: Flags)
    requires value < WORD64 && Unflagged(flags)
    ensures var t := Number(value, true, 10, 0, 0, flags);
            |t| > 0 && t[0] == '-' && Parse(t[1..], 10) == value
  {
    assert NumberFlags(value, flags) == flags;
    var buf := NumberDigits(value, 10, flags);
    DecimalDigits(value, flags.upper);
    assert |buf| < SCRATCH by {
      hide Digits;
    }
    DigitsKept(value, 10, flags);
    hide Digits, NumberDigits, Value, Parse, Kept;
    assert Kept(value, 10) == value by {
      DecimalKept(value);
    }
    SignedScratch(buf, flags);
    hide Scratch, Field;
    SignedField(buf, flags);
    ReversedParses(buf, 10);
    assert (['-'] + Reversed(buf))[1..] == Reversed(buf);
  }

  lemma DecimalKept(value: nat)
    ensures Kept(value, 10) == value
  {
  }

  lemma SignedScratch(buf: string, flags: Flags)
    requires |buf| < SCRATCH && Unflagged(flags)
    ensures Scratch(buf, true, 10, 0, 0, flags) == buf + ['-']
  {
  }

  lemma SignedField(buf: string, flags: Flags)
    requires Unflagged(flags)
    ensures Field(buf + ['-'], 0, flags) == ['-'] + Reversed(buf)
  {
    ReversedLast(buf, '-');
    hide Reversed;
    assert Repeat(' ', 0 - |buf + ['-']|) == "";
  }

  /** The scratch buffer is never exceeded. */
  lemma ScratchFits(buf: string, negative: bool, base: nat, prec: nat, width: nat, flags: Flags)
    requires |buf| <= SCRATCH
    ensures |Scratch(buf, negative, base, prec, width, flags)| <= SCRATCH
  {
  }

  /** A negative decimal number loses its sign exactly when padding has filled the scratch buffer. */
  lemma SignShownIff(value: nat, prec: nat, width: nat, flags: Flags)
    requires value < WORD64 && !flags.hash
    ensures var s := Scratch(NumberDigits(value, 10, flags), true, 10, prec, width, flags);
            |s| > 0 && s[|s| - 1] == '-' <==> flags.left || (prec < SCRATCH && (flags.zeroPad ==> width <= SCRATCH))
  {
    var buf := NumberDigits(value, 10, flags);
    DecimalDigits(value, flags.upper);
    hide Digits;
    assert |buf| < SCRATCH && forall i | 0 <= i < |buf| :: buf[i] != '-';
    hide NumberDigits;
  }

  lemma {:induction false} DecimalDigits(value: nat, upper: bool)
    requires value < WORD64
    ensures |Digits(value, 10, upper)| < SCRATCH
    ensures forall i | 0 <= i < |Digits(value, 10, upper)| :: '0' <= Digits(value, 10, upper)[i] <= '9'
  {
    DigitCount(value, 10, upper, 20);
    TenToTwenty();
    DecimalOnly(value, upper);
    hide Digits;
  }

  lemma TenToTwenty()
    ensures Power(10, 20) == 100_000_000_000_000_000_000
  {
    hide Power;
    PowerOne(10);
    PowerSum(10, 1, 1, 10, 10);
    PowerSum(10, 2, 2, 100, 100);
    PowerSum(10, 1, 4, 10, 10000);
    PowerSum(10, 5, 5, 100000, 100000);
    PowerSum(10, 10, 10, 10000000000, 10000000000);
  }

  lemma {:induction false} DecimalOnly(value: nat, upper: bool)
    ensures forall i | 0 <= i < |Digits(value, 10, upper)| :: '0' <= Digits(value, 10, upper)[i] <= '9'
    decreases value
  {
    hide Quotient, LastDigit;
    if Quotient(value, 10) != 0 {
      DecimalOnly(Quotient(value, 10), upper);
    }
  }

  /** A field is at least as wide as asked, except that zero padding stops at the scratch buffer. */
  lemma NumberFillsField(value: nat, negative: bool, base: nat, prec: nat, width: nat, flags: Flags)
    requires 2 <= base <= 16
    ensures |Number(value, negative, base, prec, width, flags)|
            >= if flags.zeroPad && !flags.left then Min(width, SCRATCH) else width
  {
    var fl := NumberFlags(value, flags);
    hide NumberDigits, Reversed;
    var buf := NumberDigits(value, base, fl);
    if fl.zeroPad && !fl.left {
      ZeroPadFills(buf, negative, base, prec, width, fl);
    }
    hide Scratch;
  }

  lemma ZeroPadFills(buf: string, negative: bool, base: nat, prec: nat, width: nat, flags: Flags)
    requires flags.zeroPad && !flags.left
    ensures |Scratch(buf, negative, base, prec, width, flags)| >= Min(width, SCRATCH)
  {
    var w := FieldWidth(width, negative, flags);
    PaddedFills(buf, prec, w, flags);
    HashedFills(Padded(buf, prec, w, flags), base, prec, w, flags);
    hide Padded, Hashed;
  }

  lemma PaddedFills(buf: string, prec: nat, width: nat, flags: Flags)
    requires flags.zeroPad && !flags.left
    ensures |Padded(buf, prec, width, flags)| >= Min(width, SCRATCH)
  {
    hide ZeroTo;
  }

  /** The prefix takes no less than what makes room for it. */
  lemma HashedFills(buf: string, base: nat, prec: nat, width: nat, flags: Flags)
    ensures |Hashed(buf, base, prec, width, flags)| >= Min(|buf|, SCRATCH)
  {
  }
}
