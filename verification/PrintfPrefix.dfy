/** The alternate form: when a number printed with its base prefix can be read back. */
module PrintfPrefix {
  import opened Division
  import opened PrintfSpec

  // ---------------------------------------------------------------- digits and zeros

  predicate DigitIn(c: char, base: nat) {
    DigitValue(c) < base && (DigitValue(c) == 0 ==> c == '0')
  }

  predicate DigitsIn(s: string, base: nat) {
    forall i | 0 <= i < |s| :: DigitIn(s[i], base)
  }

  predicate AllZeros(s: string) {
    forall i | 0 <= i < |s| :: s[i] == '0'
  }

  lemma DigitCharIn(d: nat, base: nat, upper: bool)
    requires d < base <= 16
    ensures DigitIn(DigitChar(d, upper), base)
  {
  }

  lemma {:induction false} DigitsAreIn(value: nat, base: nat, upper: bool)
    requires 2 <= base <= 16
    ensures DigitsIn(Digits(value, base, upper), base)
    decreases value
  {
    DigitCharIn(LastDigit(value, base), base, upper);
    hide DigitIn, DigitChar, Quotient, LastDigit;
    if Quotient(value, base) != 0 {
      DigitsAreIn(Quotient(value, base), base, upper);
    }
  }

  lemma PaddedIn(value: nat, base: nat, prec: nat, width: nat, flags: Flags)
    requires 2 <= base <= 16
    ensures DigitsIn(Padded(NumberDigits(value, base, flags), prec, width, flags), base)
  {
    DigitsAreIn(value, base, flags.upper);
    assert DigitIn('0', base);
    hide Digits, DigitIn;
    var buf := NumberDigits(value, base, flags);
    assert DigitsIn(buf, base);
    hide NumberDigits;
    ZerosIn(buf, prec, base);
    ZerosIn(ZeroTo(buf, prec), width, base);
  }

  lemma ZerosIn(buf: string, n: nat, base: nat)
    requires DigitsIn(buf, base) && DigitIn('0', base)
    ensures DigitsIn(ZeroTo(buf, n), base)
  {
    hide DigitIn;
  }

  /** Digits are worth nothing exactly if all are zeros. */
  lemma {:induction false} WorthNothing(s: string, base: nat)
    requires base > 0 && DigitsIn(s, base)
    ensures Value(s, base) == 0 <==> AllZeros(s)
  {
    if |s| > 0 {
      WorthNothing(s[1..], base);
      JoinNothing(Value(s[1..], base), base, DigitValue(s[0]));
      assert s == [s[0]] + s[1..];
      hide DigitValue, Join;
    }
  }

  lemma JoinNothing(high: nat, base: nat, digit: nat)
    requires base > 0
    ensures Join(high, base, digit) == 0 <==> high == 0 && digit == 0
  {
  }

  /** The digits from `a` on count times a power of the base. */
  lemma {:induction false} ValueParts(a: string, b: string, base: nat)
    ensures Value(a + b, base) == Value(a, base) + Power(base, |a|) * Value(b, base)
    decreases |a|
  {
    hide DigitValue;
    if |a| == 0 {
      assert a + b == b;
    } else {
      ValueParts(a[1..], b, base);
      assert (a + b)[1..] == a[1..] + b && (a + b)[0] == a[0];
      var p, v := Power(base, |a| - 1), Value(b, base);
      MulAssoc(base, p, v);
      hide Value, Power;
      Distributes(base, Value(a[1..], base), p * v, DigitValue(a[0]));
    }
  }

  lemma Distributes(base: nat, x: nat, y: nat, digit: nat)
    ensures Join(x + y, base, digit) == Join(x, base, digit) + base * y
  {
  }

  /** Dropping the leading digits keeps the value exactly if they are zeros. */
  lemma DropKeepsIff(p: string, n: nat, base: nat)
    requires base > 0 && n <= |p| && DigitsIn(p, base)
    ensures Value(p[..n], base) == Value(p, base) <==> AllZeros(p[n..])
  {
    ValueParts(p[..n], p[n..], base);
    assert p == p[..n] + p[n..];
    WorthNothing(p[n..], base);
    ProductNothing(Power(base, n), Value(p[n..], base));
    hide Value, Power, DigitIn;
  }

  lemma ProductNothing(x: nat, y: nat)
    requires x > 0
    ensures x * y == 0 <==> y == 0
  {
  }

  // ---------------------------------------------------------------- the prefix

  function Prefix(base: nat, upper: bool): string {
    if base == 16 then (if upper then "0X" else "0x") else if base == 2 then "0b" else "0"
  }

  /** The text starts with the prefix, and what follows parses to the value. */
  predicate ReadsAs(text: string, base: nat, upper: bool, value: nat) {
    var p := Prefix(base, upper);
    |text| >= |p| && text[..|p|] == p && Parse(text[|p|..], base) == value
  }

  /** The letter of the prefix. */
  function Letter(base: nat, upper: bool): char {
    if base == 16 then (if upper then 'X' else 'x') else 'b'
  }

  lemma LetterIsNoDigit(base: nat, upper: bool)
    requires base == 2 || base == 16
    ensures !DigitIn(Letter(base, upper), base) && Letter(base, upper) != '0'
    ensures Prefix(base, upper) == ['0', Letter(base, upper)]
  {
  }

  /** The digits with their prefix, as far as it fits. */
  function Headed(r: string, base: nat, upper: bool): string {
    Put(if base == 16 || base == 2 then Put(r, Letter(base, upper)) else r, '0')
  }

  lemma BehindPrefix(rest: string, base: nat, upper: bool, value: nat)
    ensures ReadsAs(Prefix(base, upper) + rest, base, upper, value) <==> Parse(rest, base) == value
  {
    hide Prefix, Parse;
    var p := Prefix(base, upper);
    assert (p + rest)[..|p|] == p && (p + rest)[|p|..] == rest;
  }

  lemma ReversedTwo(r: string, c: char, d: char)
    ensures Reversed(r + [c] + [d]) == [d, c] + Reversed(r)
  {
    ReversedLast(r, c);
    ReversedLast(r + [c], d);
    hide Reversed;
    assert [d] + ([c] + Reversed(r)) == [d, c] + Reversed(r);
  }

  lemma HeadedWhole(r: string, base: nat, upper: bool)
    requires (base == 2 || base == 16) && |r| + 2 <= SCRATCH
    ensures Headed(r, base, upper) == r + [Letter(base, upper)] + ['0']
  {
    hide Letter;
  }

  lemma LetterFits(r: string, base: nat, upper: bool)
    requires (base == 2 || base == 16) && |r| + 2 <= SCRATCH
    ensures Reversed(Headed(r, base, upper)) == Prefix(base, upper) + Reversed(r)
  {
    hide *;
    LetterIsNoDigit(base, upper);
    HeadedWhole(r, base, upper);
    ReversedTwo(r, Letter(base, upper), '0');
  }

  lemma LetterCut(r: string, base: nat, upper: bool, value: nat)
    requires (base == 2 || base == 16) && SCRATCH - 1 <= |r| <= SCRATCH && DigitsIn(r, base)
    ensures !ReadsAs(Reversed(Headed(r, base, upper)), base, upper, value)
  {
    LetterIsNoDigit(base, upper);
    var c := Letter(base, upper);
    hide DigitIn, Letter, Prefix, Parse;
    if |r| + 1 == SCRATCH {
      assert Headed(r, base, upper) == r + [c];
      ReversedLast(r, c);
      assert Reversed(r + [c])[..2][0] == c;
    } else {
      assert Headed(r, base, upper) == r;
      ReversedAt(r, 1);
      assert DigitIn(r[|r| - 2], base) && Reversed(r)[..2][1] == r[|r| - 2];
    }
  }

  /** With a letter the text reads as prefix and digits exactly if both characters fit. */
  lemma LetterForm(r: string, base: nat, upper: bool, value: nat)
    requires (base == 2 || base == 16) && |r| <= SCRATCH && DigitsIn(r, base)
    ensures ReadsAs(Reversed(Headed(r, base, upper)), base, upper, value)
            <==> |r| + 2 <= SCRATCH && Value(r, base) == value
  {
    hide DigitsIn, Headed, Prefix, ReadsAs, Value, Parse;
    if |r| + 2 <= SCRATCH {
      ReversedParses(r, base);
      LetterFits(r, base, upper);
      BehindPrefix(Reversed(r), base, upper, value);
    } else {
      LetterCut(r, base, upper, value);
    }
  }

  lemma {:induction false} ReversedAt(s: string, k: nat)
    requires k < |s|
    ensures Reversed(s)[k] == s[|s| - 1 - k]
  {
    if |s| > 1 {
      ReversedAt(s[1..], if k < |s| - 1 then k else 0);
    }
  }

  /** In octal the prefix is a zero more, which padding may have put there. */
  lemma OctalForm(r: string, upper: bool, value: nat)
    requires |r| <= SCRATCH && DigitsIn(r, 8)
    ensures ReadsAs(Reversed(Headed(r, 8, upper)), 8, upper, value)
            <==> Value(r, 8) == value && (|r| == SCRATCH ==> r[SCRATCH - 1] == '0')
  {
    assert Prefix(8, upper) == "0";
    hide Prefix, Value, Parse, ReadsAs, DigitsIn;
    if |r| < SCRATCH {
      assert Headed(r, 8, upper) == r + ['0'];
      ReversedLast(r, '0');
      ReversedParses(r, 8);
      BehindPrefix(Reversed(r), 8, upper, value);
    } else {
      assert Headed(r, 8, upper) == r;
      OctalCut(r, upper, value);
    }
  }

  lemma OctalCut(r: string, upper: bool, value: nat)
    requires |r| == SCRATCH && DigitsIn(r, 8)
    ensures ReadsAs(Reversed(r), 8, upper, value) <==> Value(r, 8) == value && r[SCRATCH - 1] == '0'
  {
    hide Value, Parse, DigitIn;
    var n := SCRATCH - 1;
    assert r == r[..n] + [r[n]];
    ReversedLast(r[..n], r[n]);
    if r[n] == '0' {
      assert AllZeros(r[n..]);
      DropKeepsIff(r, n, 8);
      ReversedParses(r[..n], 8);
      BehindPrefix(Reversed(r[..n]), 8, upper, value);
    } else {
      assert Reversed(r)[..1][0] == r[n];
    }
  }

  lemma RoomIsPrefix(buf: string, base: nat, prec: nat, width: nat, flags: Flags)
    ensures var r := MakeRoom(buf, base, prec, width, flags); |r| <= |buf| && r == buf[..|r|]
  {
  }

  lemma PaddedFits(value: nat, base: nat, prec: nat, width: nat, flags: Flags)
    requires 2 <= base <= 16
    ensures |Padded(NumberDigits(value, base, flags), prec, width, flags)| <= SCRATCH
  {
    hide Digits;
  }

  lemma PaddedKeeps(value: nat, base: nat, prec: nat, width: nat, flags: Flags)
    requires value < WORD64 && (base == 2 || base == 8 || base == 16)
    ensures Value(Padded(NumberDigits(value, base, flags), prec, width, flags), base) == Kept(value, base)
  {
    var buf := NumberDigits(value, base, flags);
    DigitsKept(value, base, flags);
    hide NumberDigits, Value, Kept;
    ZeroToKeepsValue(buf, prec, base);
    ZeroToKeepsValue(ZeroTo(buf, prec), width, base);
    hide ZeroTo;
  }

  lemma HashedIs(buf: string, base: nat, prec: nat, width: nat, flags: Flags)
    requires flags.hash && !flags.plus && !flags.space
    ensures Scratch(buf, false, base, prec, width, flags)
            == Headed(MakeRoom(Padded(buf, prec, width, flags), base, prec, width, flags), base, flags.upper)
  {
    hide Padded, MakeRoom;
  }

  /** A number in the alternate form reads as its prefix and its value if and only if the digits that
      make room for the prefix are zeros and the prefix fits the scratch buffer. */
  lemma AlternateIff(value: nat, base: nat, prec: nat, width: nat, flags: Flags)
    requires value < WORD64 && (base == 2 || base == 8 || base == 16)
    requires flags.hash && !flags.plus && !flags.space
    ensures var p := Padded(NumberDigits(value, base, flags), prec, width, flags);
            var r := MakeRoom(p, base, prec, width, flags);
            var s := Scratch(NumberDigits(value, base, flags), false, base, prec, width, flags);
            |r| <= |p|
            && (ReadsAs(Reversed(s), base, flags.upper, Kept(value, base))
                <==> AllZeros(p[|r|..])
                     && (if base == 8 then |r| == SCRATCH ==> r[SCRATCH - 1] == '0' else |r| + 2 <= SCRATCH))
  {
    var buf := NumberDigits(value, base, flags);
    var p := Padded(buf, prec, width, flags);
    PaddedIn(value, base, prec, width, flags);
    PaddedFits(value, base, prec, width, flags);
    PaddedKeeps(value, base, prec, width, flags);
    HashedIs(buf, base, prec, width, flags);
    RoomIsPrefix(p, base, prec, width, flags);
    hide NumberDigits, Padded, MakeRoom, Scratch, Headed, Kept, ReadsAs, Value, DigitIn;
    var r := MakeRoom(p, base, prec, width, flags);
    DropKeepsIff(p, |r|, base);
    assert DigitsIn(r, base);
    if base == 8 {
      OctalForm(r, flags.upper, Kept(value, base));
    } else {
      LetterForm(r, base, flags.upper, Kept(value, base));
    }
  }

  // ---------------------------------------------------------------- in terms of the request

  /** How many digits padding makes of `n`. */
  function PaddedLength(n: nat, prec: nat, width: nat, flags: Flags): nat {
    var l := if !flags.left && n < Min(prec, SCRATCH) then Min(prec, SCRATCH) else n;
    if !flags.left && flags.zeroPad && l < Min(width, SCRATCH) then Min(width, SCRATCH) else l
  }

  /** How many of `l` digits go to make room for the prefix. */
  function Dropped(l: nat, base: nat, prec: nat, width: nat, flags: Flags): (k: nat)
    ensures k <= l
  {
    if !flags.precision && l > 0 && (l == prec || l == width) then (if base == 16 && l > 1 then 2 else 1) else 0
  }

  lemma {:induction false} LeadingDigit(value: nat, base: nat, upper: bool)
    requires 2 <= base <= 16 && value > 0
    ensures var d := Digits(value, base, upper); d[|d| - 1] != '0'
    decreases value
  {
    if Quotient(value, base) == 0 {
      SmallQuotient(value, base);
      DigitRoundTrip(value, upper);
      assert DigitValue('0') == 0;
    } else {
      LeadingDigit(Quotient(value, base), base, upper);
    }
    hide DigitChar, DigitValue;
  }

  lemma SmallQuotient(value: nat, base: nat)
    requires base >= 2 && Quotient(value, base) == 0
    ensures LastDigit(value, base) == value
  {
    DivMod(value, base);
    assert base * 0 == 0;
  }

  lemma PaddedShape(d: string, prec: nat, width: nat, flags: Flags)
    ensures var p := Padded(d, prec, width, flags);
            |p| == PaddedLength(|d|, prec, width, flags) && |p| >= |d| && p[..|d|] == d && AllZeros(p[|d|..])
  {
  }

  lemma DroppedIs(p: string, base: nat, prec: nat, width: nat, flags: Flags)
    ensures |MakeRoom(p, base, prec, width, flags)| == |p| - Dropped(|p|, base, prec, width, flags)
  {
  }

  /** An octal, hexadecimal or 32-bit binary number in the alternate form reads as its prefix and its
      value if and only if padding has supplied the digits that make room for the prefix, and a prefix
      with a letter fits the scratch buffer. */
  lemma AlternateShown(value: nat, base: nat, prec: nat, width: nat, flags: Flags)
    requires 0 < value < WORD64 && (base == 2 || base == 8 || base == 16) && (base == 2 ==> value < WORD32)
    requires flags.hash && !flags.plus && !flags.space
    ensures var n := |Digits(value, base, flags.upper)|;
            var l := PaddedLength(n, prec, width, flags);
            var k := Dropped(l, base, prec, width, flags);
            ReadsAs(Reversed(Scratch(NumberDigits(value, base, flags), false, base, prec, width, flags)), base,
                    flags.upper, value)
            <==> n + k <= l && (base != 8 ==> l - k + 2 <= SCRATCH)
  {
    hide *;
    WholeDigits(value, base, flags);
    PaddedFits(value, base, prec, width, flags);
    AlternateIff(value, base, prec, width, flags);
    RoomForDigits(Digits(value, base, flags.upper), base, prec, width, flags);
  }

  /** Padded digits, and what making room takes from them. */
  lemma RoomForDigits(d: string, base: nat, prec: nat, width: nat, flags: Flags)
    requires |d| > 0 && d[|d| - 1] != '0' && |Padded(d, prec, width, flags)| <= SCRATCH
    ensures var p := Padded(d, prec, width, flags);
            var r := MakeRoom(p, base, prec, width, flags);
            var l := PaddedLength(|d|, prec, width, flags);
            && |r| == l - Dropped(l, base, prec, width, flags) && |r| <= |p|
            && (AllZeros(p[|r|..]) <==> |d| <= |r|)
            && (|r| == SCRATCH && |d| < SCRATCH ==> r[SCRATCH - 1] == '0')
  {
    hide Padded, MakeRoom, Dropped, PaddedLength, AllZeros;
    var p := Padded(d, prec, width, flags);
    PaddedShape(d, prec, width, flags);
    DroppedIs(p, base, prec, width, flags);
    var r := MakeRoom(p, base, prec, width, flags);
    RoomIsPrefix(p, base, prec, width, flags);
    assert p[..|d|][|d| - 1] == d[|d| - 1];
    DroppedZeros(p, |d|, |r|);
    if |r| == SCRATCH {
      assert r == p;
    }
  }

  /** The digits are all there, start with a nonzero one, and leave a place in octal. */
  lemma WholeDigits(value: nat, base: nat, flags: Flags)
    requires 0 < value < WORD64 && (base == 2 || base == 8 || base == 16) && (base == 2 ==> value < WORD32)
    ensures var d := Digits(value, base, flags.upper);
            && NumberDigits(value, base, flags) == d && Kept(value, base) == value
            && d[|d| - 1] != '0' && |d| <= SCRATCH && (base == 8 ==> |d| < SCRATCH)
  {
    var d := Digits(value, base, flags.upper);
    DigitsFit(value, base, flags.upper);
    LeadingDigit(value, base, flags.upper);
    OctalIsShort(value, flags.upper);
    KeptWhole(value, base);
    hide Digits, Kept;
    assert d[..|d|] == d;
  }

  lemma KeptWhole(value: nat, base: nat)
    requires base == 2 ==> value < WORD32
    ensures Kept(value, base) == value
  {
    SmallMod(if base == 2 then value else 0, WORD32);
  }

  lemma DroppedZeros(p: string, n: nat, m: nat)
    requires 0 < n <= |p| && m <= |p| && p[n - 1] != '0' && AllZeros(p[n..])
    ensures AllZeros(p[m..]) <==> n <= m
    ensures n < |p| ==> p[|p| - 1] == '0'
  {
    if n <= m {
      assert p[m..] == p[n..][m - n..];
    } else {
      assert p[m..][n - 1 - m] == p[n - 1];
    }
    assert n < |p| ==> p[n..][|p| - 1 - n] == p[|p| - 1];
  }

  lemma OctalIsShort(value: nat, upper: bool)
    requires value < WORD64
    ensures |Digits(value, 8, upper)| < SCRATCH
  {
    DigitCount(value, 8, upper, 22);
    EightToTwentyTwo();
    hide Digits;
  }

  lemma EightToTwentyTwo()
    ensures Power(8, 22) == 73786976294838206464
  {
    hide Power;
    PowerOne(8);
    PowerSum(8, 1, 1, 8, 8);
    PowerSum(8, 2, 2, 64, 64);
    PowerSum(8, 4, 4, 4096, 4096);
    PowerSum(8, 2, 4, 64, 4096);
    PowerSum(8, 8, 8, 16777216, 16777216);
    PowerSum(8, 16, 6, 281474976710656, 262144);
  }
}
