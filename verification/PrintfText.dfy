/** What a directive shows, and where in its field. */
module PrintfText {
  import opened Division
  import opened PrintfFormat
  import opened PrintfPrefix
  import opened PrintfSpec
  import opened Wrappers

  // ---------------------------------------------------------------- columns

  predicate Blanks(s: string) {
    forall i | 0 <= i < |s| :: s[i] == ' '
  }

  /** `body` in a field: as wide as asked, if it is not wider itself, with spaces on one side only, behind
      the body if `left`, else in front. */
  predicate InColumns(text: string, body: string, width: nat, left: bool) {
    var n := |body|;
    && |text| == (if n < width then width else n)
    && if left then text[..n] == body && Blanks(text[n..])
       else text[|text| - n..] == body && Blanks(text[..|text| - n])
  }

  lemma FieldColumns(body: string, width: nat, left: bool)
    ensures var pad := Repeat(' ', width - |body|);
            InColumns(if left then body + pad else pad + body, body, width, left)
  {
    var pad := Repeat(' ', width - |body|);
    if left {
      assert (body + pad)[..|body|] == body && (body + pad)[|body|..] == pad;
    } else {
      assert (pad + body)[|pad|..] == body && (pad + body)[..|pad|] == pad;
    }
  }

  // ---------------------------------------------------------------- strings and characters

  /** `n` is the length of the C string at the start of `t`. */
  predicate EndsAt(t: string, n: nat) {
    n <= |t| && (n < |t| ==> t[n] == '\0') && forall i | 0 <= i < n :: t[i] != '\0'
  }

  lemma {:induction false} LengthIs(t: string, n: nat, i: nat)
    requires EndsAt(t, n) && i <= n
    ensures Length(t, i) == n
    decreases n - i
  {
    if i < n {
      LengthIs(t, n, i + 1);
    }
  }

  /** A string directive shows the string up to its end, or as much of it as the precision says, and
      takes one argument. */
  lemma StringPrints(t: string, n: nat, h: Head, args: seq<Arg>)
    requires EndsAt(t, n) && h.used < |args| && args[h.used] == Text(t)
    ensures var d := Directive('s', h, args);
            var k := if h.flags.precision && h.prec < n then h.prec else n;
            d.Some? && d.value.1 == h.used + 1 && InColumns(d.value.0, t[..k], h.width, h.flags.left)
  {
    LengthIs(t, n, 0);
    var k := if h.flags.precision && h.prec < n then h.prec else n;
    hide Length, InColumns;
    assert Shown(t, h) == t[..k];
    FieldColumns(t[..k], h.width, h.flags.left);
    hide Shown;
  }

  function Concat(ts: seq<string>): string {
    if ts == [] then "" else ts[0] + Concat(ts[1..])
  }

  predicate Texts(args: seq<Arg>, ts: seq<string>) {
    |args| == |ts| && forall k | 0 <= k < |ts| :: args[k] == Text(ts[k]) && EndsAt(ts[k], |ts[k]|)
  }

  predicate BareStrings(format: string, n: nat) {
    |format| == 2 * n && forall k | 0 <= k < n :: format[2 * k] == '%' && format[2 * k + 1] == 's'
  }

  /** Bare `%s` directives print their arguments one after the other. */
  lemma {:induction false} StringsInOrder(format: string, ts: seq<string>, args: seq<Arg>, k: nat)
    requires BareStrings(format, |ts|) && Texts(args, ts) && k <= |ts|
    ensures Render(format, 2 * k, args, k) == Some(Concat(ts[k..]))
    decreases |ts| - k
  {
    if k < |ts| {
      assert args[k] == Text(ts[k]) && EndsAt(ts[k], |ts[k]|);
      assert format[2 * k] == '%' && format[2 * k + 1] == 's';
      hide Texts, BareStrings, EndsAt, ParseHead, Directive, Render, Concat;
      StringsInOrder(format, ts, args, k + 1);
      BareHead(format, k, |ts|, args);
      StringBare(args[k], ts[k], 2 * k + 1, k, args);
      RenderNext(format, k, args, ts[k], Concat(ts[k + 1..]));
      ConcatNext(ts, k);
    } else {
      hide ParseHead, Directive, Texts;
    }
  }

  lemma ConcatNext(ts: seq<string>, k: nat)
    requires k < |ts|
    ensures Concat(ts[k..]) == ts[k] + Concat(ts[k + 1..])
  {
    assert ts[k..][0] == ts[k] && ts[k..][1..] == ts[k + 1..];
  }

  lemma RenderNext(format: string, k: nat, args: seq<Arg>, t: string, rest: string)
    requires 2 * k + 1 < |format| && format[2 * k] == '%' && format[2 * k + 1] == 's'
    requires var h := Head(NO_FLAGS, 0, 0, 2 * k + 1, k);
             ParseHead(format, 2 * k + 1, args, k) == Some(h) && Directive('s', h, args) == Some((t, k + 1))
    requires Render(format, 2 * k + 2, args, k + 1) == Some(rest)
    ensures Render(format, 2 * k, args, k) == Some(t + rest)
  {
    hide ParseHead, Directive;
  }

  lemma BareHead(format: string, k: nat, n: nat, args: seq<Arg>)
    requires BareStrings(format, n) && k < n
    ensures ParseHead(format, 2 * k + 1, args, k) == Some(Head(NO_FLAGS, 0, 0, 2 * k + 1, k))
  {
    assert format[2 * k + 1] == 's';
  }

  lemma StringBare(arg: Arg, t: string, next: nat, k: nat, args: seq<Arg>)
    requires k < |args| && args[k] == Text(t) && EndsAt(t, |t|)
    ensures Directive('s', Head(NO_FLAGS, 0, 0, next, k), args) == Some((t, k + 1))
  {
    StringPrints(t, |t|, Head(NO_FLAGS, 0, 0, next, k), args);
    assert t[..|t|] == t;
    NoColumns(Directive('s', Head(NO_FLAGS, 0, 0, next, k), args).value.0, t);
    hide Directive, InColumns, EndsAt;
  }

  lemma NoColumns(text: string, body: string)
    requires InColumns(text, body, 0, false)
    ensures text == body
  {
    assert text[0..] == text;
  }

  /** A character directive shows the low byte of its argument. */
  lemma CharacterPrints(h: Head, args: seq<Arg>)
    requires h.used < |args| && args[h.used].Word?
    ensures var d := Directive('c', h, args);
            && d.Some? && d.value.1 == h.used + 1
            && InColumns(d.value.0, [(args[h.used].bits % 256) as char], h.width, h.flags.left)
  {
    FieldColumns([(args[h.used].bits % 256) as char], h.width, h.flags.left);
    hide InColumns;
  }

  /** An unknown specifier shows itself, `%` in particular, and takes no argument. */
  lemma OtherPrints(c: char, h: Head, args: seq<Arg>)
    requires !IsInteger(c) && !IsFloat(c) && c != 'c' && c != 's' && c != 'p' && c != '\0'
    ensures Directive(c, h, args) == Some(([c], h.used))
  {
  }

  // ---------------------------------------------------------------- numbers

  predicate Cased(s: string, upper: bool) {
    forall i | 0 <= i < |s| :: '0' <= s[i] <= '9' || (if upper then 'A' <= s[i] <= 'F' else 'a' <= s[i] <= 'f')
  }

  lemma {:induction false} DigitsCased(value: nat, base: nat, upper: bool)
    requires 2 <= base <= 16
    ensures Cased(Digits(value, base, upper), upper)
    decreases value
  {
    hide Quotient, LastDigit;
    if Quotient(value, base) != 0 {
      DigitsCased(Quotient(value, base), base, upper);
    }
  }

  lemma ZerosCased(buf: string, n: nat, upper: bool)
    requires Cased(buf, upper)
    ensures Cased(ZeroTo(buf, n), upper)
  {
  }

  lemma PaddedCased(value: nat, base: nat, prec: nat, width: nat, flags: Flags)
    requires 2 <= base <= 16
    ensures Cased(Padded(NumberDigits(value, base, flags), prec, width, flags), flags.upper)
  {
    DigitsCased(value, base, flags.upper);
    hide Digits;
    var buf := NumberDigits(value, base, flags);
    assert Cased(buf, flags.upper);
    hide NumberDigits, Cased;
    ZerosCased(buf, prec, flags.upper);
    ZerosCased(ZeroTo(buf, prec), width, flags.upper);
  }

  lemma ReversedKeeps(s: string, base: nat, upper: bool)
    requires DigitsIn(s, base) && Cased(s, upper)
    ensures DigitsIn(Reversed(s), base) && Cased(Reversed(s), upper)
  {
    hide DigitIn, Reversed;
    forall i | 0 <= i < |s|
      ensures Reversed(s)[i] == s[|s| - 1 - i]
    {
      ReversedAt(s, i);
    }
  }

  /** The sign that flags and value ask for. */
  function Sign(negative: bool, flags: Flags): string {
    if negative then "-" else if flags.plus then "+" else if flags.space then " " else ""
  }

  /** Zero padding and precision leave a place for the sign in the scratch buffer. */
  predicate SignFits(prec: nat, width: nat, flags: Flags) {
    flags.left || (prec < SCRATCH && (flags.zeroPad ==> width <= SCRATCH))
  }

  /** The digits that precision and zero padding ask for. */
  function AskedDigits(negative: bool, prec: nat, width: nat, flags: Flags): nat {
    if flags.left then 0
    else
      var w := if flags.zeroPad then FieldWidth(width, negative, flags) else 0;
      if prec < w then w else prec
  }

  /** The digits of a value, most significant first, in the case the flags ask for, with leading zeros
      only up to the number of digits asked for. */
  predicate ShowsDigits(s: string, value: nat, negative: bool, base: nat, prec: nat, width: nat, flags: Flags) {
    && DigitsIn(s, base) && Cased(s, flags.upper) && Parse(s, base) == Kept(value, base)
    && AsManyAs(s, AskedDigits(negative, prec, width, flags), value, base, flags.precision)
  }

  predicate AsManyAs(s: string, asked: nat, value: nat, base: nat, precision: bool) {
    && |s| >= Min(asked, SCRATCH)
    && if value == 0 then |s| <= (if asked > 0 then asked else 1) && (|s| > 0 <==> asked > 0 || !precision)
       else if base == 2 && value >= WORD32 then |s| == SCRATCH
       else |s| > asked ==> s[0] != '0'
  }

  /** The digits in the scratch buffer, without prefix and sign. */
  function Body(value: nat, negative: bool, base: nat, prec: nat, width: nat, flags: Flags): string
    requires 2 <= base <= 16
  {
    Padded(NumberDigits(value, base, flags), prec, FieldWidth(width, negative, flags), flags)
  }

  predicate Printable(value: nat, base: nat) {
    value < WORD64 && (base == 2 || base == 8 || base == 10 || base == 16)
  }

  lemma BodyParses(value: nat, negative: bool, base: nat, prec: nat, width: nat, flags: Flags)
    requires Printable(value, base)
    ensures Parse(Reversed(Body(value, negative, base, prec, width, flags)), base) == Kept(value, base)
  {
    var buf, w := NumberDigits(value, base, flags), FieldWidth(width, negative, flags);
    DigitsKept(value, base, flags);
    ZeroToKeepsValue(buf, prec, base);
    ZeroToKeepsValue(ZeroTo(buf, prec), w, base);
    ReversedParses(Body(value, negative, base, prec, width, flags), base);
    hide NumberDigits, Value, Kept, ZeroTo, Parse, Reversed;
  }

  lemma BodyWritten(value: nat, negative: bool, base: nat, prec: nat, width: nat, flags: Flags)
    requires 2 <= base <= 16
    ensures var s := Reversed(Body(value, negative, base, prec, width, flags));
            DigitsIn(s, base) && Cased(s, flags.upper)
  {
    var w := FieldWidth(width, negative, flags);
    PaddedIn(value, base, prec, w, flags);
    PaddedCased(value, base, prec, w, flags);
    ReversedKeeps(Body(value, negative, base, prec, width, flags), base, flags.upper);
    hide DigitsIn, Cased, Padded, NumberDigits, Reversed, FieldWidth;
  }

  /** Zeros are only put in front of fewer digits than asked for. */
  lemma BodyLength(value: nat, negative: bool, base: nat, prec: nat, width: nat, flags: Flags)
    requires 2 <= base <= 16
    ensures var p, buf := Body(value, negative, base, prec, width, flags), NumberDigits(value, base, flags);
            var asked := AskedDigits(negative, prec, width, flags);
            |p| >= Min(asked, SCRATCH) && |p| >= |buf| && (p == buf || |p| <= asked)
  {
    var buf := NumberDigits(value, base, flags);
    hide NumberDigits, FieldWidth;
    ZerosStop(buf, prec);
    ZerosStop(ZeroTo(buf, prec), FieldWidth(width, negative, flags));
    hide ZeroTo;
  }

  lemma ZerosStop(buf: string, n: nat)
    ensures var r := ZeroTo(buf, n);
            |r| >= Min(n, SCRATCH) && |r| >= |buf| && (r == buf || |r| <= n)
  {
    if |buf| >= Min(n, SCRATCH) {
      assert buf + Repeat('0', Min(n, SCRATCH) - |buf|) == buf;
    }
  }

  /** The digits before padding: 0 or nothing for 0, else without a leading zero. */
  lemma DigitsBare(value: nat, base: nat, flags: Flags)
    requires Printable(value, base)
    ensures var buf := NumberDigits(value, base, flags);
            && |buf| <= SCRATCH
            && (if value == 0 then |buf| == (if flags.precision then 0 else 1)
                else if base == 2 && value >= WORD32 then |buf| == SCRATCH
                else |buf| > 0 && buf[|buf| - 1] != '0')
  {
    var d := Digits(value, base, flags.upper);
    if value == 0 {
      assert |Digits(0, base, flags.upper)| == 1 by {
        NothingLeft(base);
      }
    } else {
      DigitsFit(value, base, flags.upper);
      LeadingDigit(value, base, flags.upper);
    }
    hide Digits;
    assert |d| <= SCRATCH ==> d[..|d|] == d;
  }

  lemma NothingLeft(base: nat)
    requires base > 0
    ensures Quotient(0, base) == 0
  {
    assert base * 0 == 0;
  }

  lemma BodyShows(value: nat, negative: bool, base: nat, prec: nat, width: nat, flags: Flags)
    requires Printable(value, base)
    ensures ShowsDigits(Reversed(Body(value, negative, base, prec, width, flags)), value, negative, base, prec,
                        width, flags)
  {
    var p := Body(value, negative, base, prec, width, flags);
    BodyParses(value, negative, base, prec, width, flags);
    BodyWritten(value, negative, base, prec, width, flags);
    BodyCount(value, negative, base, prec, width, flags);
    hide Body, AsManyAs, NumberDigits, AskedDigits, DigitsIn, Cased, Parse, Kept, Reversed;
  }

  lemma BodyCount(value: nat, negative: bool, base: nat, prec: nat, width: nat, flags: Flags)
    requires Printable(value, base)
    ensures AsManyAs(Reversed(Body(value, negative, base, prec, width, flags)),
                     AskedDigits(negative, prec, width, flags), value, base, flags.precision)
  {
    var p := Body(value, negative, base, prec, width, flags);
    BodyLength(value, negative, base, prec, width, flags);
    BodyFits(value, negative, base, prec, width, flags);
    DigitsBare(value, base, flags);
    hide Body, NumberDigits, AskedDigits, Reversed;
    if |p| > 0 {
      ReversedAt(p, 0);
    }
  }

  lemma BodyFits(value: nat, negative: bool, base: nat, prec: nat, width: nat, flags: Flags)
    requires 2 <= base <= 16
    ensures |Body(value, negative, base, prec, width, flags)| <= SCRATCH
  {
    hide Digits;
    assert |NumberDigits(value, base, flags)| <= SCRATCH;
    hide NumberDigits, FieldWidth;
  }

  lemma BodyLeavesRoom(value: nat, negative: bool, base: nat, prec: nat, width: nat, flags: Flags)
    requires value < WORD64 && (base == 10 || base == 16)
    requires SignFits(prec, width, flags) && Sign(negative, flags) != ""
    ensures |Body(value, negative, base, prec, width, flags)| < SCRATCH
  {
    FewDigits(value, base, flags.upper);
    hide Digits;
    assert |NumberDigits(value, base, flags)| < SCRATCH;
    hide NumberDigits;
  }

  lemma FewDigits(value: nat, base: nat, upper: bool)
    requires value < WORD64 && (base == 10 || base == 16)
    ensures |Digits(value, base, upper)| < SCRATCH
  {
    if base == 10 {
      DecimalDigits(value, upper);
    } else {
      SixteenToSixteen();
      DigitCount(value, 16, upper, 16);
    }
    hide Digits;
  }

  lemma SixteenToSixteen()
    ensures Power(16, 16) == WORD64
  {
    hide Power;
    PowerOne(16);
    PowerSum(16, 1, 1, 16, 16);
    PowerSum(16, 2, 2, 256, 256);
    PowerSum(16, 4, 4, 65536, 65536);
    PowerSum(16, 8, 8, 4294967296, 4294967296);
  }

  lemma SignedText(p: string, negative: bool, flags: Flags)
    requires |p| < SCRATCH || Sign(negative, flags) == ""
    ensures Reversed(WithSign(p, negative, flags)) == Sign(negative, flags) + Reversed(p)
  {
    if Sign(negative, flags) != "" {
      ReversedLast(p, Sign(negative, flags)[0]);
    }
    hide Reversed;
  }

  lemma WholeField(r: string, width: nat, left: bool)
    requires |r| >= width
    ensures InColumns(r, r, width, left)
  {
    assert r[..|r|] == r && r[0..] == r;
  }

  lemma FieldOfNumber(s: string, width: nat, negative: bool, flags: Flags)
    requires flags.zeroPad && !flags.left ==> |s| >= width
    ensures InColumns(Field(s, FieldWidth(width, negative, flags), flags), Reversed(s), width, flags.left)
  {
    var r := Reversed(s);
    FieldIs(s, width, negative, flags);
    hide Field, Reversed, InColumns, FieldWidth;
    if flags.zeroPad && !flags.left {
      WholeField(r, width, false);
    } else {
      FieldColumns(r, width, flags.left);
    }
  }

  lemma FieldIs(s: string, width: nat, negative: bool, flags: Flags)
    ensures var t, r := Field(s, FieldWidth(width, negative, flags), flags), Reversed(s);
            var pad := Repeat(' ', width - |r|);
            t == if flags.left then r + pad else if flags.zeroPad then r else pad + r
  {
    hide Reversed, Repeat;
    var r := Reversed(s);
    assert "" + r == r && forall p: string :: p + "" == p;
  }

  lemma NumberIs(value: nat, negative: bool, base: nat, prec: nat, width: nat, flags: Flags)
    requires 2 <= base <= 16 && (value == 0 ==> !flags.hash)
    ensures Number(value, negative, base, prec, width, flags)
            == Field(Scratch(NumberDigits(value, base, flags), negative, base, prec, width, flags),
                     FieldWidth(width, negative, flags), flags)
  {
    assert NumberFlags(value, flags) == flags;
    hide NumberFlags, Field, Scratch, NumberDigits, FieldWidth;
  }

  /** A sign and digits in their field. */
  ghost predicate Shows(text: string, value: nat, negative: bool, base: nat, prec: nat, width: nat, flags: Flags) {
    exists s :: ShowsDigits(s, value, negative, base, prec, width, flags)
                && InColumns(text, Sign(negative, flags) + s, width, flags.left)
  }

  lemma NumberShows(value: nat, negative: bool, base: nat, prec: nat, width: nat, flags: Flags)
    requires Printable(value, base) && !flags.hash
    requires Sign(negative, flags) != "" ==> SignFits(prec, width, flags) && (base == 10 || base == 16)
    requires flags.zeroPad && !flags.left ==> width <= SCRATCH
    ensures Shows(Number(value, negative, base, prec, width, flags), value, negative, base, prec, width, flags)
  {
    var p := Body(value, negative, base, prec, width, flags);
    BodyShows(value, negative, base, prec, width, flags);
    if Sign(negative, flags) != "" {
      BodyLeavesRoom(value, negative, base, prec, width, flags);
    }
    SignedText(p, negative, flags);
    var t := Scratch(NumberDigits(value, base, flags), negative, base, prec, width, flags);
    assert t == WithSign(p, negative, flags);
    NumberIs(value, negative, base, prec, width, flags);
    hide Number;
    if flags.zeroPad && !flags.left {
      ZeroPadFills(NumberDigits(value, base, flags), negative, base, prec, width, flags);
    }
    hide Body, Scratch, ShowsDigits, InColumns, Sign, Reversed, NumberDigits, Field;
    FieldOfNumber(t, width, negative, flags);
  }

  /** Without the alternate form, which 0 has none of, a number is printed as its sign and its digits,
      in its field on the side asked for, unless the scratch buffer has no place for the sign or for zero padding. */
  lemma NumberPrints(value: nat, negative: bool, base: nat, prec: nat, width: nat, flags: Flags)
    requires Printable(value, base) && (flags.hash ==> value == 0)
    requires Sign(negative, flags) != "" ==> SignFits(prec, width, flags) && (base == 10 || base == 16)
    requires flags.zeroPad && !flags.left ==> width <= SCRATCH
    ensures Shows(Number(value, negative, base, prec, width, flags), value, negative, base, prec, width, flags)
  {
    var plain := flags.(hash := false);
    NumberShows(value, negative, base, prec, width, plain);
    if flags.hash {
      NothingToHash(negative, base, prec, width, flags);
      ShowsWithout(Number(value, negative, base, prec, width, plain), value, negative, base, prec, width, flags);
    } else {
      assert plain == flags;
    }
    hide Number, Shows;
  }

  lemma NothingToHash(negative: bool, base: nat, prec: nat, width: nat, flags: Flags)
    requires 2 <= base <= 16
    ensures Number(0, negative, base, prec, width, flags)
            == Number(0, negative, base, prec, width, flags.(hash := false))
  {
    var plain := flags.(hash := false);
    NumberOfZero(negative, base, prec, width, flags, plain);
    NumberOfZero(negative, base, prec, width, plain, plain);
    hide *;
  }

  lemma NumberOfZero(negative: bool, base: nat, prec: nat, width: nat, flags: Flags, plain: Flags)
    requires 2 <= base <= 16 && plain == flags.(hash := false)
    ensures Number(0, negative, base, prec, width, flags)
            == Field(Scratch(NumberDigits(0, base, plain), negative, base, prec, width, plain),
                     FieldWidth(width, negative, plain), plain)
  {
    hide Field, Scratch, NumberDigits, FieldWidth;
  }

  lemma ShowsWithout(text: string, value: nat, negative: bool, base: nat, prec: nat, width: nat, flags: Flags)
    requires Shows(text, value, negative, base, prec, width, flags.(hash := false))
    ensures Shows(text, value, negative, base, prec, width, flags)
  {
    var plain := flags.(hash := false);
    var s :| ShowsDigits(s, value, negative, base, prec, width, plain)
             && InColumns(text, Sign(negative, plain) + s, width, plain.left);
    assert Sign(negative, plain) == Sign(negative, flags);
    hide DigitsIn, Cased, Parse, Kept, InColumns, AsManyAs, Sign;
    assert ShowsDigits(s, value, negative, base, prec, width, flags);
  }

  /** The alternate form in its field: where the whole of it can be read back. */
  lemma AlternatePrints(value: nat, base: nat, prec: nat, width: nat, flags: Flags)
    requires 0 < value < WORD64 && (base == 2 || base == 8 || base == 16) && (base == 2 ==> value < WORD32)
    requires flags.hash && !flags.plus && !flags.space
    requires flags.zeroPad && !flags.left ==> width <= SCRATCH
    ensures var n := |Digits(value, base, flags.upper)|;
            var l := PaddedLength(n, prec, width, flags);
            var k := Dropped(l, base, prec, width, flags);
            exists s ::
              && InColumns(Number(value, false, base, prec, width, flags), s, width, flags.left)
              && (ReadsAs(s, base, flags.upper, value) <==> n + k <= l && (base != 8 ==> l - k + 2 <= SCRATCH))
  {
    AlternateShown(value, base, prec, width, flags);
    var t := Scratch(NumberDigits(value, base, flags), false, base, prec, width, flags);
    NumberIs(value, false, base, prec, width, flags);
    hide Number;
    assert FieldWidth(width, false, flags) == width;
    hide Scratch, InColumns, Reversed, NumberDigits, Field, ReadsAs, Digits, PaddedLength, Dropped, FieldWidth;
    if flags.zeroPad && !flags.left {
      ZeroPadFills(NumberDigits(value, base, flags), false, base, prec, width, flags);
    }
    FieldOfNumber(t, width, false, flags);
  }

  // ---------------------------------------------------------------- directives

  /** `v` is an argument taken at a width of `m` values. */
  predicate TakenAs(v: int, bits: nat, m: nat, signed: bool)
    requires m > 0
  {
    && v % m == bits % m
    && (signed ==> -(m as int) <= 2 * v < m)
    && (!signed ==> 0 <= v < m)
  }

  /** How many values an argument of that length has. */
  function Values(flags: Flags): (m: nat)
    ensures m == 0x100 || m == 0x1_0000 || m == WORD32 || m == WORD64
  {
    if flags.long || flags.longLong then WORD64
    else if flags.char8 then 0x100
    else if flags.short then 0x1_0000
    else WORD32
  }

  lemma SignedTaken(bits: nat, half: nat)
    requires half == 0x80 || half == 0x8000 || half == 0x8000_0000 || half == 0x8000_0000_0000_0000
    ensures TakenAs(AsSigned(bits, half), bits, 2 * half, true)
  {
    if
    case half == 0x80 => assert TakenAs(AsSigned(bits, 0x80), bits, 0x100, true);
    case half == 0x8000 => assert TakenAs(AsSigned(bits, 0x8000), bits, 0x1_0000, true);
    case half == 0x8000_0000 => assert TakenAs(AsSigned(bits, 0x8000_0000), bits, WORD32, true);
    case half == 0x8000_0000_0000_0000 =>
      assert TakenAs(AsSigned(bits, 0x8000_0000_0000_0000), bits, WORD64, true);
  }

  lemma UnsignedTaken(bits: nat)
    ensures TakenAs(bits % 0x100, bits, 0x100, false) && TakenAs(bits % 0x1_0000, bits, 0x1_0000, false)
    ensures TakenAs(bits % WORD32, bits, WORD32, false) && TakenAs(bits % WORD64, bits, WORD64, false)
  {
  }

  /** An integer argument is taken at the width its length modifier gives it, with a sign for `d` and `i`. */
  lemma ValueTaken(c: char, bits: nat, flags: Flags)
    ensures TakenAs(IntegerValue(c, bits, flags), bits, Values(flags), c == 'd' || c == 'i')
  {
    UnsignedTaken(bits);
    SignedTaken(bits, 0x80);
    SignedTaken(bits, 0x8000);
    SignedTaken(bits, 0x8000_0000);
    SignedTaken(bits, 0x8000_0000_0000_0000);
    hide AsSigned, TakenAs;
  }

  /** There is one such reading. */
  lemma TakenOnce(v: int, w: int, bits: nat, flags: Flags, signed: bool)
    requires TakenAs(v, bits, Values(flags), signed) && TakenAs(w, bits, Values(flags), signed)
    ensures v == w
  {
    Apart(v, w, Values(flags));
    hide Values;
  }

  lemma Apart(v: int, w: int, m: nat)
    requires m > 0 && v % m == w % m && -(m as int) < v - w < m
    ensures v == w
  {
    var i, j := v / m, w / m;
    assert v == i * m + v % m && w == j * m + w % m;
    if i < j {
      Further(i, j, m);
    } else if j < i {
      Further(j, i, m);
    }
  }

  lemma Further(i: int, j: int, m: nat)
    requires i < j
    ensures j * m >= i * m + m
  {
    GapAtLeast(0, j - i, m);
    assert j * m == i * m + (j - i) * m;
  }

  predicate InBase(c: char, base: nat) {
    base == if c == 'x' || c == 'X' then 16 else if c == 'o' then 8 else if c == 'b' then 2 else 10
  }

  predicate SameLength(f: Flags, g: Flags) {
    f.char8 == g.char8 && f.short == g.short && f.long == g.long && f.longLong == g.longLong
  }

  /** The flags that count for an integer: zero padding gives way to a precision, signs are for `d` and `i`. */
  predicate Counting(c: char, flags: Flags, seen: Flags) {
    && SameLength(flags, seen) && seen.left == flags.left && seen.precision == flags.precision
    && seen.zeroPad == (flags.zeroPad && !flags.precision)
    && seen.plus == (flags.plus && (c == 'd' || c == 'i')) && seen.space == (flags.space && (c == 'd' || c == 'i'))
    && seen.hash == (flags.hash && c != 'd' && c != 'i' && c != 'u')
    && seen.upper == (flags.upper || c == 'X')
  }

  /** An integer directive prints its argument `v`, taken at its width, in the base and the case of the
      specifier, with the sign and the digits its flags ask for, in its field. */
  lemma IntegerPrints(c: char, bits: nat, h: Head, args: seq<Arg>, v: int, base: nat, seen: Flags)
    requires IsInteger(c) && h.used < |args| && args[h.used] == Word(bits)
    requires TakenAs(v, bits, Values(h.flags), c == 'd' || c == 'i') && InBase(c, base) && Counting(c, h.flags, seen)
    requires (seen.hash ==> v == 0) && (seen.zeroPad && !seen.left ==> h.width <= SCRATCH)
    requires Sign(v < 0, seen) != "" ==> SignFits(h.prec, h.width, seen)
    ensures var d := Directive(c, h, args);
            && d.Some? && d.value.1 == h.used + 1
            && Shows(d.value.0, if v < 0 then -v else v, v < 0, base, h.prec, h.width, seen)
  {
    IntegerDirective(c, bits, h, args);
    TakenInRange(v, bits, h.flags, c == 'd' || c == 'i');
    SpecifierBase(c, base, v < 0, h.flags, seen);
    IntegerTextIs(c, bits, h, v, base, seen);
    hide Directive, IsFloat, IsInteger, TakenAs, Values, IntegerValue, IntegerFlags, Number, Shows, Sign, SignFits,
         Counting, BaseOf, InBase, IntegerText;
    NumberPrints(if v < 0 then -v else v, v < 0, base, h.prec, h.width, seen);
  }

  lemma SpecifierBase(c: char, base: nat, negative: bool, flags: Flags, seen: Flags)
    requires IsInteger(c) && InBase(c, base) && Counting(c, flags, seen) && (negative ==> c == 'd' || c == 'i')
    ensures base == BaseOf(c) && (base == 2 || base == 8 || base == 10 || base == 16)
    ensures Sign(negative, seen) != "" ==> base == 10
    ensures c != '\0' && !IsFloat(c)
  {
  }

  lemma TakenInRange(v: int, bits: nat, flags: Flags, signed: bool)
    requires TakenAs(v, bits, Values(flags), signed)
    ensures -(WORD64 as int) < v < WORD64 && (v < 0 ==> signed)
  {
  }

  lemma IntegerDirective(c: char, bits: nat, h: Head, args: seq<Arg>)
    requires IsInteger(c) && h.used < |args| && args[h.used] == Word(bits)
    ensures Directive(c, h, args) == Some((IntegerText(c, bits, h), h.used + 1))
  {
    hide IntegerText, PointerText;
  }

  lemma IntegerTextIs(c: char, bits: nat, h: Head, v: int, base: nat, seen: Flags)
    requires IsInteger(c) && TakenAs(v, bits, Values(h.flags), c == 'd' || c == 'i')
    requires base == BaseOf(c) && Counting(c, h.flags, seen)
    ensures IntegerText(c, bits, h) == Number(if v < 0 then -v else v, v < 0, base, h.prec, h.width, seen)
  {
    FlagsCount(c, bits, h.flags, seen);
    ValueTaken(c, bits, h.flags);
    TakenOnce(v, IntegerValue(c, bits, h.flags), bits, h.flags, c == 'd' || c == 'i');
    hide IsInteger, TakenAs, Values, IntegerValue, IntegerFlags, Number, Counting, BaseOf;
  }

  lemma FlagsCount(c: char, bits: nat, flags: Flags, seen: Flags)
    requires IsInteger(c) && Counting(c, flags, seen)
    ensures IntegerFlags(c, flags) == seen && IntegerValue(c, bits, seen) == IntegerValue(c, bits, flags)
  {
    FlagsSeen(c, flags, seen);
    LengthDecides(c, bits, flags, seen);
    hide *;
  }

  lemma FlagsSeen(c: char, flags: Flags, seen: Flags)
    requires IsInteger(c) && Counting(c, flags, seen)
    ensures IntegerFlags(c, flags) == seen
  {
    if c == 'd' || c == 'i' {
      SignedFlags(c, flags);
    } else if c == 'u' {
      DecimalFlags(flags);
    } else if c == 'X' {
      UpperFlags(flags);
    } else {
      PlainFlags(c, flags);
    }
    FlagsAgree(c, flags, IntegerFlags(c, flags), seen);
    hide Counting, IntegerFlags;
  }

  lemma FlagsAgree(c: char, flags: Flags, f: Flags, g: Flags)
    requires Counting(c, flags, f) && Counting(c, flags, g)
    ensures f == g
  {
  }

  lemma SignedFlags(c: char, flags: Flags)
    requires c == 'd' || c == 'i'
    ensures Counting(c, flags, IntegerFlags(c, flags))
  {
  }

  lemma DecimalFlags(flags: Flags)
    ensures Counting('u', flags, IntegerFlags('u', flags))
  {
  }

  lemma UpperFlags(flags: Flags)
    ensures Counting('X', flags, IntegerFlags('X', flags))
  {
  }

  lemma PlainFlags(c: char, flags: Flags)
    requires c == 'x' || c == 'o' || c == 'b'
    ensures Counting(c, flags, IntegerFlags(c, flags))
  {
  }

  lemma LengthDecides(c: char, bits: nat, flags: Flags, seen: Flags)
    requires Counting(c, flags, seen)
    ensures IntegerValue(c, bits, seen) == IntegerValue(c, bits, flags)
  {
    hide AsSigned, Int32;
  }

  /** A pointer prints as a 64-bit number in upper-case hexadecimal, zero-padded to 16 places, whatever its
      width and its length modifier say. */
  lemma PointerPrints(bits: nat, h: Head, args: seq<Arg>, v: nat, seen: Flags)
    requires h.used < |args| && args[h.used] == Word(bits) && v < WORD64 && v == bits % WORD64
    requires seen == h.flags.(zeroPad := true, upper := true) && (seen.hash ==> v == 0)
    requires Sign(false, seen) != "" && !seen.left ==> h.prec < SCRATCH
    ensures var d := Directive('p', h, args);
            d.Some? && d.value.1 == h.used + 1 && Shows(d.value.0, v, false, 16, h.prec, 16, seen)
  {
    PointerDirective(bits, h, args);
    NumberPrints(v, false, 16, h.prec, 16, seen);
    hide Number, Shows, Sign, Directive;
  }

  lemma PointerDirective(bits: nat, h: Head, args: seq<Arg>)
    requires h.used < |args| && args[h.used] == Word(bits)
    ensures Directive('p', h, args) == Some((PointerText(bits, h), h.used + 1))
  {
    hide IntegerText, PointerText, InField;
  }
}
