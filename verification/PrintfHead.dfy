/** What the part of a directive between the percent sign and the specifier means. */
module PrintfHead {
  import opened Division
  import opened PrintfFormat
  import opened PrintfSpec
  import opened Wrappers

  // ---------------------------------------------------------------- flags

  predicate Has(run: string, c: char) {
    c in run
  }

  /** Each flag is set if its character occurs. */
  function Flagged(flags: Flags, run: string): Flags {
    flags.(zeroPad := flags.zeroPad || Has(run, '0'), left := flags.left || Has(run, '-'),
           plus := flags.plus || Has(run, '+'), space := flags.space || Has(run, ' '),
           hash := flags.hash || Has(run, '#'))
  }

  lemma FlaggedNothing(flags: Flags)
    ensures Flagged(flags, "") == flags
  {
  }

  lemma FlaggedNext(flags: Flags, c: char, run: string)
    requires IsFlag(c)
    ensures Flagged(SetFlag(flags, c), run) == Flagged(flags, [c] + run)
  {
    hide Has;
    InLonger('0', c, run);
    InLonger('-', c, run);
    InLonger('+', c, run);
    InLonger(' ', c, run);
    InLonger('#', c, run);
  }

  lemma InLonger(d: char, c: char, run: string)
    ensures Has([c] + run, d) <==> d == c || Has(run, d)
  {
  }

  /** The longest run of flags is read, and no other flag is set. */
  lemma {:induction false} FlagsMean(format: string, f0: nat, flags0: Flags)
    requires f0 <= |format|
    ensures var (flags, f) := ParseFlags(format, f0, flags0);
            && f0 <= f <= |format| && (forall k | f0 <= k < f :: IsFlag(format[k]))
            && (f < |format| ==> !IsFlag(format[f]))
            && flags == Flagged(flags0, format[f0..f])
    decreases |format| - f0
  {
    FlaggedNothing(flags0);
    hide Flagged, SetFlag, IsFlag;
    if f0 < |format| && IsFlag(format[f0]) {
      FlagsMean(format, f0 + 1, SetFlag(flags0, format[f0]));
      var f := ParseFlags(format, f0, flags0).1;
      FlaggedNext(flags0, format[f0], format[f0 + 1..f]);
      assert format[f0..f] == [format[f0]] + format[f0 + 1..f];
    } else {
      assert format[f0..f0] == "";
    }
  }

  // ---------------------------------------------------------------- numbers

  predicate AllDigits(s: string) {
    forall k | 0 <= k < |s| :: IsDigit(s[k])
  }

  lemma NextDigit(p: nat, d: nat)
    ensures (p % WORD32 * 10 + d) % WORD32 == (p * 10 + d) % WORD32
  {
    var q := p / WORD32;
    ModAdd(WORD32, q * 10, p % WORD32 * 10 + d);
  }

  lemma ParseNext(format: string, f0: nat, f: nat)
    requires f0 <= f < |format| && IsDigit(format[f])
    ensures Parse(format[f0..f + 1], 10) == Parse(format[f0..f], 10) * 10 + (format[f] as nat - '0' as nat)
  {
    assert format[f0..f + 1][..f - f0] == format[f0..f];
  }

  lemma {:induction false} AtoiFrom(format: string, f0: nat, f1: nat)
    requires f0 <= f1 <= |format| && AllDigits(format[f0..f1])
    ensures var (n, f) := Atoi(format, f1, Parse(format[f0..f1], 10) % WORD32);
            && f1 <= f <= |format| && AllDigits(format[f0..f]) && (f < |format| ==> !IsDigit(format[f]))
            && n == Parse(format[f0..f], 10) % WORD32
    decreases |format| - f1
  {
    hide Parse;
    if f1 < |format| && IsDigit(format[f1]) {
      ParseNext(format, f0, f1);
      NextDigit(Parse(format[f0..f1], 10), format[f1] as nat - '0' as nat);
      assert format[f0..f1 + 1] == format[f0..f1] + [format[f1]];
      AtoiFrom(format, f0, f1 + 1);
    }
  }

  /** The longest run of digits is read, modulo two to the 32. */
  lemma NumberMeans(format: string, f0: nat)
    requires f0 <= |format|
    ensures var (n, f) := Atoi(format, f0, 0);
            && f0 <= f <= |format| && AllDigits(format[f0..f]) && (f < |format| ==> !IsDigit(format[f]))
            && n == Parse(format[f0..f], 10) % WORD32
  {
    assert format[f0..f0] == "" && AllDigits(format[f0..f0]);
    assert Parse(format[f0..f0], 10) == 0;
    hide Atoi, AllDigits, IsDigit, Parse;
    AtoiFrom(format, f0, f0);
  }

  // ---------------------------------------------------------------- the whole head

  /** A width or precision as written: nothing, digits, or taken from an argument. */
  datatype Amount = Absent | Written(digits: string) | Star {
    function Text(): string {
      match this
      case Absent => ""
      case Written(s) => s
      case Star => "*"
    }
  }

  datatype Length = Plain | L | LL | H | HH | T | J | Z {
    function Text(): string {
      match this
      case Plain => ""
      case L => "l"
      case LL => "ll"
      case H => "h"
      case HH => "hh"
      case T => "t"
      case J => "j"
      case Z => "z"
    }

    function On(flags: Flags): Flags {
      match this
      case Plain => flags
      case LL => flags.(long := true, longLong := true)
      case H => flags.(short := true)
      case HH => flags.(short := true, char8 := true)
      case _ => flags.(long := true)
    }
  }

  /** The parts of a directive before its specifier, as a programmer writes them. */
  datatype Form = Form(flags: string, width: Amount, precision: Option<Amount>, length: Length) {
    function PrecisionText(): string {
      if precision.Some? then "." + precision.value.Text() else ""
    }

    function Text(): string {
      flags + width.Text() + PrecisionText() + length.Text()
    }

    /** A width does not start with 0, which would be a flag. */
    predicate Valid() {
      && (forall k | 0 <= k < |flags| :: IsFlag(flags[k]))
      && (width.Written? ==> AllDigits(width.digits) && |width.digits| > 0 && width.digits[0] != '0')
      && (precision.Some? && precision.value.Written? ==>
            AllDigits(precision.value.digits) && |precision.value.digits| > 0)
    }
  }

  /** Could be read as one more part of the head. */
  predicate Continuing(c: char) {
    IsFlag(c) || IsDigit(c) || c == '*' || c == '.' || c == 'l' || c == 'h' || c == 't' || c == 'j' || c == 'z'
  }

  /** The value of a width or precision: a number, an argument, or 0; None without that argument. */
  function AmountValue(w: Amount, args: seq<Arg>, a: nat): Option<int> {
    match w
    case Absent => Some(0)
    case Written(s) => Some(Decimal(s))
    case Star => if WordArg(args, a).Some? then Some(Int32(WordArg(args, a).value)) else None
  }

  function LeftIf(flags: Flags, b: bool): Flags {
    flags.(left := flags.left || b)
  }

  function PreciseIf(flags: Flags, b: bool): Flags {
    flags.(precision := b)
  }

  function Uses(w: Amount): nat {
    if w.Star? then 1 else 0
  }

  /** What a form asks for; `next` is the position of its specifier. A negative width argument asks
      for left alignment, a negative precision for none. */
  function Meaning(form: Form, next: nat, args: seq<Arg>, a: nat): Option<Head> {
    var p := if form.precision.Some? then form.precision.value else Absent;
    match AmountValue(form.width, args, a)
    case None => None
    case Some(w) =>
      match AmountValue(p, args, a + Uses(form.width))
      case None => None
      case Some(n) =>
        var flags := PreciseIf(LeftIf(Flagged(NO_FLAGS, form.flags), w < 0), form.precision.Some?);
        Some(Head(form.length.On(flags), if w < 0 then -w else w, if n < 0 then 0 else n, next,
                  a + Uses(form.width) + Uses(p)))
  }

  // ---------------------------------------------------------------- reading it back

  /** `part` stands at position `f`. */
  predicate Stands(format: string, f: nat, part: string) {
    f + |part| <= |format| && format[f..f + |part|] == part
  }

  lemma StandsParts(format: string, f: nat, a: string, b: string)
    requires Stands(format, f, a + b)
    ensures Stands(format, f, a) && Stands(format, f + |a|, b)
  {
    assert format[f..f + |a|] == format[f..f + |a + b|][..|a|];
    assert format[f + |a|..f + |a + b|] == format[f..f + |a + b|][|a|..];
  }

  lemma StandsAt(format: string, f: nat, part: string, k: nat)
    requires Stands(format, f, part) && k < |part|
    ensures At(format, f + k) == part[k]
  {
    assert format[f..f + |part|][k] == part[k];
  }

  lemma FlagsReadBack(format: string, f: nat, run: string)
    requires Stands(format, f, run) && (forall k | 0 <= k < |run| :: IsFlag(run[k])) && !IsFlag(At(format, f + |run|))
    ensures ParseFlags(format, f, NO_FLAGS) == (Flagged(NO_FLAGS, run), f + |run|)
  {
    FlagsMean(format, f, NO_FLAGS);
    var end := ParseFlags(format, f, NO_FLAGS).1;
    hide Flagged, ParseFlags, IsFlag;
    if end < f + |run| {
      StandsAt(format, f, run, end - f);
    }
  }

  /** A written number, as the code reads it. */
  function Decimal(digits: string): nat {
    Parse(digits, 10) % WORD32
  }

  lemma NumberReadBack(format: string, f: nat, run: string)
    requires Stands(format, f, run) && AllDigits(run) && !IsDigit(At(format, f + |run|))
    ensures Atoi(format, f, 0) == (Decimal(run), f + |run|)
  {
    NumberMeans(format, f);
    var end := Atoi(format, f, 0).1;
    hide Parse, Atoi;
    if end < f + |run| {
      StandsAt(format, f, run, end - f);
    }
  }

  lemma WidthReadBack(format: string, h: Head, w: Amount, args: seq<Arg>)
    requires Stands(format, h.next, w.Text()) && h.width == 0
    requires w.Written? ==> AllDigits(w.digits) && |w.digits| > 0
    requires var c := At(format, h.next + |w.Text()|); !IsDigit(c) && c != '*'
    ensures ParseWidth(format, h, args)
            == match AmountValue(w, args, h.used)
               case None => None
               case Some(v) => Some(Head(LeftIf(h.flags, v < 0), if v < 0 then -v else v, h.prec,
                                         h.next + |w.Text()|, h.used + Uses(w)))
  {
    hide Int32, Decimal, Atoi;
    if !w.Absent? {
      StandsAt(format, h.next, w.Text(), 0);
    }
    if w.Written? {
      NumberReadBack(format, h.next, w.digits);
    }
  }

  lemma PrecisionReadBack(format: string, h: Head, p: Option<Amount>, args: seq<Arg>)
    requires Stands(format, h.next, if p.Some? then "." + p.value.Text() else "") && h.prec == 0
    requires !h.flags.precision
    requires p.Some? && p.value.Written? ==> AllDigits(p.value.digits) && |p.value.digits| > 0
    requires var c := At(format, h.next + if p.Some? then 1 + |p.value.Text()| else 0);
             !IsDigit(c) && c != '*' && c != '.'
    ensures ParsePrecision(format, h, args)
            == match AmountValue(if p.Some? then p.value else Absent, args, h.used)
               case None => None
               case Some(v) => Some(Head(PreciseIf(h.flags, p.Some?), h.width, if v < 0 then 0 else v,
                                         h.next + if p.Some? then 1 + |p.value.Text()| else 0,
                                         h.used + if p.Some? then Uses(p.value) else 0))
  {
    hide Stands, AllDigits, ParsePrecision, AmountValue;
    if p.Some? {
      StandsParts(format, h.next, ".", p.value.Text());
      StandsAt(format, h.next, ".", 0);
      match p.value
      case Absent => NoAmount(format, h, args);
      case Written(s) => WrittenAmount(format, h, s, args);
      case Star => StarAmount(format, h, args);
    } else {
      NoPoint(format, h, args);
    }
  }

  // The four cases of a precision.

  lemma NoPoint(format: string, h: Head, args: seq<Arg>)
    requires At(format, h.next) != '.' && h.prec == 0 && !h.flags.precision
    ensures AmountValue(Absent, args, h.used) == Some(0)
    ensures ParsePrecision(format, h, args) == Some(Head(PreciseIf(h.flags, false), h.width, 0, h.next, h.used))
  {
    assert PreciseIf(h.flags, false) == h.flags;
  }

  lemma NoAmount(format: string, h: Head, args: seq<Arg>)
    requires At(format, h.next) == '.' && h.prec == 0
    requires !IsDigit(At(format, h.next + 1)) && At(format, h.next + 1) != '*'
    ensures AmountValue(Absent, args, h.used) == Some(0)
    ensures ParsePrecision(format, h, args) == Some(Head(PreciseIf(h.flags, true), h.width, 0, h.next + 1, h.used))
  {
  }

  lemma WrittenAmount(format: string, h: Head, s: string, args: seq<Arg>)
    requires At(format, h.next) == '.' && Stands(format, h.next + 1, s) && AllDigits(s) && |s| > 0
    requires !IsDigit(At(format, h.next + 1 + |s|))
    ensures AmountValue(Written(s), args, h.used) == Some(Decimal(s))
    ensures ParsePrecision(format, h, args)
            == Some(Head(PreciseIf(h.flags, true), h.width, Decimal(s), h.next + 1 + |s|, h.used))
  {
    assert IsDigit(s[0]);
    hide IsDigit, AllDigits, Stands, Decimal, Atoi;
    StandsAt(format, h.next + 1, s, 0);
    NumberReadBack(format, h.next + 1, s);
  }

  lemma StarAmount(format: string, h: Head, args: seq<Arg>)
    requires At(format, h.next) == '.' && Stands(format, h.next + 1, "*")
    ensures ParsePrecision(format, h, args)
            == match AmountValue(Star, args, h.used)
               case None => None
               case Some(v) => Some(Head(PreciseIf(h.flags, true), h.width, if v < 0 then 0 else v, h.next + 2,
                                         h.used + 1))
  {
    StandsAt(format, h.next + 1, "*", 0);
    hide Stands, Int32, WordArg;
  }

  lemma LengthReadBack(format: string, h: Head, length: Length)
    requires Stands(format, h.next, length.Text()) && !Continuing(At(format, h.next + |length.Text()|))
    ensures ParseLength(format, h) == h.(flags := length.On(h.flags), next := h.next + |length.Text()|)
  {
    if !length.Plain? {
      StandsAt(format, h.next, length.Text(), 0);
    }
    if length.LL? || length.HH? {
      StandsAt(format, h.next, length.Text(), 1);
    }
  }

  /** What follows a part: the first character of the parts behind it, or the specifier. */
  function First(part: string, after: char): char {
    if |part| > 0 then part[0] else after
  }

  lemma Follows(format: string, f: nat, part: string)
    requires Stands(format, f, part)
    ensures At(format, f) == First(part, At(format, f + |part|))
  {
    if |part| > 0 {
      StandsAt(format, f, part, 0);
    }
  }

  /** Where the reading of each part stops. */
  lemma Stops(form: Form, c4: char)
    requires form.Valid() && !Continuing(c4)
    ensures var c3 := First(form.length.Text(), c4);
            var c2 := First(form.PrecisionText(), c3);
            var c1 := First(form.width.Text(), c2);
            && !IsFlag(c1) && !IsDigit(c2) && c2 != '*' && !IsDigit(c3) && c3 != '*' && c3 != '.'
  {
    var c3 := First(form.length.Text(), c4);
    var c2 := First(form.PrecisionText(), c3);
    assert !IsFlag(c3) && !IsDigit(c3) && c3 != '*' && c3 != '.';
    assert c2 == '.' || c2 == c3;
    assert !IsFlag(c2);
    hide Form.PrecisionText, Length.Text;
  }

  /** The parts of a head stand one behind the other. */
  lemma PartsStand(format: string, f: nat, form: Form)
    requires Stands(format, f, form.Text())
    ensures var f1, f2 := f + |form.flags|, f + |form.flags| + |form.width.Text()|;
            var f3 := f2 + |form.PrecisionText()|;
            && f3 + |form.length.Text()| == f + |form.Text()|
            && Stands(format, f, form.flags) && Stands(format, f1, form.width.Text())
            && Stands(format, f2, form.PrecisionText()) && Stands(format, f3, form.length.Text())
  {
    hide Stands, Amount.Text, Length.Text, Form.PrecisionText;
    var w, p, l := form.width.Text(), form.PrecisionText(), form.length.Text();
    StandsParts(format, f, form.flags + w + p, l);
    StandsParts(format, f, form.flags + w, p);
    StandsParts(format, f, form.flags, w);
  }

  lemma PrecisionStops(format: string, f3: nat, form: Form)
    requires form.Valid() && Stands(format, f3, form.length.Text())
    requires !Continuing(At(format, f3 + |form.length.Text()|))
    ensures var c := At(format, f3); !IsDigit(c) && c != '*' && c != '.'
  {
    hide *;
    Follows(format, f3, form.length.Text());
    Stops(form, At(format, f3 + |form.length.Text()|));
  }

  lemma PrecisionIs(form: Form)
    requires form.Valid()
    ensures form.PrecisionText() == if form.precision.Some? then "." + form.precision.value.Text() else ""
    ensures |form.PrecisionText()| == if form.precision.Some? then 1 + |form.precision.value.Text()| else 0
    ensures form.precision.Some? && form.precision.value.Written? ==>
              AllDigits(form.precision.value.digits) && |form.precision.value.digits| > 0
  {
  }

  /** Precision and length, after a width that has been read. */
  lemma TailReadBack(format: string, h: Head, form: Form, args: seq<Arg>)
    requires form.Valid() && h.prec == 0 && !h.flags.precision && Stands(format, h.next, form.PrecisionText())
    requires Stands(format, h.next + |form.PrecisionText()|, form.length.Text())
    requires !Continuing(At(format, h.next + |form.PrecisionText()| + |form.length.Text()|))
    ensures var p := if form.precision.Some? then form.precision.value else Absent;
            match ParsePrecision(format, h, args)
            case None => AmountValue(p, args, h.used).None?
            case Some(r) =>
              && AmountValue(p, args, h.used).Some?
              && var n := AmountValue(p, args, h.used).value;
              ParseLength(format, r)
              == Head(form.length.On(PreciseIf(h.flags, form.precision.Some?)), h.width, if n < 0 then 0 else n,
                      h.next + |form.PrecisionText()| + |form.length.Text()|, h.used + Uses(p))
  {
    hide LeftIf, PreciseIf, Stands, AllDigits, IsDigit, At, ParsePrecision, ParseLength, AmountValue, Amount.Text,
         Length.Text, Form.PrecisionText, Length.On, Form.Valid, Continuing;
    PrecisionStops(format, h.next + |form.PrecisionText()|, form);
    PrecisionIs(form);
    PrecisionReadBack(format, h, form.precision, args);
    var r := ParsePrecision(format, h, args);
    if r.Some? {
      LengthReadBack(format, r.value, form.length);
    }
  }

  lemma PartsStop(format: string, f: nat, form: Form)
    requires form.Valid() && Stands(format, f, form.Text())
    requires !Continuing(At(format, f + |form.Text()|))
    ensures var f1, f2 := f + |form.flags|, f + |form.flags| + |form.width.Text()|;
            !IsFlag(At(format, f1)) && !IsDigit(At(format, f2)) && At(format, f2) != '*'
  {
    hide *;
    PartsStand(format, f, form);
    var f1, f2 := f + |form.flags|, f + |form.flags| + |form.width.Text()|;
    var f3 := f2 + |form.PrecisionText()|;
    Follows(format, f1, form.width.Text());
    Follows(format, f2, form.PrecisionText());
    Follows(format, f3, form.length.Text());
    Stops(form, At(format, f + |form.Text()|));
  }

  lemma WidthIs(form: Form)
    requires form.Valid()
    ensures forall k | 0 <= k < |form.flags| :: IsFlag(form.flags[k])
    ensures form.width.Written? ==> AllDigits(form.width.digits) && |form.width.digits| > 0
  {
  }

  /** Flags and width. */
  lemma StartReadBack(format: string, f: nat, form: Form, args: seq<Arg>, a: nat)
    requires form.Valid() && Stands(format, f, form.Text())
    requires !Continuing(At(format, f + |form.Text()|))
    ensures var f1 := f + |form.flags|;
            && ParseFlags(format, f, NO_FLAGS) == (Flagged(NO_FLAGS, form.flags), f1)
            && ParseWidth(format, Head(Flagged(NO_FLAGS, form.flags), 0, 0, f1, a), args)
               == match AmountValue(form.width, args, a)
                  case None => None
                  case Some(v) => Some(Head(LeftIf(Flagged(NO_FLAGS, form.flags), v < 0), if v < 0 then -v else v, 0,
                                            f1 + |form.width.Text()|, a + Uses(form.width)))
  {
    hide LeftIf, Flagged, ParseFlags, AllDigits, IsDigit, IsFlag, ParseWidth, AmountValue, Amount.Text,
         Length.Text, Form.PrecisionText, Stands, At, Form.Text, Continuing, Uses, Form.Valid;
    PartsStand(format, f, form);
    PartsStop(format, f, form);
    WidthIs(form);
    FlagsReadBack(format, f, form.flags);
    WidthReadBack(format, Head(Flagged(NO_FLAGS, form.flags), 0, 0, f + |form.flags|, a), form.width, args);
  }

  /** Reading a well-formed head gives what it means. */
  lemma HeadRoundTrip(format: string, f: nat, form: Form, args: seq<Arg>, a: nat)
    requires form.Valid() && Stands(format, f, form.Text())
    requires !Continuing(At(format, f + |form.Text()|))
    ensures ParseHead(format, f, args, a) == Meaning(form, f + |form.Text()|, args, a)
  {
    hide Flagged, ParseFlags, Stands, At, ParseWidth, ParsePrecision, ParseLength, AmountValue, Amount.Text,
         Length.Text, Form.PrecisionText, Form.Text, Length.On, Continuing, Form.Valid, LeftIf, PreciseIf, Uses;
    PartsStand(format, f, form);
    StartReadBack(format, f, form, args, a);
    var h := Head(Flagged(NO_FLAGS, form.flags), 0, 0, f + |form.flags|, a);
    var r := ParseWidth(format, h, args);
    if r.Some? {
      FlaggedLeaves(form.flags, AmountValue(form.width, args, a).value < 0);
      TailReadBack(format, r.value, form, args);
    }
  }

  lemma FlaggedLeaves(run: string, b: bool)
    ensures !LeftIf(Flagged(NO_FLAGS, run), b).precision
  {
  }

  // ---------------------------------------------------------------- a sign that is lost

  lemma {:induction false} ReversedRepeat(c: char, n: nat)
    ensures Reversed(Repeat(c, n)) == Repeat(c, n)
  {
    if n > 0 {
      ReversedRepeat(c, n - 1);
      assert Repeat(c, n)[1..] == Repeat(c, n - 1);
      assert Repeat(c, n - 1) + [c] == Repeat(c, n);
    }
  }

  /** In a zero-padded field of 33, -1 prints as 1: the zeros leave no room for the sign. */
  lemma SignLost(h: Head)
    requires h.flags == NO_FLAGS.(zeroPad := true) && h.width == 33 && h.prec == 0
    ensures IntegerText('d', 0xFFFF_FFFF, h) == Repeat('0', 31) + "1"
  {
    assert IntegerFlags('d', h.flags) == h.flags && IntegerValue('d', 0xFFFF_FFFF, h.flags) == -1;
    OneDigit(h.flags);
    var buf := "1" + Repeat('0', 31);
    assert ZeroTo(ZeroTo("1", 0), 32) == buf by {
      assert ZeroTo("1", 0) == "1" + Repeat('0', 0 - 1) == "1";
    }
    assert Scratch("1", true, 10, 0, 33, h.flags) == buf;
    assert buf[1..] == Repeat('0', 31);
    ReversedRepeat('0', 31);
    hide Scratch, NumberDigits, Reversed;
    assert Field(buf, 32, h.flags) == Reversed(buf);
  }

  lemma OneDigit(flags: Flags)
    ensures NumberDigits(1, 10, flags) == "1"
  {
    assert Digits(1, 10, flags.upper) == "1";
  }

  const WIDE: Form := Form("0", Written("33"), None, Plain)

  lemma WideStands()
    ensures |WIDE.Text()| == 3 && WIDE.Valid() && Stands("%033d", 1, WIDE.Text()) && !Continuing(At("%033d", 4))
  {
    assert WIDE.Text() == "033";
  }

  lemma WideMeans(next: nat)
    ensures Meaning(WIDE, next, [Word(0xFFFF_FFFF)], 0) == Some(Head(NO_FLAGS.(zeroPad := true), 33, 0, next, 0))
  {
    assert Parse("33", 10) == 33 by {
      assert "33"[..1] == "3" && "3"[..0] == "";
    }
    assert Flagged(NO_FLAGS, "0") == NO_FLAGS.(zeroPad := true);
  }

  lemma HeadOfWide()
    ensures ParseHead("%033d", 1, [Word(0xFFFF_FFFF)], 0) == Some(Head(NO_FLAGS.(zeroPad := true), 33, 0, 4, 0))
  {
    hide *;
    WideStands();
    HeadRoundTrip("%033d", 1, WIDE, [Word(0xFFFF_FFFF)], 0);
    WideMeans(4);
  }

  /** As a format string: `%033d` of -1. */
  lemma SignLostInFormat()
    ensures Render("%033d", 0, [Word(0xFFFF_FFFF)], 0) == Some(Repeat('0', 31) + "1")
  {
    hide ParseHead, IntegerText, Parse, Repeat;
    HeadOfWide();
    SignLost(Head(NO_FLAGS.(zeroPad := true), 33, 0, 4, 0));
    assert Render("%033d", 5, [Word(0xFFFF_FFFF)], 1) == Some("");
    assert Repeat('0', 31) + "1" + "" == Repeat('0', 31) + "1";
  }

  // ---------------------------------------------------------------- digits that are lost

  lemma OneMoreDigit(value: nat, higher: nat, last: nat, digits: string, upper: bool)
    requires value == 16 * higher + last && 0 < higher && last < 10 && Digits(higher, 16, upper) == digits
    ensures Digits(value, 16, upper) == [('0' as nat + last) as char] + digits
  {
    NextHex(value, higher, last);
    hide Digits, Quotient, LastDigit, Value;
    DigitsStep(value, 16, upper);
  }

  lemma NextHex(value: nat, higher: nat, last: nat)
    requires value == 16 * higher + last && last < 16
    ensures Quotient(value, 16) == higher && LastDigit(value, 16) == last
  {
    Remainder(value, 16, higher, last);
  }

  lemma EightDigits(upper: bool)
    ensures Digits(0x1234_5678, 16, upper) == "87654321"
  {
    assert Digits(1, 16, upper) == "1";
    hide Digits;
    OneMoreDigit(0x12, 0x1, 2, "1", upper);
    OneMoreDigit(0x123, 0x12, 3, "21", upper);
    OneMoreDigit(0x1234, 0x123, 4, "321", upper);
    OneMoreDigit(0x1_2345, 0x1234, 5, "4321", upper);
    OneMoreDigit(0x12_3456, 0x1_2345, 6, "54321", upper);
    OneMoreDigit(0x123_4567, 0x12_3456, 7, "654321", upper);
    OneMoreDigit(0x1234_5678, 0x123_4567, 8, "7654321", upper);
  }

  lemma ScratchOfEight(flags: Flags)
    requires flags == NO_FLAGS.(hash := true)
    ensures Scratch("87654321", false, 16, 0, 8, flags) == "876543x0"
  {
    var digits := "87654321";
    assert ZeroTo(digits, 0) == digits by {
      assert Repeat('0', 0 - 8) == "";
    }
    assert digits[..7][..6] == "876543";
  }

  lemma FieldOfEight(flags: Flags)
    requires flags == NO_FLAGS.(hash := true)
    ensures Field("876543x0", 8, flags) == "0x345678"
  {
    var s := "876543x0";
    assert s[1..] == "76543x0" && "76543x0"[1..] == "6543x0" && "6543x0"[1..] == "543x0" && "543x0"[1..] == "43x0";
    assert "43x0"[1..] == "3x0" && "3x0"[1..] == "x0" && "x0"[1..] == "0";
    assert Reversed("x0") == "0x" && Reversed("3x0") == "0x3" && Reversed("43x0") == "0x34";
    assert Reversed("543x0") == "0x345" && Reversed("6543x0") == "0x3456" && Reversed("76543x0") == "0x34567";
    assert Repeat(' ', 8 - 8) == "";
  }

  /** In a field of eight, the prefix of an eight-digit hexadecimal number takes the place of its first
      two digits. */
  lemma DigitsLost(h: Head)
    requires h.flags == NO_FLAGS.(hash := true) && h.width == 8 && h.prec == 0
    ensures IntegerText('x', 0x1234_5678, h) == "0x345678"
  {
    assert IntegerFlags('x', h.flags) == h.flags && IntegerValue('x', 0x1234_5678, h.flags) == 0x1234_5678;
    EightDigits(false);
    assert NumberDigits(0x1234_5678, 16, h.flags) == "87654321";
    hide NumberDigits, Scratch, Field;
    ScratchOfEight(h.flags);
    FieldOfEight(h.flags);
  }

  const ALTERNATE: Form := Form("#", Written("8"), None, Plain)

  lemma AlternateStands()
    ensures |ALTERNATE.Text()| == 2 && ALTERNATE.Valid() && Stands("%#8x", 1, ALTERNATE.Text())
    ensures !Continuing(At("%#8x", 3))
  {
    assert ALTERNATE.Text() == "#8";
  }

  lemma AlternateMeans(next: nat)
    ensures Meaning(ALTERNATE, next, [Word(0x1234_5678)], 0) == Some(Head(NO_FLAGS.(hash := true), 8, 0, next, 0))
  {
    assert Parse("8", 10) == 8 by {
      assert "8"[..0] == "";
    }
    assert Flagged(NO_FLAGS, "#") == NO_FLAGS.(hash := true);
  }

  lemma HeadOfAlternate()
    ensures ParseHead("%#8x", 1, [Word(0x1234_5678)], 0) == Some(Head(NO_FLAGS.(hash := true), 8, 0, 3, 0))
  {
    hide *;
    AlternateStands();
    HeadRoundTrip("%#8x", 1, ALTERNATE, [Word(0x1234_5678)], 0);
    AlternateMeans(3);
  }

  /** As a format string: `%#8x` of 0x12345678. */
  lemma DigitsLostInFormat()
    ensures Render("%#8x", 0, [Word(0x1234_5678)], 0) == Some("0x345678")
  {
    hide ParseHead, IntegerText, Parse, Repeat;
    HeadOfAlternate();
    DigitsLost(Head(NO_FLAGS.(hash := true), 8, 0, 3, 0));
    assert Render("%#8x", 4, [Word(0x1234_5678)], 1) == Some("");
    assert "0x345678" + "" == "0x345678";
  }
}
