/** What a format string and its arguments print, without floats. */
module PrintfFormat {
  import opened PrintfSpec
  import opened Wrappers

  /** A variadic argument: an integer or pointer slot, or a C string. */
  datatype Arg = Word(bits: nat) | Text(text: string)

  /** The character at `f`; past the end it is the terminating NUL. */
  function At(format: string, f: nat): char {
    if f < |format| then format[f] else '\0'
  }

  predicate IsDigit(c: char) {
    '0' <= c <= '9'
  }

  lemma TenDigits(c: char)
    ensures IsDigit(c) <==> c in "0123456789"
  {
    assert IsDigit(c) ==> "0123456789"[c as nat - '0' as nat] == c;
  }

  /** `_atoi`, in 32-bit unsigned arithmetic: the number and the position after it. */
  function Atoi(format: string, f: nat, acc: nat): (r: (nat, nat))
    ensures r.1 >= f
    decreases |format| - f
  {
    if f < |format| && IsDigit(format[f]) then
      Atoi(format, f + 1, (acc * 10 + (format[f] as nat - '0' as nat)) % WORD32)
    else (acc, f)
  }

  predicate IsFlag(c: char) {
    c == '0' || c == '-' || c == '+' || c == ' ' || c == '#'
  }

  function SetFlag(flags: Flags, c: char): Flags {
    if c == '0' then flags.(zeroPad := true)
    else if c == '-' then flags.(left := true)
    else if c == '+' then flags.(plus := true)
    else if c == ' ' then flags.(space := true)
    else if c == '#' then flags.(hash := true)
    else flags
  }

  function ParseFlags(format: string, f: nat, flags: Flags): (r: (Flags, nat))
    ensures r.1 >= f
    decreases |format| - f
  {
    if f < |format| && IsFlag(format[f]) then ParseFlags(format, f + 1, SetFlag(flags, format[f])) else (flags, f)
  }

  /** Two's complement reading of the low `half * 2` values. */
  function AsSigned(bits: nat, half: nat): int
    requires half > 0
  {
    var b := bits % (2 * half);
    if b >= half then b - 2 * half else b
  }

  function Int32(bits: nat): int {
    AsSigned(bits, 0x8000_0000)
  }

  /** A parsed directive so far: position in the format, and arguments used. */
  datatype Head = Head(flags: Flags, width: nat, prec: nat, next: nat, used: nat)

  function WordArg(args: seq<Arg>, a: nat): Option<nat> {
    if a < |args| && args[a].Word? then Some(args[a].bits) else None
  }

  function ParseWidth(format: string, h: Head, args: seq<Arg>): (r: Option<Head>)
    ensures r.Some? ==> r.value.next >= h.next
  {
    if IsDigit(At(format, h.next)) then
      var (w, f) := Atoi(format, h.next, 0);
      Some(h.(width := w, next := f))
    else if At(format, h.next) == '*' then
      match WordArg(args, h.used)
      case None => None
      case Some(bits) =>
        var w := Int32(bits);
        Some(h.(flags := if w < 0 then h.flags.(left := true) else h.flags,
                width := if w < 0 then -w else w, next := h.next + 1, used := h.used + 1))
    else Some(h)
  }

  function ParsePrecision(format: string, h: Head, args: seq<Arg>): (r: Option<Head>)
    ensures r.Some? ==> r.value.next >= h.next
  {
    if At(format, h.next) != '.' then Some(h)
    else
      var p := h.(flags := h.flags.(precision := true), next := h.next + 1);
      if IsDigit(At(format, p.next)) then
        var (n, f) := Atoi(format, p.next, 0);
        Some(p.(prec := n, next := f))
      else if At(format, p.next) == '*' then
        match WordArg(args, p.used)
        case None => None
        case Some(bits) =>
          var n := Int32(bits);
          Some(p.(prec := if n > 0 then n else 0, next := p.next + 1, used := p.used + 1))
      else Some(p)
  }

  function ParseLength(format: string, h: Head): (r: Head)
    ensures r.next >= h.next
  {
    var c := At(format, h.next);
    if c == 'l' then
      if At(format, h.next + 1) == 'l' then h.(flags := h.flags.(long := true, longLong := true), next := h.next + 2)
      else h.(flags := h.flags.(long := true), next := h.next + 1)
    else if c == 'h' then
      if At(format, h.next + 1) == 'h' then h.(flags := h.flags.(short := true, char8 := true), next := h.next + 2)
      else h.(flags := h.flags.(short := true), next := h.next + 1)
    else if c == 't' || c == 'j' || c == 'z' then h.(flags := h.flags.(long := true), next := h.next + 1)
    else h
  }

  function ParseHead(format: string, f: nat, args: seq<Arg>, a: nat): (r: Option<Head>)
    ensures r.Some? ==> r.value.next >= f
  {
    var (flags, f1) := ParseFlags(format, f, NO_FLAGS);
    match ParseWidth(format, Head(flags, 0, 0, f1, a), args)
    case None => None
    case Some(h) =>
      match ParsePrecision(format, h, args)
      case None => None
      case Some(p) => Some(ParseLength(format, p))
  }

  function BaseOf(c: char): (r: nat)
    ensures 2 <= r <= 16
  {
    if c == 'x' || c == 'X' then 16 else if c == 'o' then 8 else if c == 'b' then 2 else 10
  }

  predicate IsInteger(c: char) {
    c == 'd' || c == 'i' || c == 'u' || c == 'x' || c == 'X' || c == 'o' || c == 'b'
  }

  predicate IsFloat(c: char) {
    c == 'f' || c == 'F' || c == 'e' || c == 'E' || c == 'g' || c == 'G'
  }

  predicate IsSigned(c: char) {
    c == 'd' || c == 'i'
  }

  /** The flags as the integer conversions see them. */
  function IntegerFlags(c: char, flags: Flags): Flags {
    var f1 := if BaseOf(c) == 10 then flags.(hash := false) else flags;
    var f2 := if c == 'X' then f1.(upper := true) else f1;
    var f3 := if !IsSigned(c) then f2.(plus := false, space := false) else f2;
    if f3.precision then f3.(zeroPad := false) else f3
  }

  /** The argument at the width its length modifier gives it. */
  function IntegerValue(c: char, bits: nat, flags: Flags): int {
    if IsSigned(c) then
      if flags.longLong || flags.long then AsSigned(bits, 0x8000_0000_0000_0000)
      else if flags.char8 then AsSigned(bits, 0x80)
      else if flags.short then AsSigned(bits, 0x8000)
      else Int32(bits)
    else if flags.longLong || flags.long then bits % WORD64
    else if flags.char8 then bits % 0x100
    else if flags.short then bits % 0x1_0000
    else bits % WORD32
  }

  function Magnitude(v: int): nat {
    if v > 0 then v else -v
  }

  function IntegerText(c: char, bits: nat, h: Head): string {
    var flags := IntegerFlags(c, h.flags);
    var v := IntegerValue(c, bits, flags);
    Number(Magnitude(v), v < 0, BaseOf(c), h.prec, h.width, flags)
  }

  /** The length of a C string. */
  function Length(s: string, i: nat): (r: nat)
    requires i <= |s|
    ensures i <= r <= |s| && (r < |s| ==> s[r] == '\0') && forall k | i <= k < r :: s[k] != '\0'
    decreases |s| - i
  {
    if i == |s| || s[i] == '\0' then i else Length(s, i + 1)
  }

  /** What `%s` shows of a string. */
  function Shown(s: string, h: Head): string {
    var n := Length(s, 0);
    s[..if h.flags.precision then Min(n, h.prec) else n]
  }

  function InField(text: string, h: Head): string {
    if h.flags.left then text + Repeat(' ', h.width - |text|) else Repeat(' ', h.width - |text|) + text
  }

  function PointerText(bits: nat, h: Head): string {
    Number(bits % WORD64, false, 16, h.prec, 16, h.flags.(zeroPad := true, upper := true))
  }

  /** The text of a directive whose specifier is `c`, and the arguments used up to there; None for
      floats, for a format that ends here, and for missing or ill-typed arguments. */
  function Directive(c: char, h: Head, args: seq<Arg>): Option<(string, nat)> {
    if c == '\0' || IsFloat(c) then None
    else if IsInteger(c) || c == 'c' || c == 'p' then
      match WordArg(args, h.used)
      case None => None
      case Some(bits) =>
        Some((if IsInteger(c) then IntegerText(c, bits, h)
              else if c == 'c' then InField([(bits % 256) as char], h)
              else PointerText(bits, h), h.used + 1))
    else if c == 's' then
      if h.used < |args| && args[h.used].Text? then Some((InField(Shown(args[h.used].text, h), h), h.used + 1))
      else None
    else Some(([c], h.used))
  }

  /** The whole output for the format from position `f` on. */
  function Render(format: string, f: nat, args: seq<Arg>, a: nat): Option<string>
    decreases |format| - f
  {
    if At(format, f) == '\0' then Some("")
    else if format[f] != '%' then
      match Render(format, f + 1, args, a)
      case None => None
      case Some(rest) => Some([format[f]] + rest)
    else
      match ParseHead(format, f + 1, args, a)
      case None => None
      case Some(h) =>
        match Directive(At(format, h.next), h, args)
        case None => None
        case Some((text, used)) =>
          match Render(format, h.next + 1, args, used)
          case None => None
          case Some(rest) => Some(text + rest)
  }

  /** A format without directives prints itself, up to its end or its first NUL. */
  lemma {:induction false} PlainFormat(format: string, f: nat, n: nat, args: seq<Arg>, a: nat)
    requires f <= n <= |format| && (n < |format| ==> format[n] == '\0')
    requires forall i | f <= i < n :: format[i] != '%' && format[i] != '\0'
    ensures Render(format, f, args, a) == Some(format[f..n])
    decreases n - f
  {
    hide ParseHead, Directive;
    if f < n {
      PlainFormat(format, f + 1, n, args, a);
      assert format[f..n] == [format[f]] + format[f + 1..n];
    } else {
      assert format[f..n] == "";
    }
  }

  /** An integer directive shows its argument's value: without flags, width or precision it prints
      a minus sign if that is negative, and digits that parse back to the magnitude. */
  lemma IntegerParsesBack(c: char, bits: nat, h: Head)
    requires IsInteger(c) && h.width == 0 && h.prec == 0 && Unflagged(h.flags)
    ensures var t, v := IntegerText(c, bits, h), IntegerValue(c, bits, h.flags);
            if v >= 0 then Parse(t, BaseOf(c)) == Kept(v, BaseOf(c))
            else |t| > 0 && t[0] == '-' && Parse(t[1..], 10) == -v
  {
    hide *;
    var flags := IntegerFlags(c, h.flags);
    var v := IntegerValue(c, bits, h.flags);
    ValueRange(c, bits, h.flags);
    FlagsKeepValue(c, bits, h.flags);
    TextOfValue(c, bits, h);
    if v >= 0 {
      PlainNumberParsesBack(v, BaseOf(c), flags);
    } else {
      NegativeParsesBack(-v, flags);
    }
  }

  lemma TextOfValue(c: char, bits: nat, h: Head)
    requires h.width == 0 && h.prec == 0 && Unflagged(h.flags)
    ensures var flags, v := IntegerFlags(c, h.flags), IntegerValue(c, bits, h.flags);
            IntegerText(c, bits, h) == Number(if v < 0 then -v else v, v < 0, BaseOf(c), 0, 0, flags)
  {
    FlagsKeepValue(c, bits, h.flags);
    hide IntegerValue, IntegerFlags, Number;
  }

  lemma FlagsKeepValue(c: char, bits: nat, flags: Flags)
    requires Unflagged(flags)
    ensures IntegerValue(c, bits, IntegerFlags(c, flags)) == IntegerValue(c, bits, flags)
    ensures Unflagged(IntegerFlags(c, flags)) && (IntegerValue(c, bits, flags) < 0 ==> BaseOf(c) == 10)
    ensures BaseOf(c) == 2 || BaseOf(c) == 8 || BaseOf(c) == 10 || BaseOf(c) == 16
  {
    hide AsSigned, Int32;
  }

  lemma ValueRange(c: char, bits: nat, flags: Flags)
    ensures 0 < IntegerValue(c, bits, flags) + WORD64 && IntegerValue(c, bits, flags) < WORD64
  {
  }
}
