/** The bounded printer: characters go to a buffer by index, and those past its end are dropped. */
module Printf {
  import opened PrintfFormat
  import opened PrintfHead
  import opened PrintfSpec
  import opened Wrappers

  /** The output function with its buffer, limit and running index. */
  class Sink {
    const buffer: array<char>
    const maxlen: nat
    var idx: nat
    /** Everything output so far, and what the buffer held at the start. */
    ghost var text: string
    ghost const before: seq<char>

    ghost predicate Valid()
      reads this, buffer
    {
      && maxlen <= buffer.Length == |before| && idx == |text|
      && forall i | 0 <= i < buffer.Length :: buffer[i] == if i < |text| && i < maxlen then text[i] else before[i]
    }

    constructor (buffer: array<char>, maxlen: nat)
      requires maxlen <= buffer.Length
      ensures Valid() && this.buffer == buffer && this.maxlen == maxlen && text == "" && before == buffer[..]
    {
      this.buffer, this.maxlen, idx, text, before := buffer, maxlen, 0, "", buffer[..];
    }

    /** `out(c, buffer, idx++, maxlen)`. */
    method Out(c: char)
      requires Valid()
      modifies this, buffer
      ensures Valid() && text == old(text) + [c]
    {
      if idx < maxlen {
        buffer[idx] := c;
      }
      idx := idx + 1;
      text := text + [c];
    }

    /** `out` in a loop, a number of times. */
    method Pad(n: int)
      requires Valid()
      modifies this, buffer
      ensures Valid() && text == old(text) + Repeat(' ', n)
    {
      var i := 0;
      while i < n
        invariant Valid() && 0 <= i && (i <= n || i == 0) && text == old(text) + Repeat(' ', i)
      {
        Out(' ');
        i := i + 1;
        assert Repeat(' ', i) == Repeat(' ', i - 1) + [' '];
      }
      assert i != n ==> Repeat(' ', i) == Repeat(' ', n);
    }

    static lemma ReversedTail(s: string, k: nat)
      requires k < |s|
      ensures Reversed(s[k..]) == Reversed(s[k + 1..]) + [s[k]]
    {
      assert s[k..][1..] == s[k + 1..];
    }

    /** `_out_rev`. */
    method OutRev(buf: array<char>, len0: nat, width: nat, flags: Flags)
      requires Valid() && len0 <= buf.Length && buf != buffer
      modifies this, buffer
      ensures Valid() && text == old(text) + Field(buf[..len0], width, flags)
    {
      hide Reversed, Repeat;
      var startIdx := idx;
      ghost var s, t := buf[..len0], text;
      ghost var pre := if !flags.left && !flags.zeroPad then Repeat(' ', width - len0) else "";
      if !flags.left && !flags.zeroPad {
        Pad(width - len0);
      }
      var len := len0;
      while len > 0
        invariant Valid() && len <= len0 && text == t + pre + Reversed(s[len..]) && buf[..len0] == s
      {
        len := len - 1;
        ReversedTail(s, len);
        Out(buf[len]);
      }
      assert s[0..] == s;
      if flags.left {
        Pad(width - (idx - startIdx));
      }
      assert text == t + Field(s, width, flags);
    }

    /** Pads the scratch buffer with zeros up to `n` places. */
    static method ZeroFill(buf: array<char>, len0: nat, n: nat) returns (len: nat)
      requires len0 <= buf.Length == SCRATCH
      modifies buf
      ensures len <= SCRATCH && buf[..len] == ZeroTo(old(buf[..len0]), n)
    {
      len := len0;
      while len < n && len < SCRATCH
        invariant len0 <= len <= SCRATCH && (len == len0 || len <= n)
        invariant buf[..len] == old(buf[..len0]) + Repeat('0', len - len0)
      {
        buf[len] := '0';
        len := len + 1;
        assert Repeat('0', len - len0) == Repeat('0', len - 1 - len0) + ['0'];
      }
      assert Repeat('0', len - len0) == Repeat('0', Min(n, SCRATCH) - len0);
    }

    /** `if (len < PRINTF_NTOA_BUFFER_SIZE) buf[len++] = c`. */
    static method Append(buf: array<char>, len0: nat, c: char) returns (len: nat)
      requires len0 <= buf.Length == SCRATCH
      modifies buf
      ensures len <= SCRATCH && buf[..len] == Put(old(buf[..len0]), c)
    {
      len := len0;
      if len < SCRATCH {
        buf[len] := c;
        len := len + 1;
      }
    }

    /** The alternate form of `_ntoa_format`. */
    static method AppendPrefix(buf: array<char>, len0: nat, base: nat, prec: nat, width: nat, flags: Flags)
      returns (len: nat)
      requires len0 <= buf.Length == SCRATCH
      modifies buf
      ensures len <= SCRATCH && buf[..len] == Hashed(old(buf[..len0]), base, prec, width, flags)
    {
      len := len0;
      if !flags.hash {
        return;
      }
      if !flags.precision && len > 0 && (len == prec || len == width) {
        len := len - 1;
        if len > 0 && base == 16 {
          len := len - 1;
        }
      }
      RoomMade(buf[..len0], base, prec, width, flags, len);
      ghost var room := buf[..len];
      assert room == buf[..len0][..len] == MakeRoom(buf[..len0], base, prec, width, flags);
      hide MakeRoom, Put;
      if base == 16 && !flags.upper {
        len := Append(buf, len, 'x');
      } else if base == 16 && flags.upper {
        len := Append(buf, len, 'X');
      } else if base == 2 {
        len := Append(buf, len, 'b');
      }
      len := Append(buf, len, '0');
    }

    static lemma RoomMade(s: string, base: nat, prec: nat, width: nat, flags: Flags, len: nat)
      requires len <= |s|
      requires len == if !flags.precision && |s| > 0 && (|s| == prec || |s| == width) then
                        (if |s| > 1 && base == 16 then |s| - 2 else |s| - 1) else |s|
      ensures MakeRoom(s, base, prec, width, flags) == s[..len]
    {
    }

    /** `_ntoa_format`. */
    method NtoaFormat(buf: array<char>, len0: nat, negative: bool, base: nat, prec: nat, width0: nat, flags: Flags)
      requires Valid() && len0 <= buf.Length == SCRATCH && buf != buffer
      modifies this, buffer, buf
      ensures Valid()
      ensures text == old(text) + Field(Scratch(old(buf[..len0]), negative, base, prec, width0, flags),
                                        FieldWidth(width0, negative, flags), flags)
    {
      hide Field, Hashed, ZeroTo;
      var len, width := len0, width0;
      if !flags.left {
        if width != 0 && flags.zeroPad && (negative || flags.plus || flags.space) {
          width := width - 1;
        }
        len := ZeroFill(buf, len, prec);
        if flags.zeroPad {
          len := ZeroFill(buf, len, width);
        }
      }
      assert width == FieldWidth(width0, negative, flags);
      assert buf[..len] == Padded(old(buf[..len0]), prec, width, flags);
      hide Padded, FieldWidth;
      len := AppendPrefix(buf, len, base, prec, width, flags);
      if negative {
        len := Append(buf, len, '-');
      } else if flags.plus {
        len := Append(buf, len, '+');
      } else if flags.space {
        len := Append(buf, len, ' ');
      }
      OutRev(buf, len, width, flags);
    }

    /** The digit loop of `_ntoa_long`. */
    static method WriteDigits(buf: array<char>, value0: nat, base: nat, upper: bool) returns (len: nat)
      requires buf.Length == SCRATCH && 2 <= base <= 16
      modifies buf
      ensures len <= SCRATCH && buf[..len] == Capped(Digits(value0, base, upper))
    {
      len := 0;
      var value: nat := value0;
      var more := true;
      ghost var all := Digits(value0, base, upper);
      assert Writing(all, buf[..0], value, base, upper, more) by {
        assert "" + all == all;
      }
      hide Writing, DigitChar, Digits, Capped, Quotient, LastDigit;
      while more
        invariant len <= SCRATCH && (more ==> len < SCRATCH)
        invariant Writing(all, buf[..len], value, base, upper, more)
        decreases if more then SCRATCH - len else -1
      {
        WritingStep(all, buf[..len], value, base, upper);
        len := Append(buf, len, DigitChar(LastDigit(value, base), upper));
        value := Quotient(value, base);
        more := value != 0 && len < SCRATCH;
      }
      WritingEnds(all, buf[..len], value, base, upper);
    }

    static lemma WritingEnds(all: string, done: string, value: nat, base: nat, upper: bool)
      requires 2 <= base <= 16 && Writing(all, done, value, base, upper, false)
      ensures done == Capped(all)
    {
    }

    /** The digits written so far, and, as long as there are more, those of the rest of the value. */
    static ghost predicate Writing(all: string, done: string, value: nat, base: nat, upper: bool, more: bool)
      requires 2 <= base <= 16
    {
      if more then |done| < SCRATCH && all == done + Digits(value, base, upper) else done == Capped(all)
    }

    static lemma WritingStep(all: string, done: string, value: nat, base: nat, upper: bool)
      requires 2 <= base <= 16 && Writing(all, done, value, base, upper, true)
      ensures |done| < SCRATCH
      ensures var next := done + [DigitChar(LastDigit(value, base), upper)];
              Writing(all, next, Quotient(value, base), base, upper, Quotient(value, base) != 0 && |next| < SCRATCH)
    {
      hide DigitChar, Digits, Quotient, LastDigit, Capped, Join, Value;
      var next, rest := done + [DigitChar(LastDigit(value, base), upper)], RestOf(value, base, upper);
      DigitsStep(value, base, upper);
      assert all == next + rest;
      CapsAt(next, rest);
    }

    static lemma CapsAt(s: string, rest: string)
      requires |s| <= SCRATCH
      ensures |rest| == 0 || |s| == SCRATCH ==> Capped(s + rest) == s
    {
    }

    /** `_ntoa_long`, and `_ntoa_long_long`, which is the same at 64 bits. */
    method NtoaLong(value: nat, negative: bool, base: nat, prec: nat, width: nat, flags0: Flags)
      requires Valid() && 2 <= base <= 16
      modifies this, buffer
      ensures Valid() && text == old(text) + Number(value, negative, base, prec, width, flags0)
    {
      var buf := new char[SCRATCH];
      var len := 0;
      var flags := flags0;
      if value == 0 {
        flags := flags.(hash := false);
      }
      if !flags.precision || value != 0 {
        len := WriteDigits(buf, value, base, flags.upper);
      }
      assert buf[..len] == NumberDigits(value, base, flags);
      hide NumberDigits, Scratch, Field, FieldWidth;
      NtoaFormat(buf, len, negative, base, prec, width, flags);
    }

    /** The flag loop. */
    static method ReadFlags(format: string, f0: nat) returns (flags: Flags, f: nat)
      requires f0 <= |format|
      ensures (flags, f) == ParseFlags(format, f0, NO_FLAGS)
      ensures f0 <= f <= |format| && (forall k | f0 <= k < f :: IsFlag(format[k]))
      ensures f < |format| ==> !IsFlag(format[f])
      ensures flags == Flagged(NO_FLAGS, format[f0..f])
    {
      FlagsMean(format, f0, NO_FLAGS);
      hide Flagged, SetFlag;
      flags, f := NO_FLAGS, f0;
      while f < |format| && IsFlag(format[f])
        invariant f >= f0 && ParseFlags(format, f0, NO_FLAGS) == ParseFlags(format, f, flags)
      {
        flags := SetFlag(flags, format[f]);
        f := f + 1;
      }
    }

    /** `_atoi`. */
    static method ReadNumber(format: string, f0: nat) returns (n: nat, f: nat)
      requires f0 <= |format|
      ensures (n, f) == Atoi(format, f0, 0)
      ensures f0 <= f <= |format| && AllDigits(format[f0..f]) && (f < |format| ==> !IsDigit(format[f]))
      ensures n == Parse(format[f0..f], 10) % WORD32
    {
      NumberMeans(format, f0);
      hide Parse;
      n, f := 0, f0;
      while f < |format| && IsDigit(format[f])
        invariant f >= f0 && Atoi(format, f0, 0) == Atoi(format, f, n)
      {
        n := (n * 10 + (format[f] as nat - '0' as nat)) % WORD32;
        f := f + 1;
      }
    }

    /** Flags, width, precision and length of a directive. */
    static method ReadHead(format: string, f0: nat, args: seq<Arg>, a0: nat) returns (r: Option<Head>)
      requires f0 <= |format|
      ensures r == ParseHead(format, f0, args, a0)
    {
      hide ParseFlags, Atoi, ParseLength, Flagged, Parse, AllDigits, IsFlag, Int32;
      var flags, f := ReadFlags(format, f0);
      var h := Head(flags, 0, 0, f, a0);
      if IsDigit(At(format, f)) {
        var n, after := ReadNumber(format, f);
        h := h.(width := n, next := after);
      } else if At(format, f) == '*' {
        var bits := WordArg(args, a0);
        if bits.None? {
          return None;
        }
        var w := Int32(bits.value);
        if w < 0 {
          h := h.(flags := h.flags.(left := true), width := -w);
        } else {
          h := h.(width := w);
        }
        h := h.(next := f + 1, used := a0 + 1);
      }
      assert ParseWidth(format, Head(flags, 0, 0, f, a0), args) == Some(h);
      hide ParseWidth;
      ghost var afterWidth := h;
      if At(format, h.next) == '.' {
        h := h.(flags := h.flags.(precision := true), next := h.next + 1);
        if IsDigit(At(format, h.next)) {
          var n, after := ReadNumber(format, h.next);
          h := h.(prec := n, next := after);
        } else if At(format, h.next) == '*' {
          var bits := WordArg(args, h.used);
          if bits.None? {
            return None;
          }
          var n := Int32(bits.value);
          h := h.(prec := if n > 0 then n else 0, next := h.next + 1, used := h.used + 1);
        }
      }
      assert ParsePrecision(format, afterWidth, args) == Some(h);
      return Some(ParseLength(format, h));
    }

    /** The text in a field of spaces: the character and string conversions. */
    method OutField(s: string, h: Head)
      requires Valid()
      modifies this, buffer
      ensures Valid() && text == old(text) + InField(s, h)
    {
      ghost var t := text;
      if !h.flags.left {
        Pad(h.width - |s|);
      }
      ghost var u := text;
      var p := 0;
      while p < |s|
        invariant Valid() && p <= |s| && text == u + s[..p]
      {
        Out(s[p]);
        p := p + 1;
        assert s[..p] == s[..p - 1] + [s[p - 1]];
      }
      assert s[..|s|] == s;
      if h.flags.left {
        Pad(h.width - |s|);
      }
      assert text == t + InField(s, h);
    }

    /** One conversion; `c` is its specifier. */
    method Convert(c: char, h: Head, args: seq<Arg>) returns (ok: bool, used: nat)
      requires Valid()
      modifies this, buffer
      ensures Valid()
      ensures ok <==> Directive(c, h, args).Some?
      ensures ok ==> text == old(text) + Directive(c, h, args).value.0 && used == Directive(c, h, args).value.1
    {
      hide Number, InField, Shown, IntegerFlags, IntegerValue;
      ok, used := true, h.used;
      if c == '\0' || IsFloat(c) {
        return false, used;
      }
      if IsInteger(c) || c == 'c' || c == 'p' {
        var bits := WordArg(args, h.used);
        if bits.None? {
          return false, used;
        }
        used := used + 1;
        if IsInteger(c) {
          var flags := IntegerFlags(c, h.flags);
          var v := IntegerValue(c, bits.value, flags);
          NtoaLong(Magnitude(v), v < 0, BaseOf(c), h.prec, h.width, flags);
        } else if c == 'c' {
          OutField([(bits.value % 256) as char], h);
        } else {
          NtoaLong(bits.value % WORD64, false, 16, h.prec, 16, h.flags.(zeroPad := true, upper := true));
        }
      } else if c == 's' {
        if !(h.used < |args| && args[h.used].Text?) {
          return false, used;
        }
        used := used + 1;
        OutField(Shown(args[h.used].text, h), h);
      } else {
        Out(c);
      }
    }

    /** `_vsnprintf` up to the termination: everything the format asks for. */
    method Vprintf(format: string, args: seq<Arg>) returns (ok: bool)
      requires Valid() && text == ""
      modifies this, buffer
      ensures Valid() && (ok <==> Render(format, 0, args, 0).Some?)
      ensures ok ==> text == Render(format, 0, args, 0).value
    {
      hide ParseHead, Directive;
      var f, a := 0, 0;
      ghost var whole := Render(format, 0, args, 0);
      if whole.Some? {
        assert "" + whole.value == whole.value;
      }
      while At(format, f) != '\0'
        invariant Valid() && Continues(whole, text, Render(format, f, args, a))
        decreases |format| - f
      {
        ghost var t := text;
        if format[f] != '%' {
          Out(format[f]);
          ContinuesWith(whole, t, [format[f]], Render(format, f + 1, args, a));
          f := f + 1;
        } else {
          var h := ReadHead(format, f + 1, args, a);
          if h.None? {
            return false;
          }
          var used;
          ok, used := Convert(At(format, h.value.next), h.value, args);
          if !ok {
            return;
          }
          ContinuesWith(whole, t, Directive(At(format, h.value.next), h.value, args).value.0,
                        Render(format, h.value.next + 1, args, used));
          f, a := h.value.next + 1, used;
        }
      }
      assert text + "" == text;
      ok := true;
    }
  }

  /** The whole output is what has been printed and what is still to come. */
  ghost predicate Continues(whole: Option<string>, text: string, rest: Option<string>) {
    whole == match rest case None => None case Some(r) => Some(text + r)
  }

  lemma ContinuesWith(whole: Option<string>, text: string, next: string, rest: Option<string>)
    requires Continues(whole, text, match rest case None => None case Some(r) => Some(next + r))
    ensures Continues(whole, text + next, rest)
  {
    if rest.Some? {
      assert text + (next + rest.value) == text + next + rest.value;
    }
  }

  /** The number returned: the length, converted to a 32-bit `int`. */
  function Returned(text: string): (r: int)
    ensures |text| < 0x8000_0000 ==> r == |text|
  {
    Int32(|text|)
  }

  /** What a buffer of `n` characters holds after printing: as much of the text as fits before a
      terminating NUL, and beyond that what it held before. */
  ghost predicate HoldsText(before: seq<char>, after: seq<char>, text: string, n: nat)
    requires n <= |before|
  {
    && |after| == |before|
    && if n == 0 then after == before
       else
         var k := Min(|text|, n - 1);
         after[..k] == text[..k] && after[k] == '\0' && after[k + 1..] == before[k + 1..]
  }

  /** `snprintf_`: the text does not depend on the size of the buffer, only how much of it shows. */
  method Snprintf(buffer: array<char>, count: nat, format: string, args: seq<Arg>) returns (ok: bool, r: int)
    requires count <= buffer.Length
    modifies buffer
    ensures buffer[count..] == old(buffer[count..])
    ensures ok <==> Render(format, 0, args, 0).Some?
    ensures ok ==> r == Returned(Render(format, 0, args, 0).value)
    ensures ok ==> HoldsText(old(buffer[..]), buffer[..], Render(format, 0, args, 0).value, count)
  {
    var sink := new Sink(buffer, count);
    ok := sink.Vprintf(format, args);
    r := 0;
    if !ok {
      return;
    }
    ghost var t := sink.text;
    var last := if sink.idx < count then sink.idx else count - 1;
    if 0 <= last < count {
      buffer[last] := '\0';
    }
    r := Int32(sink.idx);
  }
}
