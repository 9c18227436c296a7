/** The printf engine of sprintf.c: a write context that clips or prints, and the formatter
    that writes through it. */
module Sprintf {
  import opened Layouts
  import opened FormatText
  import opened FormatMeaning

  /** A buffer of capacity `cap` after `text` was written to it: room is left for a NUL, and
      what lies beyond is as it was. */
  function Clipped(before: seq<char>, text: string, cap: nat): (s: seq<char>)
    ensures |s| == |before|
  {
    seq(|before|, i requires 0 <= i < |before| => if i < |text| && i + 1 < cap then text[i] else before[i])
  }

  lemma ClippedNext(before: seq<char>, text: string, cap: nat, c: char)
    requires cap <= |before|
    ensures Clipped(before, text + [c], cap) ==
      if |text| + 1 < cap then Clipped(before, text, cap)[|text| := c] else Clipped(before, text, cap)
  {
  }

  /** A buffer receives exactly the first characters of the text, one less than its capacity,
      and no other byte changes. */
  lemma ClippedMeaning(before: seq<char>, text: string, cap: nat)
    requires cap <= |before|
    ensures var n := if |text| < cap - 1 then |text| else Max(cap - 1, 0);
      Clipped(before, text, cap) == text[..n] + before[n..]
  {
  }

  class FormatContext {
    /** Whether characters go to the console. */
    const flag: bool
    const buf: array?<char>
    const cap: nat
    var pos: nat
    /** What the console has been given. */
    var shown: seq<char>

    ghost const before: seq<char>
    ghost var text: string

    ghost predicate Valid()
      reads this, if buf == null then {} else {buf}
    {
      && pos == |text|
      && (flag ==> shown == text)
      && (!flag ==> shown == [])
      && (buf != null ==> cap <= buf.Length && |before| == buf.Length)
      && (buf != null ==> buf[..] == if flag then before else Clipped(before, text, cap))
    }

    constructor (flag: bool, buf: array?<char>, cap: nat)
      requires buf != null ==> cap <= buf.Length
      ensures Valid() && text == "" && this.flag == flag && this.buf == buf && this.cap == cap
      ensures buf != null ==> before == buf[..]
    {
      this.flag, this.buf, this.cap := flag, buf, cap;
      pos, shown, text := 0, [], "";
      before := if buf == null then [] else buf[..];
      new;
      if buf != null { assert Clipped(before, "", cap) == before; }
    }

    /** ctx_putc. */
    method Putc(ch: char)
      requires Valid()
      modifies this`pos, this`shown, this`text, buf
      ensures Valid() && text == old(text) + [ch]
    {
      if buf != null && !flag { ClippedNext(before, text, cap, ch); }
      if !flag {
        if buf != null && pos + 1 < cap {
          buf[pos] := ch;
        }
      } else {
        shown := shown + [ch];
      }
      pos := pos + 1;
      text := text + [ch];
    }

    /** ctx_fill. */
    method Fill(ch: char, n: nat)
      requires Valid()
      modifies this`pos, this`shown, this`text, buf
      ensures Valid() && text == old(text) + Repeat(ch, n)
    {
      var i := 0;
      while i < n
        invariant i <= n && Valid() && text == old(text) + Repeat(ch, i)
      {
        Putc(ch);
        i := i + 1;
      }
    }

    /** ctx_write. */
    method Write(s: string)
      requires Valid()
      modifies this`pos, this`shown, this`text, buf
      ensures Valid() && text == old(text) + s
    {
      var i := 0;
      while i < |s|
        invariant i <= |s| && Valid() && text == old(text) + s[..i]
      {
        Putc(s[i]);
        assert s[..i + 1] == s[..i] + [s[i]];
        i := i + 1;
      }
      assert s[..|s|] == s;
    }

    /** The writes every field ends with: padding, prefix, zeros, body, padding. */
    method Field(lead: nat, prefix: string, zeros: nat, body: string, trail: nat)
      requires Valid()
      modifies this`pos, this`shown, this`text, buf
      ensures Valid()
      ensures text == old(text) + (Repeat(' ', lead) + prefix + Repeat('0', zeros) + body + Repeat(' ', trail))
    {
      hide Repeat, Clipped;
      ghost var text0 := text;
      Fill(' ', lead);
      Write(prefix);
      Fill('0', zeros);
      Write(body);
      Fill(' ', trail);
      Joined(text0, Repeat(' ', lead), prefix, Repeat('0', zeros), body, Repeat(' ', trail));
    }

    /** emit_int. */
    method EmitInt(uval: nat, base: nat, flags: Flags, width: nat, prec: int)
      requires Valid() && IsBase(base) && |Digits(uval, base)| <= ITOA_DIGITS
      modifies this`pos, this`shown, this`text, buf
      ensures Valid() && text == old(text) + IntText(uval, base, flags, width, prec)
    {
      hide Digits, Repeat, Clipped, Chars, DigitText, Prefix, IntText, Valid;
      var digits := NumberText(uval, base, flags.upper);
      var ndigits := |digits|;
      var prefix := PrefixOf(uval, base, flags, digits);
      var minDigits := if prec >= 0 then prec else 0;
      var zpad := if minDigits > ndigits then minDigits - ndigits else 0;
      var payload := |prefix| + zpad + ndigits;
      var pad := if payload < width then width - payload else 0;
      var zeroPad := flags.zero && !flags.prec && !flags.left;
      IntField(uval, base, flags, width, prec, zpad, pad);
      Field(if !flags.left && !zeroPad then pad else 0, prefix, if zeroPad then pad + zpad else zpad, digits,
            if flags.left then pad else 0);
    }

    /** emit_str. */
    method EmitStr(s: Option<string>, flags: Flags, width: nat, prec: int)
      requires Valid()
      modifies this`pos, this`shown, this`text, buf
      ensures Valid() && text == old(text) + StrText(s, flags, width, prec)
    {
      hide Repeat, Clipped, CText, Valid;
      var str := if s.None? then "(null)" else s.value;
      var len := Strlen(str);
      if flags.prec && prec >= 0 && prec < len {
        len := prec;
      }
      var pad := if len < width then width - len else 0;
      assert str[..len] == CText(str)[..len];
      NoneRepeated();
      Field(if !flags.left then pad else 0, str[..len], 0, "", if flags.left then pad else 0);
      Plain(Repeat(' ', if !flags.left then pad else 0), str[..len], Repeat(' ', if flags.left then pad else 0));
    }

    /** emit_char. */
    method EmitChar(ch: char, flags: Flags, width: nat)
      requires Valid()
      modifies this`pos, this`shown, this`text, buf
      ensures Valid() && text == old(text) + CharText(ch, flags, width)
    {
      hide Repeat, Clipped, Valid;
      var pad := if width > 1 then width - 1 else 0;
      NoneRepeated();
      Field(if !flags.left then pad else 0, [ch], 0, "", if flags.left then pad else 0);
      Plain(Repeat(' ', if !flags.left then pad else 0), [ch], Repeat(' ', if flags.left then pad else 0));
    }

    // ------------------------------------------------------------ the formatter

    /** The conversion switch of core_vsnprintf (sprintf.c:431-596). It is done exactly for the
        conversions the model covers: no floating-point number, no octal number too long for
        the conversion buffer. */
    method Convert(s: Spec, c: char) returns (done: bool, args: seq<Arg>)
      requires Valid()
      modifies this`pos, this`shown, this`text, buf
      ensures Valid() && (done <==> Printable(s, c))
      ensures if done then text == old(text) + Converted(s, c).0 && args == Converted(s, c).1 else text == old(text)
      ensures done && !s.flags.neg && !s.flags.upper ==> Shows(s, c, text[|old(text)|..], args)
    {
      hide Repeat, Clipped, Digits, IntText, StrText, CharText, Valid, Low, Signed, BitsOf, Shows;
      if c != 'f' && c != 'F' && !s.flags.neg && !s.flags.upper { ConvertedShows(s, c); }
      args := s.args;
      var w := NextWord(s.args);
      done := true;
      if c == '%' {
        Putc('%');
      } else if c == 'c' {
        args := Rest(args);
        EmitChar((w % 256) as char, s.flags, s.width);
      } else if c == 's' {
        args := Rest(args);
        EmitStr(NextText(s.args), s.flags, s.width, s.prec);
      } else if c == 'd' || c == 'i' {
        args := Rest(args);
        var sval := Signed(w, BitsOf(c, s.len));
        var flags := s.flags.(neg := sval < 0);
        AllFit(if sval < 0 then -sval else sval, 10);
        EmitInt(if sval < 0 then -sval else sval, 10, flags, s.width, s.prec);
      } else if c == 'u' {
        args := Rest(args);
        var uval := Low(w, BitsOf(c, s.len));
        AllFit(uval, 10);
        EmitInt(uval, 10, s.flags, s.width, s.prec);
      } else if c == 'o' {
        args := Rest(args);
        var uval := Low(w, BitsOf(c, s.len));
        OctalFits(uval);
        if uval >= 0x8000_0000_0000_0000 {
          return false, args;
        }
        EmitInt(uval, 8, s.flags, s.width, s.prec);
      } else if c == 'x' || c == 'X' {
        args := Rest(args);
        var uval := Low(w, BitsOf(c, s.len));
        AllFit(uval, 16);
        EmitInt(uval, 16, s.flags.(upper := c == 'X'), s.width, s.prec);
      } else if c == 'p' {
        args := Rest(args);
        AllFit(w, 16);
        EmitInt(w, 16, s.flags.(zero := true, upper := true), if s.width > 0 then s.width else 16, s.prec);
      } else if c == 'f' || c == 'F' {
        return false, args;
      } else if c == 'n' {
        args := Rest(args);
      } else {
        Putc('%');
        Putc(c);
      }
    }

    /** core_vsnprintf: the text of the format and a final NUL, which counts towards the
        result. There is a result exactly if the model covers every conversion of the format. */
    method CoreVsnprintf(fmt: string, args: seq<Arg>) returns (r: Option<nat>)
      requires Valid()
      modifies this`pos, this`shown, this`text, buf
      ensures Valid() && (r.Some? <==> AllPrintable(fmt, 0, args))
      ensures r.Some? ==> text == old(text) + Formatted(fmt, 0, args) + ['\0'] && r.value == |text|
      ensures r.Some? ==> FormatShows(fmt, 0, args, text[|old(text)|..|text| - 1])
    {
      hide Clipped, SpecFrom, Converted, Printable, Formatted, AllPrintable, FormatShows, Shows;
      var p, ap := 0, args;
      while At(fmt, p) != '\0'
        invariant p <= |fmt| && Valid() && (AllPrintable(fmt, p, ap) <==> AllPrintable(fmt, 0, args))
        invariant old(text) + Formatted(fmt, 0, args) == text + Formatted(fmt, p, ap)
        decreases |fmt| - p
      {
        FormattedNext(fmt, p, ap);
        if fmt[p] != '%' {
          Putc(fmt[p]);
          p := p + 1;
          continue;
        }
        var spec := ParseSpec(fmt, p + 1, ap);
        if At(fmt, spec.at) == '\0' {
          break;
        }
        var done;
        done, ap := Convert(spec, At(fmt, spec.at));
        if !done {
          return None;
        }
        p := spec.at + 1;
      }
      FormattedEnd(fmt, p, ap);
      FormattedIff(fmt, 0, args, Formatted(fmt, 0, args));
      Putc('\0');
      r := Some(pos);
    }
  }

  lemma AllFit(v: nat, base: nat)
    requires v < WORD64 && (base == 10 || base == 16)
    ensures |Digits(v, base)| <= ITOA_DIGITS
  {
    hide Digits;
    DigitsFitIff(v, base);
  }

  lemma OctalFits(v: nat)
    requires v < WORD64
    ensures |Digits(v, 8)| <= ITOA_DIGITS <==> v < 0x8000_0000_0000_0000
  {
    hide Digits;
    DigitsFitIff(v, 8);
  }

  /** What the model does not cover: floating-point conversions, and 64-bit octal conversions
      of numbers from 2^63 on. */
  lemma PrintableIff(s: Spec, c: char)
    ensures Printable(s, c) <==>
      c != 'f' && c != 'F' && (c == 'o' && s.len == LenLL ==> NextWord(s.args) < 0x8000_0000_0000_0000)
  {
    hide Digits;
    OctalFits(Low(NextWord(s.args), BitsOf(c, s.len)));
  }

  /** The text of a format, one step on. */
  lemma FormattedNext(fmt: string, p: nat, args: seq<Arg>)
    requires At(fmt, p) != '\0'
    ensures p < |fmt|
    ensures fmt[p] != '%' ==>
      && (AllPrintable(fmt, p, args) <==> AllPrintable(fmt, p + 1, args))
      && forall t: string :: t + Formatted(fmt, p, args) == t + [fmt[p]] + Formatted(fmt, p + 1, args)
    ensures fmt[p] == '%' ==>
      var s := SpecFrom(fmt, p + 1, args);
      && (At(fmt, s.at) == '\0' ==> Formatted(fmt, p, args) == "" && AllPrintable(fmt, p, args))
      && (At(fmt, s.at) != '\0' ==>
            && s.at < |fmt|
            && (AllPrintable(fmt, p, args) <==>
                  Printable(s, At(fmt, s.at)) && AllPrintable(fmt, s.at + 1, Converted(s, At(fmt, s.at)).1))
            && forall t: string :: t + Formatted(fmt, p, args) ==
                 t + Converted(s, At(fmt, s.at)).0 + Formatted(fmt, s.at + 1, Converted(s, At(fmt, s.at)).1))
  {
    hide SpecFrom, Converted, Printable;
  }

  lemma FormattedEnd(fmt: string, p: nat, args: seq<Arg>)
    ensures At(fmt, p) == '\0' ==> Formatted(fmt, p, args) == "" && AllPrintable(fmt, p, args)
  {
  }

  /** The flag loop (sprintf.c:331-355). */
  method ParseFlags(fmt: string, start: nat) returns (flags: Flags, p: nat)
    ensures (flags, p) == FlagsFrom(fmt, start, NO_FLAGS)
  {
    flags, p := NO_FLAGS, start;
    var parsingFlags := true;
    while parsingFlags
      invariant FlagsFrom(fmt, start, NO_FLAGS) == FlagsFrom(fmt, p, flags)
      invariant !parsingFlags ==> FlagsFrom(fmt, p, flags) == (flags, p)
      decreases parsingFlags, |fmt| - p
    {
      if At(fmt, p) == '-' {
        flags := flags.(left := true);
        p := p + 1;
      } else if At(fmt, p) == '+' {
        flags := flags.(plus := true);
        p := p + 1;
      } else if At(fmt, p) == ' ' {
        flags := flags.(space := true);
        p := p + 1;
      } else if At(fmt, p) == '0' {
        flags := flags.(zero := true);
        p := p + 1;
      } else if At(fmt, p) == '#' {
        flags := flags.(hash := true);
        p := p + 1;
      } else {
        parsingFlags := false;
      }
    }
  }

  /** The digit loop of width and precision. */
  method ParseNumber(fmt: string, start: nat) returns (n: nat, p: nat)
    ensures (n, p) == NumberFrom(fmt, start, 0)
  {
    n, p := 0, start;
    while '0' <= At(fmt, p) <= '9'
      invariant NumberFrom(fmt, start, 0) == NumberFrom(fmt, p, n)
      decreases |fmt| - p
    {
      n := n * 10 + (At(fmt, p) - '0') as nat;
      p := p + 1;
    }
  }

  /** Flags, width, precision and length modifier (sprintf.c:330-425). */
  method ParseSpec(fmt: string, start: nat, args: seq<Arg>) returns (s: Spec)
    ensures s == SpecFrom(fmt, start, args)
  {
    hide FlagsFrom, NumberFrom, Signed, WithWidth, WithPrec, WithLen;
    var flags, p := ParseFlags(fmt, start);
    s := Spec(flags, 0, -1, LenNone, p, args);
    WidthKeepsPrec(fmt, s);
    s := ParseWidth(fmt, s);
    s := ParsePrec(fmt, s);
    s := ParseLen(fmt, s);
  }

  lemma WidthKeepsPrec(fmt: string, s: Spec)
    ensures WithWidth(fmt, s).prec == s.prec
  {
  }

  method ParseWidth(fmt: string, s0: Spec) returns (s: Spec)
    ensures s == WithWidth(fmt, s0)
  {
    hide NumberFrom, Signed;
    s := s0;
    if At(fmt, s.at) == '*' {
      var width := Signed(NextWord(s.args), 32);
      s := s.(args := Rest(s.args));
      if width < 0 {
        s := s.(flags := s.flags.(left := true));
        width := -width;
      }
      s := s.(width := width, at := s.at + 1);
    } else {
      var width, q := ParseNumber(fmt, s.at);
      s := s.(width := width, at := q);
    }
  }

  method ParsePrec(fmt: string, s0: Spec) returns (s: Spec)
    requires s0.prec == -1
    ensures s == WithPrec(fmt, s0)
  {
    hide NumberFrom, Signed;
    s := s0;
    if At(fmt, s.at) == '.' {
      s := s.(at := s.at + 1, flags := s.flags.(prec := true), prec := 0);
      if At(fmt, s.at) == '*' {
        s := s.(prec := Signed(NextWord(s.args), 32), args := Rest(s.args));
        if s.prec < 0 {
          s := s.(prec := -1, flags := s.flags.(prec := false));
        }
        s := s.(at := s.at + 1);
      } else {
        var prec, q := ParseNumber(fmt, s.at);
        s := s.(prec := prec, at := q);
      }
    }
  }

  method ParseLen(fmt: string, s0: Spec) returns (s: Spec)
    ensures s == WithLen(fmt, s0)
  {
    s := s0;
    if At(fmt, s.at) == 'h' {
      s := s.(at := s.at + 1);
      if At(fmt, s.at) == 'h' {
        s := s.(len := LenHH, at := s.at + 1);
      } else {
        s := s.(len := LenH);
      }
    } else if At(fmt, s.at) == 'l' {
      s := s.(at := s.at + 1);
      if At(fmt, s.at) == 'l' {
        s := s.(len := LenLL, at := s.at + 1);
      } else {
        s := s.(len := LenL);
      }
    } else if At(fmt, s.at) == 'z' {
      s := s.(len := LenZ, at := s.at + 1);
    } else if At(fmt, s.at) == 't' {
      s := s.(len := LenT, at := s.at + 1);
    }
  }

  // ---------------------------------------------------------------- the two sinks

  /** vsnprintf: the buffer receives the first characters of the text and its NUL, at most
      one less than the capacity; no other byte changes. The result is the length of the text
      and its NUL, whatever the capacity, also without a buffer. */
  method Vsnprintf(buf: array?<char>, n: nat, fmt: string, args: seq<Arg>) returns (r: Option<nat>)
    requires buf != null ==> n <= buf.Length
    modifies buf
    ensures r == if AllPrintable(fmt, 0, args) then Some(|Formatted(fmt, 0, args)| + 1) else None
    ensures r.Some? && buf != null ==> buf[..] == Clipped(old(buf[..]), Formatted(fmt, 0, args) + ['\0'], n)
    ensures r.Some? ==> FormatShows(fmt, 0, args, Formatted(fmt, 0, args))
  {
    hide Formatted, AllPrintable, Clipped, FormatShows;
    var c := new FormatContext(false, buf, n);
    r := c.CoreVsnprintf(fmt, args);
    assert "" + Formatted(fmt, 0, args) == Formatted(fmt, 0, args);
  }

  /** vprintf: the console receives the whole text and its NUL; the result is the same. */
  method Vprintf(fmt: string, args: seq<Arg>) returns (r: Option<nat>, shown: string)
    ensures r == if AllPrintable(fmt, 0, args) then Some(|Formatted(fmt, 0, args)| + 1) else None
    ensures r.Some? ==> shown == Formatted(fmt, 0, args) + ['\0'] && FormatShows(fmt, 0, args, shown[..|shown| - 1])
  {
    hide Formatted, AllPrintable, Clipped, FormatShows;
    var c := new FormatContext(true, null, 0);
    r := c.CoreVsnprintf(fmt, args);
    assert "" + Formatted(fmt, 0, args) == Formatted(fmt, 0, args);
    shown := c.shown;
  }

  /** The NUL reaches the buffer exactly if the capacity exceeds the length of the text by
      two: a clipped text is left without one. */
  lemma TerminatedIff(before: seq<char>, text: string, cap: nat)
    requires cap <= |before| && |text| < |before| && before[|text|] != '\0'
    ensures Clipped(before, text + ['\0'], cap)[|text|] == '\0' <==> |text| + 2 <= cap
  {
  }

  /** The parts of an integer field as emit_int computes them. */
  lemma IntField(v: nat, base: nat, f: Flags, width: nat, prec: int, zpad: nat, pad: nat)
    requires IsBase(base)
    requires zpad == (if prec > |Digits(v, base)| then prec - |Digits(v, base)| else 0)
    requires var payload := |Prefix(v, base, f)| + zpad + |Digits(v, base)|;
      pad == if payload < width then width - payload else 0
    ensures |DigitText(v, base, f.upper)| == |Digits(v, base)|
    ensures var zeroPad := f.zero && !f.prec && !f.left;
      IntText(v, base, f, width, prec) ==
        Repeat(' ', if !f.left && !zeroPad then pad else 0) + Prefix(v, base, f) +
            Repeat('0', if zeroPad then pad + zpad else zpad)
        + DigitText(v, base, f.upper) + Repeat(' ', if f.left then pad else 0)
  {
    hide Digits, Repeat, Chars, Prefix;
  }

  /** The digits of a number, made in a conversion buffer. */
  method NumberText(uval: nat, base: nat, upper: bool) returns (digits: string)
    requires IsBase(base) && |Digits(uval, base)| <= ITOA_DIGITS
    ensures digits == DigitText(uval, base, upper) && |digits| == |Digits(uval, base)|
  {
    hide Digits, Chars;
    var tmp := new char[ITOA_DIGITS + 1](_ => ' ');
    var p, ndigits := U64ToStr(uval, base, upper, tmp);
    digits := tmp[p..p + ndigits];
  }

  /** The prefix of an integer field (sprintf.c:147-168). */
  method PrefixOf(uval: nat, base: nat, flags: Flags, digits: string) returns (prefix: string)
    requires IsBase(base) && digits == DigitText(uval, base, flags.upper)
    ensures prefix == Prefix(uval, base, flags)
  {
    hide Digits, Chars, DigitText;
    SomeDigit(uval, base, flags.upper);
    prefix := "";
    if base == 10 {
      if flags.neg {
        prefix := prefix + "-";
      } else if flags.plus {
        prefix := prefix + "+";
      } else if flags.space {
        prefix := prefix + " ";
      }
    } else if flags.hash {
      if base == 16 && uval != 0 {
        prefix := prefix + "0";
        prefix := prefix + (if flags.upper then "X" else "x");
      } else if base == 8 && (|digits| == 0 || digits[0] != '0') {
        prefix := prefix + "0";
      }
    }
  }

  lemma Plain(a: string, b: string, c: string)
    ensures a + b + "" + "" + c == a + b + c
  {
  }

  lemma NoneRepeated()
    ensures forall c :: Repeat(c, 0) == ""
  {
  }

  lemma Joined(t: string, a: string, b: string, c: string, d: string, e: string)
    ensures t + a + b + c + d + e == t + (a + b + c + d + e)
  {
  }

  lemma SomeDigit(v: nat, base: nat, upper: bool)
    requires IsBase(base)
    ensures |Digits(v, base)| > 0 && |DigitText(v, base, upper)| == |Digits(v, base)|
    ensures DigitText(v, base, upper)[..1] == [DigitText(v, base, upper)[0]]
  {
    DigitsMeaning(v, base);
  }

  /** The length loop of emit_str. */
  method Strlen(s: string) returns (len: nat)
    ensures len == |CText(s)| <= |s| && CText(s) == s[..len]
  {
    len := 0;
    while len < |s| && s[len] != '\0'
      invariant len <= |s| && CText(s) == s[..len] + CText(s[len..])
    {
      assert s[len..][1..] == s[len + 1..] && s[..len + 1] == s[..len] + [s[len]];
      len := len + 1;
    }
  }

  /** u64_to_str: the digits are written backwards from the end of the buffer, behind them a
      NUL. The number must have at most 21 digits. */
  method U64ToStr(val: nat, base: nat, upper: bool, tmp: array<char>) returns (p: nat, len: nat)
    requires IsBase(base) && tmp.Length == ITOA_DIGITS + 1 && |Digits(val, base)| <= ITOA_DIGITS
    modifies tmp
    ensures p + len == ITOA_DIGITS && tmp[p + len] == '\0'
    ensures tmp[p..p + len] == DigitText(val, base, upper) && len == |Digits(val, base)|
  {
    hide Dig, Chars, DigitChar, Partial, DigitText;
    NoChars(upper);
    PartialStart(val, base, upper);
    p := tmp.Length;
    p := p - 1;
    tmp[p] := '\0';
    if val == 0 {
      p := p - 1;
      tmp[p] := '0';
      ZeroText(base, upper);
    } else {
      ghost var done: seq<nat> := [];
      var v: nat := val;
      while v > 0
        invariant p <= ITOA_DIGITS && |done| == ITOA_DIGITS - p && Partial(val, base, v, done)
        invariant tmp[p..ITOA_DIGITS] == Chars(done, upper) && tmp[ITOA_DIGITS] == '\0'
        decreases v
      {
        PartialNext(val, base, v, done);
        p := p - 1;
        tmp[p] := DigitChar(v % base, upper);
        CharsCons(v % base, done, upper);
        assert tmp[p..ITOA_DIGITS] == [tmp[p]] + tmp[p + 1..ITOA_DIGITS];
        done := [v % base] + done;
        v := v / base;
      }
      PartialEnd(val, base, upper, done);
    }
    len := ITOA_DIGITS - p;
  }

  /** The digits still to be made and those made already. */
  ghost predicate Partial(val: nat, base: nat, v: nat, done: seq<nat>)
    requires base > 1
  {
    Dig(val, base) == Dig(v, base) + done && AllBelow(done, 16)
  }

  lemma PartialNext(val: nat, base: nat, v: nat, done: seq<nat>)
    requires IsBase(base) && v > 0 && Partial(val, base, v, done)
    ensures v % base < 16 && v / base < v && Partial(val, base, v / base, [v % base] + done) &&
      |done| < |Dig(val, base)|
    ensures AllBelow(done, 16)
  {
    DigLast(v, base);
    hide Dig;
    assert Dig(v / base, base) + [v % base] + done == Dig(v / base, base) + ([v % base] + done);
  }

  lemma DigLast(v: nat, base: nat)
    requires base > 1 && v > 0
    ensures Dig(v, base) == Dig(v / base, base) + [v % base] && v / base < v && v % base < base
  {
    DivSmaller(v, base);
  }

  lemma PartialStart(val: nat, base: nat, upper: bool)
    requires IsBase(base)
    ensures Partial(val, base, val, []) && (val > 0 ==> |Dig(val, base)| == |Digits(val, base)|)
  {
    assert Dig(val, base) + [] == Dig(val, base);
  }

  lemma PartialEnd(val: nat, base: nat, upper: bool, done: seq<nat>)
    requires IsBase(base) && Partial(val, base, 0, done) && val > 0
    ensures Digits(val, base) == done && DigitText(val, base, upper) == Chars(done, upper)
  {
    hide Chars;
  }

  lemma NoChars(upper: bool)
    ensures Chars([], upper) == ""
  {
  }

  lemma ZeroText(base: nat, upper: bool)
    requires IsBase(base)
    ensures DigitText(0, base, upper) == "0"
  {
    CharsCons(0, [], upper);
  }

  lemma CharsCons(d: nat, ds: seq<nat>, upper: bool)
    requires d < 16 && AllBelow(ds, 16)
    ensures Chars([d] + ds, upper) == [DigitChar(d, upper)] + Chars(ds, upper)
  {
    CharsAt([d] + ds, upper, 0);
    CharsTail([d] + ds, upper);
    assert ([d] + ds)[1..] == ds;
  }
}
