/** Conversion specifications as they are written, and that the parser of the printf engine
    (sprintf.c:330-425) reads each of them back. */
module FormatSpecs {
  import opened Layouts
  import opened FormatText

  /** A width or precision as written: nothing, a number, or a star for the next argument. */
  datatype Amount = Omitted | Number(n: nat) | Star

  /** The parts of a specification between the percent sign and the conversion character. */
  datatype Written = Written(flags: string, width: Amount, prec: Option<Amount>, len: Len)

  predicate IsFlag(c: char) { c == '-' || c == '+' || c == ' ' || c == '0' || c == '#' }

  predicate IsDigit(c: char) { '0' <= c <= '9' }

  predicate IsLength(c: char) { c == 'h' || c == 'l' || c == 'z' || c == 't' }

  /** The flags are flags, in any order and number. A width of 0 would read as a flag. */
  predicate WellWritten(w: Written) {
    (forall i :: 0 <= i < |w.flags| ==> IsFlag(w.flags[i])) && w.width != Number(0)
  }

  /** A character that ends a specification, as every conversion character does. */
  predicate Ends(c: char) {
    !IsFlag(c) && !IsDigit(c) && !IsLength(c) && c != '*' && c != '.'
  }

  lemma ConversionsEnd(c: char)
    requires c in "diuoxXcspn%fF"
    ensures Ends(c)
  {
  }

  function AmountText(a: Amount): string {
    match a
    case Omitted => ""
    case Number(n) => DigitText(n, 10, false)
    case Star => "*"
  }

  function PrecText(prec: Option<Amount>): string {
    match prec
    case None => ""
    case Some(a) => "." + AmountText(a)
  }

  function LenText(len: Len): string {
    match len
    case LenNone => ""
    case LenHH => "hh"
    case LenH => "h"
    case LenL => "l"
    case LenLL => "ll"
    case LenZ => "z"
    case LenT => "t"
  }

  function TextOf(w: Written): string {
    w.flags + (AmountText(w.width) + (PrecText(w.prec) + LenText(w.len)))
  }

  /** What a specification means: the flags it names, a width whose sign is a left flag, a
      precision that counts unless it is negative, and the arguments the stars leave. */
  function Meant(w: Written, at: nat, args: seq<Arg>): Spec {
    var v := Signed(NextWord(args), 32);
    var rest := if w.width.Star? then Rest(args) else args;
    var u := Signed(NextWord(rest), 32);
    var starred := w.prec == Some(Star);
    Spec(Flags('-' in w.flags || (w.width.Star? && v < 0), '+' in w.flags, ' ' in w.flags, '0' in w.flags,
               '#' in w.flags, false, false, w.prec.Some? && !(starred && u < 0)),
         match w.width { case Omitted => 0 case Number(n) => n case Star => if v < 0 then -v else v },
         match w.prec {
           case None => -1
           case Some(Omitted) => 0
           case Some(Number(n)) => n
           case Some(Star) => if u < 0 then -1 else u
         },
         w.len, at, if starred then Rest(rest) else rest)
  }

  /** The text `t` stands in the format at `p`. */
  predicate HasAt(fmt: string, p: nat, t: string) {
    p + |t| <= |fmt| && fmt[p..p + |t|] == t
  }

  lemma HasParts(fmt: string, p: nat, a: string, b: string)
    requires HasAt(fmt, p, a + b)
    ensures HasAt(fmt, p, a) && HasAt(fmt, p + |a|, b)
  {
    assert fmt[p..p + |a|] == (a + b)[..|a|];
    assert fmt[p + |a|..p + |a| + |b|] == (a + b)[|a|..];
  }

  lemma HasChar(fmt: string, p: nat, t: string, i: nat)
    requires HasAt(fmt, p, t) && i < |t|
    ensures At(fmt, p + i) == t[i]
  {
    assert fmt[p..p + |t|][i] == fmt[p + i];
  }

  /** The flags in `t` added to those already read. */
  function Added(f: Flags, t: string): Flags {
    f.(left := f.left || '-' in t, plus := f.plus || '+' in t, space := f.space || ' ' in t,
       zero := f.zero || '0' in t, hash := f.hash || '#' in t)
  }

  lemma {:induction false} FlagsRun(fmt: string, p: nat, t: string, f: Flags)
    requires HasAt(fmt, p, t) && (forall i :: 0 <= i < |t| ==> IsFlag(t[i])) && !IsFlag(At(fmt, p + |t|))
    ensures FlagsFrom(fmt, p, f) == (Added(f, t), p + |t|)
    decreases |t|
  {
    hide Added;
    if t == "" {
      AddedNone(f);
    } else {
      HasChar(fmt, p, t, 0);
      assert t == [t[0]] + t[1..];
      HasParts(fmt, p, [t[0]], t[1..]);
      FlagStep(fmt, p, f);
      AddedFirst(f, t[0], t[1..]);
      FlagsRun(fmt, p + 1, t[1..], Added(f, [t[0]]));
    }
  }

  lemma AddedNone(f: Flags)
    ensures Added(f, "") == f
  {
  }

  lemma AddedFirst(f: Flags, c: char, t: string)
    ensures Added(Added(f, [c]), t) == Added(f, [c] + t)
  {
    assert forall d: char :: d in [c] + t <==> d == c || d in t;
  }

  lemma FlagStep(fmt: string, p: nat, f: Flags)
    requires IsFlag(At(fmt, p))
    ensures FlagsFrom(fmt, p, f) == FlagsFrom(fmt, p + 1, Added(f, [At(fmt, p)]))
  {
    var c := At(fmt, p);
    assert forall d: char :: d in [c] <==> d == c;
  }

  lemma {:induction false} NumberRun(fmt: string, p: nat, ds: seq<nat>, acc: nat)
    requires AllBelow(ds, 10) && HasAt(fmt, p, Chars(ds, false)) && !IsDigit(At(fmt, p + |ds|))
    ensures NumberFrom(fmt, p, acc) == (Continue(acc, ds, 10), p + |ds|)
    decreases |ds|
  {
    if ds != [] {
      var t := Chars(ds, false);
      CharsAt(ds, false, 0);
      HasChar(fmt, p, t, 0);
      CharsTail(ds, false);
      assert t == [t[0]] + t[1..];
      HasParts(fmt, p, [t[0]], t[1..]);
      NumberRun(fmt, p + 1, ds[1..], acc * 10 + ds[0]);
    }
  }

  lemma NumberReadsBack(fmt: string, p: nat, n: nat)
    requires HasAt(fmt, p, DigitText(n, 10, false)) && !IsDigit(At(fmt, p + |DigitText(n, 10, false)|))
    ensures NumberFrom(fmt, p, 0) == (n, p + |DigitText(n, 10, false)|)
  {
    hide Digits, NumberFrom, Chars;
    DigitsMeaning(n, 10);
    NumberRun(fmt, p, Digits(n, 10), 0);
    ContinueIsValue(Digits(n, 10), 10);
  }

  lemma FirstDigit(n: nat)
    ensures |DigitText(n, 10, false)| > 0 && IsDigit(DigitText(n, 10, false)[0])
    ensures n > 0 ==> !IsFlag(DigitText(n, 10, false)[0])
  {
    hide Digits, Chars;
    DigitsMeaning(n, 10);
    CharsAt(Digits(n, 10), false, 0);
  }

  lemma LenReadsBack(fmt: string, s: Spec, len: Len)
    requires HasAt(fmt, s.at, LenText(len)) && Ends(At(fmt, s.at + |LenText(len)|)) && s.len == LenNone
    ensures WithLen(fmt, s) == s.(len := len, at := s.at + |LenText(len)|)
  {
    if len != LenNone { HasChar(fmt, s.at, LenText(len), 0); }
    if len == LenHH || len == LenLL { HasChar(fmt, s.at, LenText(len), 1); }
  }

  /** What may stand behind a precision: a length modifier or the end. */
  lemma BehindPrec(fmt: string, p: nat, len: Len)
    requires HasAt(fmt, p, LenText(len)) && Ends(At(fmt, p + |LenText(len)|))
    ensures var c := At(fmt, p); !IsFlag(c) && !IsDigit(c) && c != '*' && c != '.'
  {
    if len != LenNone { HasChar(fmt, p, LenText(len), 0); }
  }

  /** What may stand behind a width: also the dot of a precision. */
  lemma BehindWidth(fmt: string, p: nat, prec: Option<Amount>, len: Len)
    requires HasAt(fmt, p, PrecText(prec) + LenText(len)) && Ends(At(fmt, p + |PrecText(prec)| + |LenText(len)|))
    ensures var c := At(fmt, p); !IsFlag(c) && !IsDigit(c) && c != '*' && (c == '.' <==> prec.Some?)
  {
    hide AmountText, LenText;
    HasParts(fmt, p, PrecText(prec), LenText(len));
    if prec.None? { BehindPrec(fmt, p, len); } else { HasChar(fmt, p, PrecText(prec), 0); }
  }

  /** The specification read so far with a precision added. */
  function AfterPrec(s: Spec, prec: Option<Amount>): Spec {
    var v := Signed(NextWord(s.args), 32);
    if prec.None? then s
    else if prec.value.Star? then
      s.(flags := s.flags.(prec := v >= 0), prec := if v < 0 then -1 else v, at := s.at + 2, args := Rest(s.args))
    else
      s.(flags := s.flags.(prec := true), prec := if prec.value.Number? then prec.value.n else 0,
         at := s.at + 1 + |AmountText(prec.value)|)
  }

  lemma PrecReadsBack(fmt: string, s: Spec, prec: Option<Amount>, len: Len)
    requires HasAt(fmt, s.at, PrecText(prec) + LenText(len))
    requires Ends(At(fmt, s.at + |PrecText(prec)| + |LenText(len)|))
    ensures WithPrec(fmt, s) == AfterPrec(s, prec)
  {
    hide Signed, LenText, DigitText, NumberFrom, AmountText, WithPrec, AfterPrec, NextWord, Rest;
    BehindWidth(fmt, s.at, prec, len);
    HasParts(fmt, s.at, PrecText(prec), LenText(len));
    BehindPrec(fmt, s.at + |PrecText(prec)|, len);
    if prec.None? {
      NoPrec(fmt, s);
    } else {
      HasParts(fmt, s.at, ".", AmountText(prec.value));
      PrecAmount(fmt, s, prec.value);
    }
  }

  lemma NoPrec(fmt: string, s: Spec)
    requires At(fmt, s.at) != '.'
    ensures WithPrec(fmt, s) == AfterPrec(s, None)
  {
  }

  lemma PrecAmount(fmt: string, s: Spec, a: Amount)
    requires At(fmt, s.at) == '.' && HasAt(fmt, s.at + 1, AmountText(a))
    requires !IsDigit(At(fmt, s.at + 1 + |AmountText(a)|)) && At(fmt, s.at + 1 + |AmountText(a)|) != '*'
    ensures WithPrec(fmt, s) == AfterPrec(s, Some(a))
  {
    hide Signed, DigitText, NumberFrom, NextWord, Rest;
    if a.Star? {
      HasChar(fmt, s.at + 1, "*", 0);
    } else if a.Number? {
      FirstDigit(a.n);
      HasChar(fmt, s.at + 1, DigitText(a.n, 10, false), 0);
      NumberReadsBack(fmt, s.at + 1, a.n);
    } else {
      NoNumber(fmt, s.at + 1);
    }
  }

  lemma NoNumber(fmt: string, p: nat)
    requires !IsDigit(At(fmt, p))
    ensures NumberFrom(fmt, p, 0) == (0, p)
  {
  }

  /** The specification read so far with a width added. */
  function AfterWidth(s: Spec, width: Amount): Spec {
    var v := Signed(NextWord(s.args), 32);
    if width.Star? then
      s.(flags := s.flags.(left := s.flags.left || v < 0), width := if v < 0 then -v else v, at := s.at + 1,
         args := Rest(s.args))
    else
      s.(width := if width.Number? then width.n else 0, at := s.at + |AmountText(width)|)
  }

  lemma WidthReadsBack(fmt: string, s: Spec, width: Amount)
    requires HasAt(fmt, s.at, AmountText(width))
    requires !IsDigit(At(fmt, s.at + |AmountText(width)|)) && At(fmt, s.at + |AmountText(width)|) != '*'
    ensures WithWidth(fmt, s) == AfterWidth(s, width)
  {
    hide Signed, DigitText, NumberFrom;
    if width.Star? {
      HasChar(fmt, s.at, "*", 0);
    } else if width.Number? {
      FirstDigit(width.n);
      HasChar(fmt, s.at, DigitText(width.n, 10, false), 0);
      NumberReadsBack(fmt, s.at, width.n);
    } else {
      NoNumber(fmt, s.at);
    }
  }

  /** What may stand behind the flags: also a width, which starts with no flag. */
  lemma BehindFlags(fmt: string, p: nat, w: Written)
    requires WellWritten(w) && HasAt(fmt, p, AmountText(w.width) + (PrecText(w.prec) + LenText(w.len)))
    requires Ends(At(fmt, p + |AmountText(w.width)| + |PrecText(w.prec)| + |LenText(w.len)|))
    ensures !IsFlag(At(fmt, p))
  {
    hide PrecText, LenText, DigitText;
    HasParts(fmt, p, AmountText(w.width), PrecText(w.prec) + LenText(w.len));
    if w.width.Omitted? {
      BehindWidth(fmt, p, w.prec, w.len);
    } else if w.width.Number? {
      FirstDigit(w.width.n);
      HasChar(fmt, p, AmountText(w.width), 0);
    } else {
      HasChar(fmt, p, AmountText(w.width), 0);
    }
  }

  /** Every specification, whatever its flags, width, precision and length, parses back to
      what it means, wherever it stands in a format. */
  lemma SpecReadsBack(fmt: string, p: nat, w: Written, args: seq<Arg>)
    requires WellWritten(w) && HasAt(fmt, p, TextOf(w)) && Ends(At(fmt, p + |TextOf(w)|))
    ensures SpecFrom(fmt, p, args) == Meant(w, p + |TextOf(w)|, args)
  {
    hide Signed, AmountText, PrecText, LenText, FlagsFrom, WithWidth, WithPrec, WithLen, AfterWidth, AfterPrec, Added,
         Meant, IsFlag, IsDigit, IsLength, WellWritten;
    var a, b, c := AmountText(w.width), PrecText(w.prec), LenText(w.len);
    var q := p + |w.flags|;
    HasParts(fmt, p, w.flags, a + (b + c));
    BehindFlags(fmt, q, w);
    FlagsWritten(w);
    FlagsRun(fmt, p, w.flags, NO_FLAGS);
    RestReadsBack(fmt, Spec(Added(NO_FLAGS, w.flags), 0, -1, LenNone, q, args), w);
    MeantIs(w, q, args);
  }

  /** So it does in every format, whatever stands before it and after its conversion character. */
  lemma ConversionReadsBack(before: string, w: Written, c: char, after: string, args: seq<Arg>)
    requires WellWritten(w) && c in "diuoxXcspn%fF"
    ensures var fmt, p, q := before + TextOf(w) + [c] + after, |before|, |before| + |TextOf(w)|;
      SpecFrom(fmt, p, args) == Meant(w, q, args) && At(fmt, q) == c
  {
    hide TextOf, WellWritten, SpecFrom, Meant, Ends;
    var t := TextOf(w);
    var fmt, p, q := before + t + [c] + after, |before|, |before| + |t|;
    assert fmt[p..q] == t && fmt[q] == c;
    ConversionsEnd(c);
    SpecReadsBack(fmt, p, w, args);
  }

  lemma FlagsWritten(w: Written)
    requires WellWritten(w)
    ensures forall i :: 0 <= i < |w.flags| ==> IsFlag(w.flags[i])
  {
  }

  /** Width, precision and length behind the flags. */
  lemma RestReadsBack(fmt: string, s: Spec, w: Written)
    requires HasAt(fmt, s.at, AmountText(w.width) + (PrecText(w.prec) + LenText(w.len))) && s.len == LenNone
    requires Ends(At(fmt, s.at + |AmountText(w.width)| + |PrecText(w.prec)| + |LenText(w.len)|))
    ensures WithLen(fmt, WithPrec(fmt, WithWidth(fmt, s))) ==
      AfterPrec(AfterWidth(s, w.width), w.prec)
        .(len := w.len, at := s.at + |AmountText(w.width)| + |PrecText(w.prec)| + |LenText(w.len)|)
  {
    hide Signed, AmountText, PrecText, LenText, WithWidth, WithPrec, WithLen, AfterWidth, AfterPrec, IsFlag, IsDigit,
         IsLength, Ends;
    var a, b, c := AmountText(w.width), PrecText(w.prec), LenText(w.len);
    HasParts(fmt, s.at, a, b + c);
    HasParts(fmt, s.at + |a|, b, c);
    BehindWidth(fmt, s.at + |a|, w.prec, w.len);
    WidthReadsBack(fmt, s, w.width);
    AfterWidthAt(s, w.width);
    var s1 := AfterWidth(s, w.width);
    PrecReadsBack(fmt, s1, w.prec, w.len);
    AfterPrecAt(s1, w.prec);
    LenReadsBack(fmt, AfterPrec(s1, w.prec), w.len);
  }

  lemma AfterWidthAt(s: Spec, width: Amount)
    ensures AfterWidth(s, width).at == s.at + |AmountText(width)| && AfterWidth(s, width).len == s.len
  {
    hide DigitText, Signed;
  }

  lemma AfterPrecAt(s: Spec, prec: Option<Amount>)
    ensures AfterPrec(s, prec).at == s.at + |PrecText(prec)| && AfterPrec(s, prec).len == s.len
  {
    hide DigitText, Signed;
  }

  /** The meaning of a specification is its parts added one after the other. */
  lemma MeantIs(w: Written, q: nat, args: seq<Arg>)
    ensures var s := AfterPrec(AfterWidth(Spec(Added(NO_FLAGS, w.flags), 0, -1, LenNone, q, args), w.width), w.prec);
      forall at: nat :: s.(len := w.len, at := at) == Meant(w, at, args)
  {
    hide DigitText, Signed, NextWord, Rest;
  }
}
